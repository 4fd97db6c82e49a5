/** Machine-level types shared by every layer, and the concatenation of a list of byte strings. */
module Common {

  const TWO_32 := 0x1_0000_0000

  type byte = x: int | 0 <= x < 256
  type uint32 = x: int | 0 <= x < TWO_32

  /** The contents of a cached block: never empty, and short enough for a 32-bit size field. */
  type Chunk = b: seq<byte> | 1 <= |b| < TWO_32 witness [0]

  /** Any total function from byte strings to 32-bit numbers can play the part of the block hash. */
  type Hash = seq<byte> -> uint32

  datatype Option<+T> = None | Some(value: T)

  function Min(a: nat, b: nat): nat {
    if a < b then a else b
  }

  lemma Associate<T>(a: seq<T>, b: seq<T>, c: seq<T>)
    ensures (a + b) + c == a + (b + c)
  {
  }

  lemma SplitLast<T>(s: seq<T>)
    requires s != []
    ensures s == s[..|s| - 1] + [s[|s| - 1]]
  {
  }

  function Flatten<T>(ss: seq<seq<T>>): seq<T> {
    if ss == [] then [] else Flatten(ss[..|ss| - 1]) + ss[|ss| - 1]
  }

  lemma {:induction false} FlattenConcat<T>(a: seq<seq<T>>, b: seq<seq<T>>)
    ensures Flatten(a + b) == Flatten(a) + Flatten(b)
  {
    if b == [] {
      assert a + b == a;
    } else {
      var k := |b| - 1;
      assert (a + b)[..|a + b| - 1] == a + b[..k];
      FlattenConcat(a, b[..k]);
      Associate(Flatten(a), Flatten(b[..k]), b[k]);
    }
  }

  lemma FlattenAppend<T>(a: seq<seq<T>>, x: seq<T>)
    ensures Flatten(a + [x]) == Flatten(a) + x
  {
    assert (a + [x])[..|a|] == a;
  }

  /** The k-th string of a list sits in the concatenation between its own two offsets. */
  lemma FlattenAt<T>(ss: seq<seq<T>>, k: nat)
    requires k < |ss|
    ensures |Flatten(ss[..k])| + |ss[k]| == |Flatten(ss[..k + 1])| <= |Flatten(ss)|
    ensures Flatten(ss)[|Flatten(ss[..k])|..|Flatten(ss[..k + 1])|] == ss[k]
  {
    assert ss[..k + 1] == ss[..k] + [ss[k]];
    FlattenAppend(ss[..k], ss[k]);
    assert ss == ss[..k + 1] + ss[k + 1..];
    FlattenConcat(ss[..k + 1], ss[k + 1..]);
  }
}
