/** The wire format: 13-byte block descriptors, some followed by a payload. */
module Wire {
  import opened Common

  /** sizeof(block_desc): a packed 4-byte number, 8-byte size and 1-byte flag. */
  const DESC_SIZE := 13

  type Size = x: int | 0 < x < TWO_32 witness 1

  /** What one block, or the end of a file, puts on the wire. */
  datatype Msg = Data(num: uint32, data: Chunk) | Ref(num: uint32, size: Size) | Eof

  datatype Desc = Desc(num: uint32, size: uint32, isOld: bool)

  /** A 32-bit number as htonl lays it out in memory. */
  function BigEndian(x: uint32): (s: seq<byte>)
    ensures |s| == 4
  {
    var hi := x / 256;
    var higher := hi / 256;
    [higher / 256, higher % 256, hi % 256, x % 256]
  }

  function FromBigEndian(s: seq<byte>): uint32
    requires |s| == 4
  {
    (((s[0] as int) * 256 + s[1]) * 256 + s[2]) * 256 + s[3]
  }

  /** A descriptor in memory order on a little-endian host with 64-bit size_t: the swapped size
      fills the low half of its field, which comes first. */
  function WriteDesc(d: Desc): (s: seq<byte>)
    ensures |s| == DESC_SIZE
  {
    BigEndian(d.num) + BigEndian(d.size) + [0, 0, 0, 0] + [if d.isOld then 1 else 0]
  }

  /** The client's reading of 13 bytes: ntohl keeps only the low half of the size field. */
  function ReadDesc(s: seq<byte>): Desc
    requires |s| == DESC_SIZE
  {
    Desc(FromBigEndian(s[..4]), FromBigEndian(s[4..8]), s[12] != 0)
  }

  lemma BigEndianRoundTrip(x: uint32)
    ensures FromBigEndian(BigEndian(x)) == x
  {
    var hi := x / 256;
    var higher := hi / 256;
    assert higher == higher / 256 * 256 + higher % 256;
    assert hi == higher * 256 + hi % 256;
  }

  lemma DivMod256(q: int, r: byte)
    ensures (q * 256 + r) / 256 == q && (q * 256 + r) % 256 == r
  {
  }

  lemma BigEndianRoundTripBack(s: seq<byte>)
    requires |s| == 4
    ensures BigEndian(FromBigEndian(s)) == s
  {
    var higher: int := (s[0] as int) * 256 + s[1];
    var hi: int := higher * 256 + s[2];
    DivMod256(s[0], s[1]);
    DivMod256(higher, s[2]);
    DivMod256(hi, s[3]);
  }

  lemma DescRoundTrip(d: Desc)
    ensures ReadDesc(WriteDesc(d)) == d
  {
    BigEndianRoundTrip(d.num);
    BigEndianRoundTrip(d.size);
    assert WriteDesc(d)[..4] == BigEndian(d.num) && WriteDesc(d)[4..8] == BigEndian(d.size);
  }

  /** Where each byte of a descriptor goes: number and size most significant byte first, the upper half
      of the size field zero, the flag last. */
  lemma DescLayout(d: Desc)
    ensures var s := WriteDesc(d);
      && d.num == s[0] as int * 0x100_0000 + s[1] as int * 0x1_0000 + s[2] as int * 0x100 + s[3]
      && d.size == s[4] as int * 0x100_0000 + s[5] as int * 0x1_0000 + s[6] as int * 0x100 + s[7]
      && s[8..12] == [0, 0, 0, 0]
      && s[12] == if d.isOld then 1 else 0
  {
    BigEndianRoundTrip(d.num);
    BigEndianRoundTrip(d.size);
    assert WriteDesc(d)[..4] == BigEndian(d.num) && WriteDesc(d)[4..8] == BigEndian(d.size);
  }

  function DescOf(m: Msg): Desc {
    match m
    case Data(num, data) => Desc(num, |data|, false)
    case Ref(num, size) => Desc(num, size, true)
    case Eof => Desc(0, 0, false)
  }

  function Encode(m: Msg): (s: seq<byte>)
    ensures |s| >= DESC_SIZE
  {
    WriteDesc(DescOf(m)) + if m.Data? then m.data else []
  }

  /** Byte by byte what a transmission looks like: the number in bytes 0-3 and the size in bytes 4-7, the
      most significant byte first, four zero bytes, the flag, and then the payload. */
  ghost predicate LaidOut(s: seq<byte>, num: uint32, size: uint32, flag: byte, payload: seq<byte>) {
    && |s| == 13 + |payload|
    && num == s[0] as int * 0x100_0000 + s[1] as int * 0x1_0000 + s[2] as int * 0x100 + s[3]
    && size == s[4] as int * 0x100_0000 + s[5] as int * 0x1_0000 + s[6] as int * 0x100 + s[7]
    && s[8..13] == [0, 0, 0, 0, flag] && s[13..] == payload
  }

  /** The bytes of each message: a block has the flag 0 and its bytes behind it, a reference the flag 1 and
      nothing behind it, and an end of file is 13 zero bytes. */
  lemma MessageLayout(m: Msg)
    ensures match m
      case Data(num, data) => LaidOut(Encode(m), num, |data|, 0, data)
      case Ref(num, size) => LaidOut(Encode(m), num, size, 1, [])
      case Eof => Encode(m) == [0, 0, 0, 0, 0, 0, 0, 0, 0, 0, 0, 0, 0]
  {
    var d := DescOf(m);
    DescLayout(d);
    var s, e := WriteDesc(d), Encode(m);
    hide WriteDesc;
    assert e[..13] == s && forall k :: 0 <= k < 13 ==> e[k] == s[k];
    if m.Eof? {
      assert s[8..12] == [s[8], s[9], s[10], s[11]];
    } else {
      assert e[8..13] == s[8..12] + [s[12]];
    }
  }

  function EncodeAll(ms: seq<Msg>): seq<byte> {
    if ms == [] then [] else EncodeAll(ms[..|ms| - 1]) + Encode(ms[|ms| - 1])
  }

  lemma {:induction false} EncodeConcat(a: seq<Msg>, b: seq<Msg>)
    ensures EncodeAll(a + b) == EncodeAll(a) + EncodeAll(b)
  {
    if b == [] {
      assert a + b == a;
    } else {
      var k := |b| - 1;
      assert (a + b)[..|a + b| - 1] == a + b[..k];
      EncodeConcat(a, b[..k]);
      Associate(EncodeAll(a), EncodeAll(b[..k]), Encode(b[k]));
      hide Encode;
    }
  }

  lemma EncodeOne(m: Msg)
    ensures EncodeAll([m]) == Encode(m)
  {
    assert [m][..0] == [];
  }

  lemma EncodeFirst(m: Msg, ms: seq<Msg>)
    ensures EncodeAll([m] + ms) == Encode(m) + EncodeAll(ms)
  {
    EncodeConcat([m], ms);
    EncodeOne(m);
  }

  // --- Reading a byte stream back ---

  datatype Parsed = Incomplete | Parsed(msg: Msg, rest: seq<byte>)

  /** The message at the front of a byte stream, by the branches of `receive_block`: any descriptor of
      size zero is an end of file, and only a descriptor that is not old has a payload. */
  function Parse(s: seq<byte>): (p: Parsed)
    ensures p.Parsed? ==> |p.rest| + DESC_SIZE <= |s|
  {
    if |s| < DESC_SIZE then Incomplete else
    var d := ReadDesc(s[..DESC_SIZE]);
    var body := s[DESC_SIZE..];
    if d.size == 0 then Parsed(Eof, body)
    else if d.isOld then Parsed(Ref(d.num, d.size), body)
    else if |body| < d.size then Incomplete
    else Parsed(Data(d.num, body[..d.size]), body[d.size..])
  }

  /** What the client makes of any bytes, position by position: nothing before 13 have arrived; the end of
      a file if bytes 4-7 are zero; a reference if byte 12 is not; else a block of as many bytes as bytes
      4-7 say, once they have arrived. */
  lemma ParseLayout(s: seq<byte>)
    ensures |s| < 13 ==> Parse(s).Incomplete?
    ensures |s| >= 13 ==>
      var num := s[0] as int * 0x100_0000 + s[1] as int * 0x1_0000 + s[2] as int * 0x100 + s[3];
      var size := s[4] as int * 0x100_0000 + s[5] as int * 0x1_0000 + s[6] as int * 0x100 + s[7];
      if size == 0 then Parse(s) == Parsed(Eof, s[13..])
      else if s[12] != 0 then Parse(s) == Parsed(Ref(num, size), s[13..])
      else if |s| < 13 + size then Parse(s).Incomplete?
      else Parse(s) == Parsed(Data(num, s[13..13 + size]), s[13 + size..])
  {
    if |s| >= 13 {
      var e := s[..13];
      assert e[..4] == [s[0], s[1], s[2], s[3]] && e[4..8] == [s[4], s[5], s[6], s[7]] && e[12] == s[12];
      var size: int := ReadDesc(e).size;
      if |s| >= 13 + size {
        assert s[13..][..size] == s[13..13 + size] && s[13..][size..] == s[13 + size..];
      }
    }
  }

  lemma ParseEncode(m: Msg, tail: seq<byte>)
    ensures Parse(Encode(m) + tail) == Parsed(m, tail)
  {
    DescRoundTrip(DescOf(m));
    var s := Encode(m) + tail;
    assert s[..DESC_SIZE] == WriteDesc(DescOf(m));
    if m.Data? {
      assert s[DESC_SIZE..] == m.data + tail;
    } else {
      assert s[DESC_SIZE..] == tail;
    }
  }

  /** No strict prefix of an encoded message parses: the client waits for all of it. */
  lemma PrefixIncomplete(m: Msg, n: nat)
    requires n < |Encode(m)|
    ensures Parse(Encode(m)[..n]).Incomplete?
  {
    if n >= DESC_SIZE {
      DescRoundTrip(DescOf(m));
      assert Encode(m)[..n][..DESC_SIZE] == WriteDesc(DescOf(m));
    }
  }

  /** A message once read is not changed by bytes that arrive later. */
  lemma ParseExtends(s: seq<byte>, more: seq<byte>)
    requires Parse(s).Parsed?
    ensures Parse(s + more) == Parsed(Parse(s).msg, Parse(s).rest + more)
  {
    assert (s + more)[..DESC_SIZE] == s[..DESC_SIZE];
    assert (s + more)[DESC_SIZE..] == s[DESC_SIZE..] + more;
    var d := ReadDesc(s[..DESC_SIZE]);
    if d.size != 0 && !d.isOld {
      assert (s[DESC_SIZE..] + more)[..d.size] == s[DESC_SIZE..][..d.size];
      assert (s[DESC_SIZE..] + more)[d.size..] == s[DESC_SIZE..][d.size..] + more;
    }
  }

  /** All complete messages of a stream, and the bytes after the last of them. */
  function ParseAll(s: seq<byte>): (r: (seq<Msg>, seq<byte>))
    ensures Parse(r.1).Incomplete?
    decreases |s|
  {
    match Parse(s)
    case Incomplete => ([], s)
    case Parsed(m, rest) => var (ms, left) := ParseAll(rest); ([m] + ms, left)
  }

  /** Unique decodability, including a stream that stops inside the next message. */
  lemma {:induction false} ParseAllEncodeAll(ms: seq<Msg>, left: seq<byte>)
    requires Parse(left).Incomplete?
    ensures ParseAll(EncodeAll(ms) + left) == (ms, left)
  {
    if ms == [] {
      assert EncodeAll(ms) + left == left;
    } else {
      var tail := EncodeAll(ms[1..]) + left;
      assert ms == [ms[0]] + ms[1..];
      EncodeFirst(ms[0], ms[1..]);
      assert EncodeAll(ms) + left == Encode(ms[0]) + tail;
      ParseEncode(ms[0], tail);
      ParseAllEncodeAll(ms[1..], left);
    }
  }

  /** Two message sequences with the same bytes are the same. */
  lemma EncodeAllInjective(a: seq<Msg>, b: seq<Msg>)
    requires EncodeAll(a) == EncodeAll(b)
    ensures a == b
  {
    ParseAllEncodeAll(a, []);
    ParseAllEncodeAll(b, []);
    assert EncodeAll(a) + [] == EncodeAll(a) && EncodeAll(b) + [] == EncodeAll(b);
  }

  lemma ParseAllFirst(s: seq<byte>, m: Msg, rest: seq<byte>)
    requires Parse(s) == Parsed(m, rest)
    ensures ParseAll(s) == ([m] + ParseAll(rest).0, ParseAll(rest).1)
  {
  }

  lemma ParseAllNone(s: seq<byte>)
    requires Parse(s).Incomplete?
    ensures ParseAll(s) == ([], s)
  {
  }

  /** Bytes that make up one message, arriving at the end of a fully readable stream, add that message. */
  lemma {:induction false} ParseAllAppend(s: seq<byte>, e: seq<byte>, m: Msg)
    requires ParseAll(s).1 == [] && Parse(e) == Parsed(m, [])
    ensures ParseAll(s + e) == (ParseAll(s).0 + [m], [])
    decreases |s|
  {
    var p := Parse(s);
    if p.Incomplete? {
      ParseAllNone(s);
      assert s + e == e;
      ParseAllFirst(e, m, []);
      ParseAllNone([]);
      assert [m] + [] == [] + [m];
    } else {
      ParseExtends(s, e);
      ParseAllFirst(s, p.msg, p.rest);
      ParseAllAppend(p.rest, e, m);
      ParseAllFirst(s + e, p.msg, p.rest + e);
      Associate([p.msg], ParseAll(p.rest).0, [m]);
    }
  }

  // --- Where a cut-off stream stops ---

  /** How many of the messages lie wholly within the first n bytes of their encoding. */
  function Complete(ms: seq<Msg>, n: nat): (k: nat)
    ensures k <= |ms| && (n < |EncodeAll(ms)| ==> k < |ms|)
  {
    if ms == [] || n >= |EncodeAll(ms)| then |ms| else Complete(ms[..|ms| - 1], n)
  }

  /** All messages but the last are complete exactly from where the last one begins. */
  lemma CompleteButLast(ms: seq<Msg>, n: nat)
    requires ms != [] && n < |EncodeAll(ms)|
    ensures Complete(ms, n) == |ms| - 1 <==> n >= |EncodeAll(ms[..|ms| - 1])|
  {
  }

  /** A stream cut after n bytes is its complete messages and a fragment that never parses. */
  lemma {:induction false} CutOff(ms: seq<Msg>, n: nat) returns (left: seq<byte>)
    requires n <= |EncodeAll(ms)|
    ensures EncodeAll(ms)[..n] == EncodeAll(ms[..Complete(ms, n)]) + left
    ensures Parse(left).Incomplete?
  {
    var all := EncodeAll(ms);
    if n == |all| {
      assert ms[..|ms|] == ms && all[..n] == all + [];
      left := [];
    } else {
      var k := |ms| - 1;
      var e := EncodeAll(ms[..k]);
      if n >= |e| {
        assert Complete(ms[..k], n) == k;
        left := Encode(ms[k])[..n - |e|];
        assert all[..n] == e + left;
        PrefixIncomplete(ms[k], n - |e|);
      } else {
        left := CutOff(ms[..k], n);
        assert all[..n] == e[..n];
        assert ms[..Complete(ms[..k], n)] == ms[..k][..Complete(ms[..k], n)];
      }
    }
  }

  /** A stream cut after n bytes still yields exactly the messages that are complete by then. */
  lemma TruncatedStream(ms: seq<Msg>, n: nat)
    requires n <= |EncodeAll(ms)|
    ensures ParseAll(EncodeAll(ms)[..n]).0 == ms[..Complete(ms, n)]
  {
    var left := CutOff(ms, n);
    ParseAllEncodeAll(ms[..Complete(ms, n)], left);
  }
}
