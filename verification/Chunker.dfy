/** The content-defined chunker: the scan of `send_file`, and what its cuts depend on. */
module Chunker {
  import opened Common

  const MAX_BYTES := 64

  /** The three-byte window that ends at i has fingerprint zero. */
  predicate ZeroAt(h: Hash, f: seq<byte>, i: int) {
    2 <= i < |f| && h([f[i - 2], f[i - 1], f[i]]) % (MAX_BYTES / 2) == 0
  }

  /** The state of the scan before it tests a position: the blocks cut off so far, and where the open one starts. */
  datatype ScanState = ScanState(blocks: seq<Chunk>, prev: nat)

  /** The test of the loop body, for the block that starts at prev. */
  predicate CutAt(h: Hash, f: seq<byte>, i: nat, prev: nat)
    requires prev <= i
  {
    ZeroAt(h, f, i) || i - prev >= MAX_BYTES
  }

  function Scan(h: Hash, f: seq<byte>, i: nat): (s: ScanState)
    requires i <= |f|
    ensures s.prev <= i && (i >= 2 ==> s.prev < i)
    ensures i - s.prev <= MAX_BYTES
  {
    if i <= 2 then
      ScanState([], 0)
    else
      var s := Scan(h, f, i - 1);
      if CutAt(h, f, i - 1, s.prev) then
        ScanState(s.blocks + [f[s.prev..i - 1]], i - 1)
      else
        s
  }

  /** What is left at the end of the file, if anything. */
  function LastBlock(h: Hash, f: seq<byte>): seq<Chunk> {
    var prev := Scan(h, f, |f|).prev;
    if prev == |f| then [] else [f[prev..|f|]]
  }

  /** The blocks of a file: those the scan cuts off, and what is left at the end. */
  function Chunks(h: Hash, f: seq<byte>): seq<Chunk> {
    Scan(h, f, |f|).blocks + LastBlock(h, f)
  }

  // --- The partition the scan computes ---

  /** What makes f[p..e] one block: its end is forced, and nothing inside it forces an earlier one. */
  ghost predicate GoodBlock(h: Hash, f: seq<byte>, p: nat, e: nat) {
    && p < e <= |f|
    && e - p <= MAX_BYTES
    && (e == |f| || ZeroAt(h, f, e) || e - p == MAX_BYTES)
    && forall i :: p < i < e ==> !ZeroAt(h, f, i)
  }

  function Offset(bs: seq<Chunk>, k: nat): nat
    requires k <= |bs|
  {
    |Flatten(bs[..k])|
  }

  ghost predicate GoodBlockAt(h: Hash, f: seq<byte>, bs: seq<Chunk>, k: nat)
    requires k < |bs|
  {
    GoodBlock(h, f, Offset(bs, k), Offset(bs, k + 1))
  }

  ghost predicate Covers(h: Hash, f: seq<byte>, bs: seq<Chunk>, p: nat) {
    && p <= |f|
    && Flatten(bs) == f[..p]
    && forall k :: 0 <= k < |bs| ==> GoodBlockAt(h, f, bs, k)
  }

  /** The declarative reading of the chunker, with no mention of a scan. */
  ghost predicate WellCut(h: Hash, f: seq<byte>, bs: seq<Chunk>) {
    && Flatten(bs) == f
    && forall k :: 0 <= k < |bs| ==> GoodBlockAt(h, f, bs, k)
  }

  lemma CoversExtends(h: Hash, f: seq<byte>, bs: seq<Chunk>, p: nat, e: nat)
    requires Covers(h, f, bs, p) && GoodBlock(h, f, p, e)
    ensures Covers(h, f, bs + [f[p..e]], e)
  {
    var cs: seq<Chunk> := bs + [f[p..e]];
    FlattenAppend(bs, f[p..e]);
    assert f[..p] + f[p..e] == f[..e];
    forall k | 0 <= k < |cs|
      ensures GoodBlockAt(h, f, cs, k)
    {
      assert cs[..k] == bs[..k];
      if k < |bs| {
        assert cs[..k + 1] == bs[..k + 1];
        assert GoodBlockAt(h, f, bs, k);
      } else {
        assert bs[..k] == bs && cs[..k + 1] == cs;
        assert Offset(cs, k) == p && Offset(cs, k + 1) == e;
      }
    }
  }

  /** The blocks cut off so far are good, and nothing in the open one forces a cut. */
  ghost predicate CoversTo(h: Hash, f: seq<byte>, s: ScanState, i: nat) {
    Covers(h, f, s.blocks, s.prev) && forall j :: s.prev < j < i ==> !ZeroAt(h, f, j)
  }

  lemma ScanCoversStep(h: Hash, f: seq<byte>, i: nat)
    requires 2 <= i < |f| && CoversTo(h, f, Scan(h, f, i), i)
    ensures CoversTo(h, f, Scan(h, f, i + 1), i + 1)
  {
    hide Covers, Flatten;
    var s := Scan(h, f, i);
    if CutAt(h, f, i, s.prev) {
      CoversExtends(h, f, s.blocks, s.prev, i);
    }
  }

  lemma CoversStart(h: Hash, f: seq<byte>, i: nat)
    requires i <= 2 && i <= |f|
    ensures CoversTo(h, f, Scan(h, f, i), i)
  {
    assert f[..0] == [];
  }

  lemma {:induction false} ScanCovers(h: Hash, f: seq<byte>, i: nat)
    requires i <= |f|
    ensures CoversTo(h, f, Scan(h, f, i), i)
  {
    hide *;
    if i <= 2 {
      CoversStart(h, f, i);
    } else {
      ScanCovers(h, f, i - 1);
      ScanCoversStep(h, f, i - 1);
    }
  }

  lemma ChunksAreWellCut(h: Hash, f: seq<byte>)
    ensures WellCut(h, f, Chunks(h, f))
  {
    ScanCovers(h, f, |f|);
    var s := Scan(h, f, |f|);
    assert f[..|f|] == f;
    if s.prev != |f| {
      CoversExtends(h, f, s.blocks, s.prev, |f|);
    } else {
      assert s.blocks + [] == s.blocks;
    }
  }

  lemma {:induction false} WellCutAgree(h: Hash, f: seq<byte>, bs: seq<Chunk>, cs: seq<Chunk>, k: nat)
    requires WellCut(h, f, bs) && WellCut(h, f, cs)
    requires k <= |bs| && k <= |cs|
    ensures bs[..k] == cs[..k]
  {
    if k == 0 {
    } else {
      WellCutAgree(h, f, bs, cs, k - 1);
      FlattenAt(bs, k - 1);
      FlattenAt(cs, k - 1);
      var p, d, e := Offset(bs, k - 1), Offset(bs, k), Offset(cs, k);
      assert p == Offset(cs, k - 1);
      assert GoodBlockAt(h, f, bs, k - 1) && GoodBlockAt(h, f, cs, k - 1);
      assert d == e;
      assert bs[..k] == bs[..k - 1] + [bs[k - 1]];
      assert cs[..k] == cs[..k - 1] + [cs[k - 1]];
    }
  }

  lemma WellCutUnique(h: Hash, f: seq<byte>, bs: seq<Chunk>, cs: seq<Chunk>)
    requires WellCut(h, f, bs) && WellCut(h, f, cs) && |bs| <= |cs|
    ensures bs == cs
  {
    var k := |bs|;
    WellCutAgree(h, f, bs, cs, k);
    assert bs[..k] == bs;
    if k < |cs| {
      FlattenAt(cs, k);
    }
  }

  /** A list of blocks is the chunker's output exactly when it is a well-cut partition of the file. */
  lemma ChunksCharacterised(h: Hash, f: seq<byte>, bs: seq<Chunk>)
    ensures WellCut(h, f, bs) <==> bs == Chunks(h, f)
  {
    ChunksAreWellCut(h, f);
    var cs := Chunks(h, f);
    if WellCut(h, f, bs) {
      if |bs| <= |cs| {
        WellCutUnique(h, f, bs, cs);
      } else {
        WellCutUnique(h, f, cs, bs);
      }
    }
  }

  lemma GoodInPrefix(h: Hash, f: seq<byte>, g: seq<byte>, p: nat, e: nat)
    requires g <= f && GoodBlock(h, f, p, e) && e <= |g|
    ensures GoodBlock(h, g, p, e)
  {
    assert forall i :: ZeroAt(h, g, i) ==> ZeroAt(h, f, i);
    assert forall i :: i < |g| && ZeroAt(h, f, i) ==> ZeroAt(h, g, i);
  }

  lemma PrefixBlockGood(h: Hash, f: seq<byte>, bs: seq<Chunk>, k: nat, j: nat)
    requires j < k <= |bs| && GoodBlockAt(h, f, bs, j) && Flatten(bs[..k]) <= f
    ensures GoodBlockAt(h, Flatten(bs[..k]), bs[..k], j)
  {
    hide Flatten, GoodBlock;
    assert bs[..k][..j] == bs[..j] && bs[..k][..j + 1] == bs[..j + 1];
    FlattenAt(bs[..k], j);
    GoodInPrefix(h, f, Flatten(bs[..k]), Offset(bs, j), Offset(bs, j + 1));
  }

  lemma FirstBlocksBytes(bs: seq<Chunk>, k: nat)
    requires k <= |bs|
    ensures Flatten(bs[..k]) <= Flatten(bs)
  {
    assert bs == bs[..k] + bs[k..];
    FlattenConcat(bs[..k], bs[k..]);
  }

  /** The first blocks of a file are the blocks of the file they make up. */
  lemma FirstBlocksStandAlone(h: Hash, f: seq<byte>, k: nat)
    requires k <= |Chunks(h, f)|
    ensures Chunks(h, Flatten(Chunks(h, f)[..k])) == Chunks(h, f)[..k]
    ensures Flatten(Chunks(h, f)[..k]) <= f
  {
    hide Chunks, Flatten, GoodBlockAt;
    var bs := Chunks(h, f);
    ChunksAreWellCut(h, f);
    FirstBlocksBytes(bs, k);
    forall j | 0 <= j < k
      ensures GoodBlockAt(h, Flatten(bs[..k]), bs[..k], j)
    {
      assert GoodBlockAt(h, f, bs, j);
      PrefixBlockGood(h, f, bs, k, j);
    }
    ChunksCharacterised(h, Flatten(bs[..k]), bs[..k]);
  }

  // --- Locality ---

  /** What the scan has cut off stays cut off. */
  lemma {:induction false} ScanGrows(h: Hash, f: seq<byte>, i: nat, j: nat)
    requires i <= j <= |f|
    ensures Scan(h, f, i).blocks <= Scan(h, f, j).blocks
    decreases j
  {
    if i == j {
    } else {
      ScanGrows(h, f, i, j - 1);
      if j > 2 {
        assert Scan(h, f, j - 1).blocks <= Scan(h, f, j).blocks;
      }
    }
  }

  lemma ScanWithinChunks(h: Hash, f: seq<byte>, i: nat)
    requires i <= |f|
    ensures Scan(h, f, i).blocks <= Chunks(h, f)
  {
    ScanGrows(h, f, i, |f|);
    assert Scan(h, f, |f|).blocks <= Chunks(h, f);
  }

  lemma SamePrefixShorter(f: seq<byte>, g: seq<byte>, n: nat, c: nat)
    requires c <= n <= |f| && n <= |g| && f[..n] == g[..n]
    ensures f[..c] == g[..c]
  {
    assert f[..c] == f[..n][..c] && g[..c] == g[..n][..c];
  }

  lemma SamePrefixByte(f: seq<byte>, g: seq<byte>, n: nat, c: nat)
    requires c < n <= |f| && n <= |g| && f[..n] == g[..n]
    ensures f[c] == g[c]
  {
    assert f[..n][c] == g[..n][c];
  }

  lemma SamePrefixSameStep(h: Hash, f: seq<byte>, g: seq<byte>, i: nat)
    requires 2 <= i < |f| && i < |g| && f[..i + 1] == g[..i + 1] && Scan(h, f, i) == Scan(h, g, i)
    ensures Scan(h, f, i + 1) == Scan(h, g, i + 1)
  {
    SamePrefixByte(f, g, i + 1, i - 2);
    SamePrefixByte(f, g, i + 1, i - 1);
    SamePrefixByte(f, g, i + 1, i);
    SamePrefixShorter(f, g, i + 1, i);
    var prev := Scan(h, f, i).prev;
    assert f[prev..i] == f[..i][prev..] && g[prev..i] == g[..i][prev..];
  }

  lemma {:induction false} SamePrefixSameScan(h: Hash, f: seq<byte>, g: seq<byte>, i: nat)
    requires i <= |f| && i <= |g| && f[..i] == g[..i]
    ensures Scan(h, f, i) == Scan(h, g, i)
  {
    if i <= 2 {
    } else {
      hide *;
      SamePrefixShorter(f, g, i, i - 1);
      SamePrefixSameScan(h, f, g, i - 1);
      SamePrefixSameStep(h, f, g, i - 1);
    }
  }

  /** Two files that share their first n bytes are cut at the same positions below n. */
  lemma SameCutsBelow(h: Hash, f: seq<byte>, g: seq<byte>, n: nat, c: nat)
    requires n <= |f| && n <= |g| && f[..n] == g[..n] && 2 <= c < n
    ensures CutAt(h, f, c, Scan(h, f, c).prev) <==> CutAt(h, g, c, Scan(h, g, c).prev)
  {
    SamePrefixShorter(f, g, n, c);
    SamePrefixSameScan(h, f, g, c);
    SamePrefixByte(f, g, n, c - 2);
    SamePrefixByte(f, g, n, c - 1);
    SamePrefixByte(f, g, n, c);
  }

  /** Prefix stability: two files that share their first n bytes start with the same blocks, and those
      blocks hold all but at most the last MAX_BYTES of the shared bytes. */
  lemma PrefixStability(h: Hash, f: seq<byte>, g: seq<byte>, n: nat)
    requires n <= |f| && n <= |g| && f[..n] == g[..n]
    ensures var s := Scan(h, f, n);
      && s == Scan(h, g, n)
      && s.blocks <= Chunks(h, f) && s.blocks <= Chunks(h, g)
      && Flatten(s.blocks) == f[..s.prev] && n - MAX_BYTES <= s.prev
  {
    SamePrefixSameScan(h, f, g, n);
    ScanWithinChunks(h, f, n);
    ScanWithinChunks(h, g, n);
    ScanCovers(h, f, n);
  }

  /** Appending to a file changes at most its last block and what follows. */
  lemma AppendKeepsBlocks(h: Hash, f: seq<byte>, more: seq<byte>)
    requires f != []
    ensures Chunks(h, f)[..|Chunks(h, f)| - 1] <= Chunks(h, f + more)
  {
    assert f[..|f|] == (f + more)[..|f|];
    PrefixStability(h, f, f + more, |f|);
  }

  predicate SameByte(f: seq<byte>, c: nat, g: seq<byte>, d: nat, k: int) {
    0 <= c + k < |f| && 0 <= d + k < |g| && f[c + k] == g[d + k]
  }

  /** The rest of f from c and of g from d are the same, back to the windows that end there. */
  ghost predicate SameFrom(f: seq<byte>, c: nat, g: seq<byte>, d: nat) {
    && 2 <= c <= |f| && 2 <= d <= |g|
    && |f| - c == |g| - d
    && forall k :: -2 <= k < |f| - c ==> SameByte(f, c, g, d, k)
  }

  lemma SameSlice(f: seq<byte>, c: nat, g: seq<byte>, d: nat, p: nat, i: nat, q: nat, k: nat)
    requires SameFrom(f, c, g, d) && c <= p <= i <= |f| && p - c == q - d && i - c == k - d
    ensures f[p..i] == g[q..k]
  {
    forall j | 0 <= j < i - p
      ensures f[p..i][j] == g[q..k][j]
    {
      assert SameByte(f, c, g, d, p - c + j);
    }
  }

  /** The block, if any, that the loop body cuts off at i. */
  function BlocksCutAt(h: Hash, f: seq<byte>, i: nat): seq<Chunk>
    requires 2 <= i < |f|
  {
    var prev := Scan(h, f, i).prev;
    if CutAt(h, f, i, prev) then [f[prev..i]] else []
  }

  /** The blocks the loop cuts off at the positions from i on, below j. */
  function BlocksCutIn(h: Hash, f: seq<byte>, i: nat, j: nat): seq<Chunk>
    requires 2 <= i <= j <= |f|
    decreases j
  {
    if i == j then [] else BlocksCutIn(h, f, i, j - 1) + BlocksCutAt(h, f, j - 1)
  }

  lemma ScanStep(h: Hash, f: seq<byte>, i: nat)
    requires 2 <= i < |f|
    ensures Scan(h, f, i + 1).blocks == Scan(h, f, i).blocks + BlocksCutAt(h, f, i)
    ensures Scan(h, f, i + 1).prev == if CutAt(h, f, i, Scan(h, f, i).prev) then i else Scan(h, f, i).prev
  {
  }

  lemma CutInStep(h: Hash, f: seq<byte>, i: nat, j: nat)
    requires 2 <= i < j <= |f|
    ensures BlocksCutIn(h, f, i, j) == BlocksCutIn(h, f, i, j - 1) + BlocksCutAt(h, f, j - 1)
  {
  }

  lemma CutInNothing(h: Hash, f: seq<byte>, i: nat)
    requires 2 <= i <= |f|
    ensures Scan(h, f, i).blocks + BlocksCutIn(h, f, i, i) == Scan(h, f, i).blocks
  {
  }

  lemma {:induction false} ScanSplits(h: Hash, f: seq<byte>, i: nat, j: nat)
    requires 2 <= i <= j <= |f|
    ensures Scan(h, f, j).blocks == Scan(h, f, i).blocks + BlocksCutIn(h, f, i, j)
    decreases j
  {
    hide *;
    if i == j {
      CutInNothing(h, f, i);
    } else {
      CutInStep(h, f, i, j);
      ScanSplits(h, f, i, j - 1);
      ScanStep(h, f, j - 1);
      Associate(Scan(h, f, i).blocks, BlocksCutIn(h, f, i, j - 1), BlocksCutAt(h, f, j - 1));
    }
  }

  lemma SameStep(h: Hash, f: seq<byte>, g: seq<byte>, c: nat, d: nat, i: nat, k: nat)
    requires SameFrom(f, c, g, d) && c < i < |f| && i - c == k - d
    requires c <= Scan(h, f, i).prev && Scan(h, f, i).prev - c == Scan(h, g, k).prev - d
    ensures CutAt(h, f, i, Scan(h, f, i).prev) <==> CutAt(h, g, k, Scan(h, g, k).prev)
    ensures BlocksCutAt(h, f, i) == BlocksCutAt(h, g, k)
  {
    hide Scan;
    var j := i - c;
    assert SameByte(f, c, g, d, j - 2) && SameByte(f, c, g, d, j - 1) && SameByte(f, c, g, d, j);
    hide SameFrom;
    SameSlice(f, c, g, d, Scan(h, f, i).prev, i, Scan(h, g, k).prev, k);
  }

  lemma SameStepAtZero(h: Hash, f: seq<byte>, g: seq<byte>, c: nat, d: nat)
    requires ZeroAt(h, f, c) && SameFrom(f, c, g, d)
    ensures Scan(h, f, c + 1).prev == c && Scan(h, g, d + 1).prev == d
  {
    assert SameByte(f, c, g, d, -2) && SameByte(f, c, g, d, -1) && SameByte(f, c, g, d, 0);
    ScanStep(h, f, c);
    ScanStep(h, g, d);
  }

  /** At positions i of f and k of g, the two scans have cut off the same blocks since c and d, and
      their open blocks start alike. */
  ghost predicate InStep(h: Hash, f: seq<byte>, g: seq<byte>, c: nat, d: nat, i: nat, k: nat)
    requires 2 <= c < i <= |f| && 2 <= d < k <= |g|
  {
    && BlocksCutIn(h, f, c + 1, i) == BlocksCutIn(h, g, d + 1, k)
    && c <= Scan(h, f, i).prev
    && Scan(h, f, i).prev - c == Scan(h, g, k).prev - d
  }

  lemma InStepExtends(h: Hash, f: seq<byte>, g: seq<byte>, c: nat, d: nat, i: nat, k: nat)
    requires 2 <= c < i < |f| && 2 <= d < k < |g| && i - c == k - d
    requires InStep(h, f, g, c, d, i, k)
    requires CutAt(h, f, i, Scan(h, f, i).prev) <==> CutAt(h, g, k, Scan(h, g, k).prev)
    requires BlocksCutAt(h, f, i) == BlocksCutAt(h, g, k)
    ensures InStep(h, f, g, c, d, i + 1, k + 1)
  {
    ScanStep(h, f, i);
    ScanStep(h, g, k);
  }

  /** From a zero window on, the scans of two files that end alike move in step. */
  lemma {:induction false} ScansInStep(h: Hash, f: seq<byte>, g: seq<byte>, c: nat, d: nat, i: nat, k: nat)
    requires ZeroAt(h, f, c) && SameFrom(f, c, g, d)
    requires c < i <= |f| && i - c == k - d
    ensures InStep(h, f, g, c, d, i, k)
    decreases i
  {
    if i == c + 1 {
      SameStepAtZero(h, f, g, c, d);
    } else {
      ScansInStep(h, f, g, c, d, i - 1, k - 1);
      SameStep(h, f, g, c, d, i - 1, k - 1);
      InStepExtends(h, f, g, c, d, i - 1, k - 1);
    }
  }

  /** The blocks that end after position i. */
  function TailAfter(h: Hash, f: seq<byte>, i: nat): seq<Chunk>
    requires 2 <= i <= |f|
  {
    BlocksCutIn(h, f, i, |f|) + LastBlock(h, f)
  }

  lemma ChunksSplit(h: Hash, f: seq<byte>, i: nat)
    requires 2 <= i <= |f|
    ensures Chunks(h, f) == Scan(h, f, i).blocks + TailAfter(h, f, i)
  {
    ScanSplits(h, f, i, |f|);
    Associate(Scan(h, f, i).blocks, BlocksCutIn(h, f, i, |f|), LastBlock(h, f));
  }

  lemma LiesInside(h: Hash, f: seq<byte>, g: seq<byte>, c: nat, d: nat)
    requires ZeroAt(h, f, c) && SameFrom(f, c, g, d)
    ensures 2 <= c < |f| && 2 <= d < |g| && |f| - c == |g| - d
  {
  }

  lemma SameRest(h: Hash, f: seq<byte>, g: seq<byte>, c: nat, d: nat)
    requires 2 <= c < |f| && 2 <= d < |g| && |f| - c == |g| - d
    requires SameFrom(f, c, g, d) && InStep(h, f, g, c, d, |f|, |g|)
    ensures f[Scan(h, f, |f|).prev..|f|] == g[Scan(h, g, |g|).prev..|g|]
  {
    hide Scan, SameFrom, BlocksCutIn;
    SameSlice(f, c, g, d, Scan(h, f, |f|).prev, |f|, Scan(h, g, |g|).prev, |g|);
  }

  lemma SameTail(h: Hash, f: seq<byte>, g: seq<byte>, c: nat, d: nat)
    requires 2 <= c < |f| && 2 <= d < |g| && |f| - c == |g| - d
    requires InStep(h, f, g, c, d, |f|, |g|)
    requires f[Scan(h, f, |f|).prev..|f|] == g[Scan(h, g, |g|).prev..|g|]
    ensures TailAfter(h, f, c + 1) == TailAfter(h, g, d + 1)
  {
  }

  /** Where two files that end alike both have a zero window, their block lists have a common tail. */
  lemma CommonTail(h: Hash, f: seq<byte>, g: seq<byte>, c: nat, d: nat) returns (tail: seq<Chunk>)
    requires ZeroAt(h, f, c) && SameFrom(f, c, g, d)
    ensures Chunks(h, f) == Scan(h, f, c + 1).blocks + tail
    ensures Chunks(h, g) == Scan(h, g, d + 1).blocks + tail
  {
    hide *;
    LiesInside(h, f, g, c, d);
    ScansInStep(h, f, g, c, d, |f|, |g|);
    SameRest(h, f, g, c, d);
    SameTail(h, f, g, c, d);
    tail := TailAfter(h, f, c + 1);
    ChunksSplit(h, f, c + 1);
    ChunksSplit(h, g, d + 1);
  }

  lemma CutAtZero(h: Hash, f: seq<byte>, c: nat)
    requires ZeroAt(h, f, c)
    ensures Scan(h, f, c + 1).prev == c
    ensures Flatten(Scan(h, f, c + 1).blocks) == f[..c]
  {
    hide Scan, Flatten, GoodBlockAt;
    ScanStep(h, f, c);
    ScanCovers(h, f, c + 1);
  }

  /** A zero window inside a suffix, seen from the whole file. */
  lemma SuffixParts(h: Hash, x: seq<byte>, s: seq<byte>, t: nat)
    requires ZeroAt(h, s, t)
    ensures var f, c := x + s, |x| + t;
      ZeroAt(h, f, c) && c < |f| && f[..c] == x + s[..t] && f[c..] == s[t..]
  {
    var f, c := x + s, |x| + t;
    assert f[c - 2] == s[t - 2] && f[c - 1] == s[t - 1] && f[c] == s[t];
  }

  lemma SuffixesSame(x: seq<byte>, y: seq<byte>, s: seq<byte>, t: nat)
    requires 2 <= t < |s|
    ensures SameFrom(x + s, |x| + t, y + s, |y| + t)
  {
    var f, g, c, d := x + s, y + s, |x| + t, |y| + t;
    forall k | -2 <= k < |f| - c
      ensures SameByte(f, c, g, d, k)
    {
      assert f[c + k] == s[t + k] == g[d + k];
    }
  }

  lemma TailBytes(h: Hash, f: seq<byte>, a: seq<Chunk>, tail: seq<Chunk>, c: nat)
    requires Chunks(h, f) == a + tail && c <= |f| && Flatten(a) == f[..c]
    ensures Flatten(tail) == f[c..]
  {
    ChunksAreWellCut(h, f);
    FlattenConcat(a, tail);
  }

  /** Resynchronisation: when two files end in the same suffix s and a window inside s has fingerprint
      zero, both are cut there whatever came before, and are cut identically from there on. */
  lemma Resynchronise(h: Hash, x: seq<byte>, y: seq<byte>, s: seq<byte>, t: nat)
      returns (a: seq<Chunk>, b: seq<Chunk>, tail: seq<Chunk>)
    requires ZeroAt(h, s, t)
    ensures Chunks(h, x + s) == a + tail
    ensures Chunks(h, y + s) == b + tail
    ensures Flatten(a) == x + s[..t] && Flatten(b) == y + s[..t] && Flatten(tail) == s[t..]
    ensures a == Scan(h, x + s, |x| + t + 1).blocks && b == Scan(h, y + s, |y| + t + 1).blocks
  {
    SuffixParts(h, x, s, t);
    SuffixParts(h, y, s, t);
    SuffixesSame(x, y, s, t);
    hide *;
    var f, g, c, d := x + s, y + s, |x| + t, |y| + t;
    a, b := Scan(h, f, c + 1).blocks, Scan(h, g, d + 1).blocks;
    tail := CommonTail(h, f, g, c, d);
    CutAtZero(h, f, c);
    CutAtZero(h, g, d);
    TailBytes(h, f, a, tail, c);
  }

  // --- How many blocks ---

  lemma {:induction false} OffsetBounds(bs: seq<Chunk>, k: nat)
    requires k <= |bs|
    requires forall b :: b in bs ==> |b| <= MAX_BYTES
    ensures k <= Offset(bs, k) <= MAX_BYTES * k
    ensures k > 0 ==> k + |bs[0]| - 1 <= Offset(bs, k)
  {
    if k == 0 {
    } else {
      OffsetBounds(bs, k - 1);
      FlattenAt(bs, k - 1);
      assert bs[k - 1] in bs;
      if k == 1 {
        assert bs[..0] == [];
      }
    }
  }

  lemma OffsetZero(bs: seq<Chunk>)
    ensures Offset(bs, 0) == 0
  {
    assert bs[..0] == [];
  }

  lemma ChunkLength(h: Hash, f: seq<byte>, k: nat)
    requires k < |Chunks(h, f)|
    ensures |Chunks(h, f)[k]| <= MAX_BYTES && (k == 0 && |f| >= 2 ==> |Chunks(h, f)[0]| >= 2)
  {
    var bs := Chunks(h, f);
    ChunksAreWellCut(h, f);
    assert GoodBlockAt(h, f, bs, k);
    hide Chunks, Flatten;
    FlattenAt(bs, k);
    if k == 0 {
      OffsetZero(bs);
    }
  }

  lemma NoChunks(h: Hash, f: seq<byte>)
    ensures f == [] <==> Chunks(h, f) == []
  {
    ChunksAreWellCut(h, f);
    var bs := Chunks(h, f);
    if bs != [] {
      FlattenAt(bs, 0);
    }
  }

  lemma ChunkLengths(h: Hash, f: seq<byte>)
    ensures forall b :: b in Chunks(h, f) ==> |b| <= MAX_BYTES
    ensures |f| >= 2 ==> |Chunks(h, f)[0]| >= 2
    ensures f == [] <==> Chunks(h, f) == []
  {
    hide *;
    NoChunks(h, f);
    forall k | 0 <= k < |Chunks(h, f)|
      ensures |Chunks(h, f)[k]| <= MAX_BYTES && (k == 0 && |f| >= 2 ==> |Chunks(h, f)[0]| >= 2)
    {
      ChunkLength(h, f, k);
    }
  }

  /** A file of s bytes has between ceil(s / 64) and s blocks, and fewer than s when s is at least 2. */
  lemma ChunkCount(h: Hash, f: seq<byte>)
    ensures (|f| + MAX_BYTES - 1) / MAX_BYTES <= |Chunks(h, f)|
    ensures |Chunks(h, f)| <= if |f| < 2 then |f| else |f| - 1
  {
    ChunkLengths(h, f);
    ChunksAreWellCut(h, f);
    var bs := Chunks(h, f);
    assert bs[..|bs|] == bs;
    OffsetBounds(bs, |bs|);
  }

  // --- The chunker in numbers ---

  /** A file of one or two bytes is one block; the scan begins with the third. */
  lemma NoScan(h: Hash, f: seq<byte>)
    requires |f| <= 2
    ensures Chunks(h, f) == if f == [] then [] else [f]
  {
    assert f[0..|f|] == f;
  }

  lemma LastOfChunks(h: Hash, f: seq<byte>)
    requires |f| >= 2
    ensures var s := Scan(h, f, |f|);
      Chunks(h, f) == s.blocks + [f[s.prev..|f|]]
  {
    hide Scan;
  }

  lemma ScanNext(h: Hash, f: seq<byte>, n: nat)
    requires 2 <= n < |f|
    ensures var s := Scan(h, f, n);
      && s.prev < n && n - s.prev <= 64
      && Scan(h, f, n + 1) ==
        if h([f[n - 2], f[n - 1], f[n]]) % 32 == 0 || n - s.prev == 64 then ScanState(s.blocks + [f[s.prev..n]], n)
        else s
  {
  }

  lemma SplitSlice(f: seq<byte>, p: nat, n: nat)
    requires p <= n < |f|
    ensures f[p..n + 1] == f[p..n] + [f[n]] && f[n..n + 1] == [f[n]]
  {
  }

  lemma DropLast<T>(bs: seq<T>, b: T)
    ensures (bs + [b])[..|bs|] == bs && (bs + [b])[|bs|] == b
  {
  }

  /** The blocks byte by byte: the next byte starts a block of its own exactly when it completes a window
      of three bytes whose hash is a multiple of 32, or the last block has 64 bytes already; otherwise it
      joins that block. */
  lemma OneByteMore(h: Hash, f: seq<byte>)
    requires |f| >= 3
    ensures var n, bs := |f| - 1, Chunks(h, f[..|f| - 1]);
      bs != [] &&
      var k, last := |bs| - 1, bs[|bs| - 1];
      Chunks(h, f) == if h([f[n - 2], f[n - 1], f[n]]) % 32 == 0 || |last| == 64 then bs + [[f[n]]]
                      else bs[..k] + [last + [f[n]]]
  {
    hide *;
    var n, g := |f| - 1, f[..|f| - 1];
    assert f[..n] == g[..n];
    SamePrefixSameScan(h, f, g, n);
    ScanNext(h, f, n);
    LastOfChunks(h, g);
    LastOfChunks(h, f);
    var s := Scan(h, f, n);
    SplitSlice(f, s.prev, n);
    assert g[s.prev..n] == f[s.prev..n];
    DropLast<seq<byte>>(s.blocks, f[s.prev..n]);
  }

  /** When the last of the three bytes w is a block of its own. */
  lemma LastByteAlone(h: Hash, p: seq<byte>, w: seq<byte>)
    requires |w| == 3
    ensures var bs, before := Chunks(h, p + w), Chunks(h, p + w[..2]);
      && bs != [] && before != []
      && (|bs[|bs| - 1]| == 1 <==> h(w) % 32 == 0 || |before[|before| - 1]| == 64)
  {
    var f := p + w;
    OneByteMore(h, f);
    assert f[..|f| - 1] == p + w[..2];
    assert [f[|f| - 3], f[|f| - 2], f[|f| - 1]] == w;
    hide Chunks;
  }
}
