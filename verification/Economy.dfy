/** What the caching buys: which blocks of a file go out as references, and how many literal bytes an
    edited file costs. Block numbers may collide, so the results name the collisions they exclude. */
module Economy {
  import opened Common
  import opened Chunker
  import opened Wire
  import opened Protocol
  import opened Session

  /** Distinct blocks of the list have distinct numbers. */
  ghost predicate NoCollision(h: Hash, bs: seq<Chunk>) {
    forall x, y :: x in bs && y in bs && h(x) == h(y) ==> x == y
  }

  predicate Cached(h: Hash, m: ServerCache, b: Chunk) {
    h(b) in m && m[h(b)].data == b
  }

  ghost predicate AllCached(h: Hash, m: ServerCache, bs: seq<Chunk>) {
    forall b :: b in bs ==> Cached(h, m, b)
  }

  lemma BlocksAppend(bs: seq<Chunk>)
    requires bs != []
    ensures var k := |bs| - 1;
      Blocks(bs)[..k] == Blocks(bs[..k]) && Blocks(bs)[k] == Block(bs[k])
  {
  }

  lemma SendBlockStep(h: Hash, m: ServerCache, bs: seq<Chunk>)
    requires bs != []
    ensures var k := |bs| - 1;
      var s, t := Send(h, m, Blocks(bs[..k])), Send(h, m, Blocks(bs));
      && t == SendItem(h, s, Block(bs[k]))
      && Literal(t.msgs) == Literal(s.msgs) + if Cached(h, s.cache, bs[k]) then 0 else |bs[k]|
  {
    BlocksAppend(bs);
    var k := |bs| - 1;
    var s, t := Send(h, m, Blocks(bs[..k])), Send(h, m, Blocks(bs));
    assert t.msgs[..k] == s.msgs;
  }

  /** A cached block stays cached while nothing else with its number is sent. */
  lemma {:induction false} StaysCached(h: Hash, m: ServerCache, bs: seq<Chunk>, b: Chunk)
    requires Cached(h, m, b)
    requires forall x :: x in bs && h(x) == h(b) ==> x == b
    ensures Cached(h, Send(h, m, Blocks(bs)).cache, b)
  {
    if bs == [] {
    } else {
      StaysCached(h, m, bs[..|bs| - 1], b);
      SendBlockStep(h, m, bs);
      assert bs[|bs| - 1] in bs;
    }
  }

  lemma CachedStep(h: Hash, s: Sent, bs: seq<Chunk>)
    requires bs != [] && NoCollision(h, bs) && AllCached(h, s.cache, bs[..|bs| - 1])
    ensures AllCached(h, SendItem(h, s, Block(bs[|bs| - 1])).cache, bs)
  {
    var last := bs[|bs| - 1];
    assert last in bs;
    forall b | b in bs
      ensures Cached(h, SendItem(h, s, Block(last)).cache, b)
    {
      if b != last {
        assert b in bs[..|bs| - 1];
      }
    }
  }

  /** Without collisions, everything sent is cached afterwards. */
  lemma {:induction false} SentIsCached(h: Hash, m: ServerCache, bs: seq<Chunk>)
    requires NoCollision(h, bs)
    ensures AllCached(h, Send(h, m, Blocks(bs)).cache, bs)
  {
    if bs == [] {
    } else {
      hide Send, Blocks;
      var k := |bs| - 1;
      assert forall b :: b in bs[..k] ==> b in bs;
      SentIsCached(h, m, bs[..k]);
      SendBlockStep(h, m, bs);
      CachedStep(h, Send(h, m, Blocks(bs[..k])), bs);
    }
  }

  /** Any block cached beforehand goes out as a reference, if no different block sent before it in this
      file has its number. */
  lemma CachedGoesAsRef(h: Hash, m: ServerCache, bs: seq<Chunk>, k: nat)
    requires k < |bs| && Cached(h, m, bs[k])
    requires forall x :: x in bs[..k] && h(x) == h(bs[k]) ==> x == bs[k]
    ensures Send(h, m, FileBlocks(bs)).msgs[k] == Ref(h(bs[k]), |bs[k]|)
  {
    var items := FileBlocks(bs);
    StaysCached(h, m, bs[..k], bs[k]);
    SendPrefix(h, m, items, k + 1);
    SendAppend(h, m, Blocks(bs[..k]), Block(bs[k]));
    assert items[..k + 1] == Blocks(bs[..k]) + [Block(bs[k])];
    assert Send(h, m, items).msgs[k] == Send(h, m, items).msgs[..k + 1][k];
  }

  lemma LiteralOfFile(h: Hash, m: ServerCache, bs: seq<Chunk>)
    ensures Literal(Send(h, m, FileBlocks(bs)).msgs) == Literal(Send(h, m, Blocks(bs)).msgs)
    ensures Send(h, m, FileBlocks(bs)).cache == Send(h, m, Blocks(bs)).cache
  {
    SendAppend(h, m, Blocks(bs), End);
    var s := Send(h, m, Blocks(bs));
    assert (s.msgs + [Eof])[..|bs|] == s.msgs;
  }

  /** The two caches hold the same bytes under the same numbers. */
  ghost predicate SameData(m: ServerCache, m': ServerCache) {
    m.Keys == m'.Keys && forall n :: n in m ==> m[n].data == m'[n].data
  }

  lemma AllCachedStep(h: Hash, m: ServerCache, bs: seq<Chunk>)
    requires bs != []
    ensures AllCached(h, m, bs) <==> AllCached(h, m, bs[..|bs| - 1]) && Cached(h, m, bs[|bs| - 1])
  {
    hide Cached;
    SplitLast(bs);
    assert bs[|bs| - 1] in bs;
    assert forall x :: x in bs <==> x in bs[..|bs| - 1] || x == bs[|bs| - 1];
  }

  /** Which blocks are cached depends only on the data, and a cached block leaves the data alone. */
  lemma FreeStep(h: Hash, m: ServerCache, s: Sent, b: Chunk)
    requires SameData(m, s.cache)
    ensures Cached(h, m, b) <==> Cached(h, s.cache, b)
    ensures Cached(h, m, b) ==> SameData(m, SendItem(h, s, Block(b)).cache)
  {
  }

  /** A list of blocks costs no literal bytes exactly when every one of them is already cached. */
  lemma {:induction false} FreeIffCached(h: Hash, m: ServerCache, bs: seq<Chunk>)
    ensures Literal(Send(h, m, Blocks(bs)).msgs) == 0 <==> AllCached(h, m, bs)
    ensures AllCached(h, m, bs) ==> SameData(m, Send(h, m, Blocks(bs)).cache)
  {
    if bs == [] {
    } else {
      hide *;
      var k := |bs| - 1;
      FreeIffCached(h, m, bs[..k]);
      SendBlockStep(h, m, bs);
      AllCachedStep(h, m, bs);
      if AllCached(h, m, bs[..k]) {
        FreeStep(h, m, Send(h, m, Blocks(bs[..k])), bs[k]);
      }
    }
  }

  /** Sending a file again at once is free of literal bytes exactly when no two distinct blocks of it
      share a number, whatever was cached before. */
  lemma ResendFreeIff(h: Hash, m: ServerCache, f: seq<byte>)
    ensures var again := Send(h, Send(h, m, FileItems(h, f)).cache, FileItems(h, f));
      Literal(again.msgs) == 0 <==> NoCollision(h, Chunks(h, f))
  {
    var bs := Chunks(h, f);
    var m' := Send(h, m, Blocks(bs)).cache;
    LiteralOfFile(h, m, bs);
    LiteralOfFile(h, m', bs);
    FreeIffCached(h, m', bs);
    if NoCollision(h, bs) {
      SentIsCached(h, m, bs);
    }
  }

  lemma {:induction false} LiteralAtMost(h: Hash, m: ServerCache, bs: seq<Chunk>)
    ensures Literal(Send(h, m, Blocks(bs)).msgs) <= |Flatten(bs)|
  {
    if bs == [] {
    } else {
      LiteralAtMost(h, m, bs[..|bs| - 1]);
      SendBlockStep(h, m, bs);
    }
  }

  lemma SendTwo(h: Hash, m: ServerCache, a: seq<Chunk>, b: seq<Chunk>)
    ensures var s := Send(h, m, Blocks(a));
      var t := Send(h, s.cache, Blocks(b));
      && Send(h, m, Blocks(a + b)).cache == t.cache
      && Literal(Send(h, m, Blocks(a + b)).msgs) == Literal(s.msgs) + Literal(t.msgs)
  {
    assert Blocks(a + b) == Blocks(a) + Blocks(b);
    SendConcat(h, m, Blocks(a), Blocks(b));
    var s := Send(h, m, Blocks(a));
    LiteralConcat(s.msgs, Send(h, s.cache, Blocks(b)).msgs);
  }

  /** Only the blocks in the middle can cost literal bytes when those around them are cached. */
  lemma MiddleCost(h: Hash, m: ServerCache, pre: seq<Chunk>, mid: seq<Chunk>, tail: seq<Chunk>)
    requires NoCollision(h, pre + mid + tail)
    requires AllCached(h, m, pre) && AllCached(h, m, tail)
    ensures Literal(Send(h, m, Blocks(pre + mid + tail)).msgs) <= |Flatten(mid)|
  {
    var m1 := Send(h, m, Blocks(pre)).cache;
    var m2 := Send(h, m, Blocks(pre + mid)).cache;
    SendTwo(h, m, pre + mid, tail);
    SendTwo(h, m, pre, mid);
    FreeIffCached(h, m, pre);
    LiteralAtMost(h, m1, mid);
    assert forall x :: x in pre + mid ==> x in pre + mid + tail;
    assert forall x :: x in tail ==> x in pre + mid + tail;
    forall b | b in tail
      ensures Cached(h, m2, b)
    {
      StaysCached(h, m, pre + mid, b);
    }
    FreeIffCached(h, m2, tail);
  }

  lemma BytesAfter(pre: seq<Chunk>, b: seq<Chunk>, mid: seq<Chunk>)
    requires pre <= b && mid == b[|pre|..]
    ensures b == pre + mid && |Flatten(mid)| == |Flatten(b)| - |Flatten(pre)|
  {
    assert b == pre + mid;
    FlattenConcat(pre, mid);
  }

  /** Two files with a common beginning p: its blocks, and what the second file has from there to i. */
  lemma EditMiddle(h: Hash, p: seq<byte>, f: seq<byte>, g: seq<byte>, i: nat) returns (mid: seq<Chunk>)
    requires p <= f && p <= g && |p| <= i <= |g|
    ensures var pre, b := Scan(h, g, |p|).blocks, Scan(h, g, i).blocks;
      && b == pre + mid
      && pre <= Chunks(h, f) && Flatten(pre) <= p
      && |Flatten(mid)| <= |Flatten(b)| - |p| + Min(|p|, MAX_BYTES)
  {
    PrefixStability(h, g, f, |p|);
    ScanGrows(h, g, |p|, i);
    var pre, b := Scan(h, g, |p|).blocks, Scan(h, g, i).blocks;
    mid := b[|pre|..];
    BytesAfter(pre, b, mid);
    assert Flatten(pre) == g[..Scan(h, g, |p|).prev] <= g[..|p|] == p;
  }

  lemma EditPosition(h: Hash, p: seq<byte>, y: seq<byte>, s: seq<byte>, t: nat)
    requires ZeroAt(h, s, t)
    ensures t < |s| && |p| <= |p + y| + t + 1 <= |p + y + s| && |p + y + s[..t]| == |p| + |y| + t
  {
  }

  lemma EditSplit(h: Hash, p: seq<byte>, x: seq<byte>, y: seq<byte>, i: nat, b: seq<Chunk>, tail: seq<Chunk>)
      returns (pre: seq<Chunk>, mid: seq<Chunk>)
    requires |p| <= i <= |p + y|
    requires b == Scan(h, p + y, i).blocks && Chunks(h, p + y) == b + tail
    ensures Chunks(h, p + y) == pre + mid + tail
    ensures pre == Scan(h, p + y, |p|).blocks && pre <= Chunks(h, p + x) && Flatten(pre) <= p
    ensures |Flatten(mid)| <= |Flatten(b)| - |p| + Min(|p|, MAX_BYTES)
  {
    hide *;
    mid := EditMiddle(h, p, p + x, p + y, i);
    pre := Scan(h, p + y, |p|).blocks;
  }

  lemma EditTail(h: Hash, p: seq<byte>, x: seq<byte>, y: seq<byte>, s: seq<byte>, t: nat)
      returns (a: seq<Chunk>, b: seq<Chunk>, tail: seq<Chunk>, i: nat)
    requires ZeroAt(h, s, t)
    ensures |p| <= i <= |p + y + s| && b == Scan(h, p + y + s, i).blocks
    ensures Chunks(h, p + x + s) == a + tail && Chunks(h, p + y + s) == b + tail
    ensures Flatten(tail) == s[t..] && |Flatten(b)| == |p| + |y| + t
  {
    hide *;
    EditPosition(h, p, y, s, t);
    a, b, tail := Resynchronise(h, p + x, p + y, s, t);
    i := |p + y| + t + 1;
  }

  /** How an edited file is cut: the blocks of the shared beginning, those the edit touches, and the
      blocks from the first zero window of the shared end on. */
  lemma EditBlocks(h: Hash, p: seq<byte>, x: seq<byte>, y: seq<byte>, s: seq<byte>, t: nat)
      returns (pre: seq<Chunk>, mid: seq<Chunk>, tail: seq<Chunk>, a: seq<Chunk>)
    requires ZeroAt(h, s, t)
    ensures Chunks(h, p + y + s) == pre + mid + tail
    ensures pre == Scan(h, p + y + s, |p|).blocks && Flatten(pre) <= p
    ensures pre <= Chunks(h, p + x + s) == a + tail
    ensures Flatten(tail) == s[t..]
    ensures |Flatten(mid)| <= Min(|p|, MAX_BYTES) + |y| + t
  {
    hide *;
    var b, i;
    a, b, tail, i := EditTail(h, p, x, y, s, t);
    Associate(p, x, s);
    Associate(p, y, s);
    pre, mid := EditSplit(h, p, x + s, y + s, i, b, tail);
  }

  lemma NoEarlierCollision(h: Hash, bs: seq<Chunk>, k: nat)
    requires k < |bs| && NoCollision(h, bs)
    ensures forall x :: x in bs[..k] && h(x) == h(bs[k]) ==> x == bs[k]
  {
    assert bs[k] in bs;
    assert forall x :: x in bs[..k] ==> x in bs;
  }

  lemma EditCost(h: Hash, m: ServerCache, pre: seq<Chunk>, mid: seq<Chunk>, tail: seq<Chunk>)
    requires NoCollision(h, pre + mid + tail)
    requires AllCached(h, m, pre) && AllCached(h, m, tail)
    ensures var msgs := Send(h, m, FileBlocks(pre + mid + tail)).msgs;
      && Literal(msgs) <= |Flatten(mid)|
      && (forall k :: 0 <= k < |pre| ==> msgs[k].Ref?)
      && (forall k :: |pre + mid| <= k < |pre + mid + tail| ==> msgs[k].Ref?)
  {
    var bs := pre + mid + tail;
    MiddleCost(h, m, pre, mid, tail);
    LiteralOfFile(h, m, bs);
    hide Send, Literal, FileBlocks;
    forall k | 0 <= k < |pre|
      ensures Send(h, m, FileBlocks(bs)).msgs[k].Ref?
    {
      assert bs[k] == pre[k];
      NoEarlierCollision(h, bs, k);
      CachedGoesAsRef(h, m, bs, k);
    }
    forall k | |pre + mid| <= k < |bs|
      ensures Send(h, m, FileBlocks(bs)).msgs[k].Ref?
    {
      assert bs[k] == tail[k - |pre + mid|];
      NoEarlierCollision(h, bs, k);
      CachedGoesAsRef(h, m, bs, k);
    }
  }

  /** Edit economy: after sending p + x + s, sending p + y + s costs literal bytes only in the blocks
      that the edit touches. Those hold at most the edit itself, the shared end up to a zero window, and
      one block's worth of the shared beginning; the blocks the scan cuts off within the shared beginning
      and those from the zero window on are references. */
  lemma EditEconomy(h: Hash, m: ServerCache, p: seq<byte>, x: seq<byte>, y: seq<byte>, s: seq<byte>, t: nat)
      returns (pre: seq<Chunk>, mid: seq<Chunk>, tail: seq<Chunk>)
    requires ZeroAt(h, s, t)
    requires NoCollision(h, Chunks(h, p + x + s) + Chunks(h, p + y + s))
    ensures Chunks(h, p + y + s) == pre + mid + tail
    ensures pre == Scan(h, p + y + s, |p|).blocks && pre <= Chunks(h, p + x + s) && Flatten(pre) <= p
    ensures Flatten(tail) == s[t..]
    ensures |Flatten(mid)| <= Min(|p|, MAX_BYTES) + |y| + t
    ensures var msgs := Send(h, Send(h, m, FileItems(h, p + x + s)).cache, FileItems(h, p + y + s)).msgs;
      && Literal(msgs) <= |Flatten(mid)|
      && (forall k :: 0 <= k < |pre| ==> msgs[k].Ref?)
      && (forall k :: |pre + mid| <= k < |pre + mid + tail| ==> msgs[k].Ref?)
  {
    hide Scan, Send, Literal, Flatten, Chunks, ZeroAt, FileBlocks;
    var a;
    pre, mid, tail, a := EditBlocks(h, p, x, y, s, t);
    var sent, bs := Chunks(h, p + x + s), Chunks(h, p + y + s);
    var m' := Send(h, m, FileItems(h, p + x + s)).cache;
    assert forall b :: b in sent || b in bs ==> b in sent + bs;
    LiteralOfFile(h, m, sent);
    SentIsCached(h, m, sent);
    assert forall b :: b in pre ==> b in sent;
    assert NoCollision(h, bs);
    EditCost(h, m', pre, mid, tail);
  }
}
