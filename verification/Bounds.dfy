/** How large the two caches can grow. */
module Bounds {
  import opened Common
  import opened Fingerprint
  import opened Chunker
  import opened Protocol
  import opened Session

  /** Every hash value is below the bound; djb2's are, for its table size. */
  ghost predicate HashBelow(h: Hash, bound: nat) {
    forall b: seq<byte> :: h(b) < bound
  }

  lemma Djb2Below(m: MaxSize)
    ensures HashBelow(HashOf(m), m)
  {
  }

  ghost predicate BlocksAtMost(items: seq<Item>, size: nat) {
    forall i :: 0 <= i < |items| && items[i].Block? ==> |items[i].data| <= size
  }

  /** Every entry has a number below the bound and a block of at most the given size. */
  ghost predicate Within(c: ClientCache, bound: nat, size: nat) {
    forall n :: n in c ==> n < bound && |c[n]| <= size
  }

  /** The bytes cached under the numbers below n. */
  function StoredBytes(c: ClientCache, n: nat): nat {
    if n == 0 then 0 else StoredBytes(c, n - 1) + if n - 1 in c then |c[n - 1]| else 0
  }

  /** StoredBytes counts them: nothing in an empty cache, and a new block under a number below n adds its
      length, whatever else is cached. */
  lemma {:induction false} StoredOneMore(c: ClientCache, n: nat, k: uint32, b: Chunk)
    requires k !in c
    ensures StoredBytes(map[], n) == 0
    ensures StoredBytes(c[k := b], n) == StoredBytes(c, n) + if k < n then |b| else 0
  {
    if n == 0 {
    } else {
      StoredOneMore(c, n - 1, k, b);
    }
  }

  lemma {:induction false} StoredAtMost(c: ClientCache, bound: nat, size: nat, n: nat)
    requires Within(c, bound, size)
    ensures StoredBytes(c, n) <= n * size
  {
    if n == 0 {
    } else {
      StoredAtMost(c, bound, size, n - 1);
      assert n * size == (n - 1) * size + size;
    }
  }

  lemma {:induction false} EntriesAtMost(c: ClientCache, bound: nat, size: nat)
    requires Within(c, bound, size)
    ensures |c| <= bound
    decreases bound
  {
    if c == map[] {
    } else {
      var n :| n in c;
      assert n < bound;
      var d := c - {bound - 1};
      EntriesAtMost(d, bound - 1, size);
      assert d.Keys == c.Keys - {bound - 1};
    }
  }

  lemma FileBlocksAtMost(h: Hash, f: seq<byte>)
    ensures BlocksAtMost(FileItems(h, f), MAX_BYTES)
  {
    ChunkLengths(h, f);
  }

  lemma {:induction false} SessionBlocksAtMost(h: Hash, fs: seq<seq<byte>>)
    ensures BlocksAtMost(SessionItems(h, fs), MAX_BYTES)
  {
    if fs == [] {
    } else {
      SessionBlocksAtMost(h, fs[..|fs| - 1]);
      FileBlocksAtMost(h, fs[|fs| - 1]);
    }
  }

  /** The server's cache without its flags. */
  function Contents(m: ServerCache): ClientCache {
    map n | n in m :: m[n].data
  }

  lemma {:induction false} SendWithin(h: Hash, items: seq<Item>, bound: nat, size: nat)
    requires HashBelow(h, bound) && BlocksAtMost(items, size)
    ensures Within(Contents(Send(h, map[], items).cache), bound, size)
  {
    if items == [] {
    } else {
      var k := |items| - 1;
      SendWithin(h, items[..k], bound, size);
      var c, c' := Contents(Send(h, map[], items[..k]).cache), Contents(Send(h, map[], items).cache);
      forall n | n in c'
        ensures n < bound && |c'[n]| <= size
      {
        if items[k].Block? && n == h(items[k].data) {
          assert c'[n] == items[k].data;
        } else {
          assert n in c && c'[n] == c[n];
        }
      }
    }
  }

  /** At every item boundary of every session, the client's cache equals the server's, no number reaches
      the hash's bound, no block is longer than MAX_BYTES, and so the number of entries and the bytes held
      are bounded, whatever is sent. */
  lemma CachesBounded(h: Hash, bound: nat, fs: seq<seq<byte>>, k: nat)
    requires HashBelow(h, bound) && k <= |SessionItems(h, fs)|
    ensures var s := Send(h, map[], SessionItems(h, fs)[..k]);
      var c := Replay(map[], s.msgs).cache;
      && c == Contents(s.cache)
      && (forall n :: n in c ==> n < bound && 1 <= |c[n]| <= MAX_BYTES)
      && |c| <= bound
      && StoredBytes(c, bound) <= bound * MAX_BYTES
  {
    var items := SessionItems(h, fs)[..k];
    var s := Send(h, map[], items);
    SessionBlocksAtMost(h, fs);
    SendWithin(h, items, bound, MAX_BYTES);
    SendReplayExact(h, map[], map[], items);
    var c := Replay(map[], s.msgs).cache;
    SyncedCachesEqual(s.cache, c);
    assert c == Contents(s.cache);
    hide Send, Replay, Contents, SessionItems;
    EntriesAtMost(c, bound, MAX_BYTES);
    StoredAtMost(c, bound, MAX_BYTES, bound);
  }
}
