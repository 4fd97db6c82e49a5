/** The caching protocol on values: what the server's cache does to a block, what goes on the wire, and
    what the client makes of it. The block hash is arbitrary throughout. */
module Protocol {
  import opened Common
  import opened Wire

  /** One thing the server transmits: a block of the current file, or the end of the file. */
  datatype Item = Block(data: Chunk) | End

  /** A server cache entry; isOld is the server's only record of what the client holds. */
  datatype Entry = Entry(data: Chunk, isOld: bool)

  type ServerCache = map<uint32, Entry>
  type ClientCache = map<uint32, Chunk>

  // --- The server ---

  /** The three branches of `insert_block`: number absent, same bytes, or other bytes under the number. */
  function Inserted(h: Hash, m: ServerCache, b: Chunk): ServerCache {
    var n := h(b);
    if n in m && m[n].data == b then m[n := Entry(b, true)] else m[n := Entry(b, false)]
  }

  function MsgFor(m: ServerCache, n: uint32): Msg
    requires n in m
  {
    if m[n].isOld then Ref(n, |m[n].data|) else Data(n, m[n].data)
  }

  function Written(m: ServerCache, n: uint32): ServerCache
    requires n in m
  {
    m[n := m[n].(isOld := true)]
  }

  datatype Sent = Sent(cache: ServerCache, msgs: seq<Msg>)

  function SendItem(h: Hash, s: Sent, item: Item): Sent {
    match item
    case Block(b) =>
      var m := Inserted(h, s.cache, b);
      Sent(Written(m, h(b)), s.msgs + [MsgFor(m, h(b))])
    case End => Sent(s.cache, s.msgs + [Eof])
  }

  /** Transmitting a list of items from cache m: the cache afterwards, and the messages written. */
  function Send(h: Hash, m: ServerCache, items: seq<Item>): (s: Sent)
    ensures |s.msgs| == |items|
  {
    if items == [] then Sent(m, []) else SendItem(h, Send(h, m, items[..|items| - 1]), items[|items| - 1])
  }

  lemma SendAppend(h: Hash, m: ServerCache, items: seq<Item>, item: Item)
    ensures Send(h, m, items + [item]) == SendItem(h, Send(h, m, items), item)
  {
    assert (items + [item])[..|items|] == items;
  }

  lemma {:induction false} SendConcat(h: Hash, m: ServerCache, a: seq<Item>, b: seq<Item>)
    ensures var s, t := Send(h, m, a), Send(h, Send(h, m, a).cache, b);
      Send(h, m, a + b) == Sent(t.cache, s.msgs + t.msgs)
  {
    if b == [] {
      assert a + b == a;
      assert Send(h, m, a).msgs + [] == Send(h, m, a).msgs;
    } else {
      var k := |b| - 1;
      SendConcat(h, m, a, b[..k]);
      assert (a + b)[..|a + b| - 1] == a + b[..k];
      var s, t := Send(h, m, a), Send(h, Send(h, m, a).cache, b[..k]);
      Associate(s.msgs, t.msgs, [SendItem(h, t, b[k]).msgs[k]]);
    }
  }

  /** Messages already written are not affected by what is sent later. */
  lemma SendPrefix(h: Hash, m: ServerCache, items: seq<Item>, k: nat)
    requires k <= |items|
    ensures Send(h, m, items).msgs[..k] == Send(h, m, items[..k]).msgs
  {
    SendConcat(h, m, items[..k], items[k..]);
    assert items == items[..k] + items[k..];
  }

  // --- The client ---

  datatype Step = Got(cache: ClientCache, item: Item) | Miss

  /** What `receive_block` does with one message: store, look up, or stop at the end of the file.
      A look-up of an absent number is `unordered_map::at` throwing. */
  function ClientStep(c: ClientCache, m: Msg): Step {
    match m
    case Data(n, data) => Got(c[n := data], Block(data))
    case Ref(n, _) => if n in c then Got(c, Block(c[n])) else Miss
    case Eof => Got(c, End)
  }

  datatype Replayed = Replayed(cache: ClientCache, items: seq<Item>, ok: bool)

  function ReplayOne(r: Replayed, m: Msg): Replayed {
    if !r.ok then r else
    match ClientStep(r.cache, m)
    case Got(c, item) => Replayed(c, r.items + [item], true)
    case Miss => Replayed(r.cache, r.items, false)
  }

  /** The client working through a list of messages, up to the first failed look-up. */
  function Replay(c: ClientCache, ms: seq<Msg>): Replayed {
    if ms == [] then Replayed(c, [], true) else ReplayOne(Replay(c, ms[..|ms| - 1]), ms[|ms| - 1])
  }

  lemma ReplayAppend(c: ClientCache, ms: seq<Msg>, m: Msg)
    ensures Replay(c, ms + [m]) == ReplayOne(Replay(c, ms), m)
  {
    assert (ms + [m])[..|ms|] == ms;
  }

  /** Reading the first message now or later makes no difference to where the client ends up. */
  lemma {:induction false} ReplayFirst(c: ClientCache, m: Msg, ms: seq<Msg>)
    requires ClientStep(c, m).Got?
    ensures var s, r := ClientStep(c, m), Replay(ClientStep(c, m).cache, ms);
      Replay(c, [m] + ms) == Replayed(r.cache, [s.item] + r.items, r.ok)
  {
    var s := ClientStep(c, m);
    if ms == [] {
      assert [m] + ms == [] + [m];
      ReplayAppend(c, [], m);
      assert [] + [s.item] == [s.item] + [];
    } else {
      var k := |ms| - 1;
      ReplayFirst(c, m, ms[..k]);
      assert ([m] + ms)[..k + 1] == [m] + ms[..k];
      var r := Replay(s.cache, ms[..k]);
      var t := ClientStep(r.cache, ms[k]);
      if t.Got? {
        Associate([s.item], r.items, [t.item]);
      }
    }
  }

  lemma ReplayFirstMisses(c: ClientCache, m: Msg, ms: seq<Msg>)
    requires Replay(c, [m] + ms).ok
    ensures ClientStep(c, m).Got?
  {
    if ms == [] {
      assert [m] + ms == [] + [m];
      ReplayAppend(c, [], m);
    } else {
      var k := |ms| - 1;
      assert ([m] + ms)[..k + 1] == [m] + ms[..k];
      ReplayFirstMisses(c, m, ms[..k]);
    }
  }

  /** Every reference in the list, when its turn comes, finds a block of exactly the size it states. */
  ghost predicate SizesOk(c: ClientCache, ms: seq<Msg>) {
    ms == [] ||
    var m, r := ms[|ms| - 1], Replay(c, ms[..|ms| - 1]).cache;
    SizesOk(c, ms[..|ms| - 1]) && (m.Ref? ==> m.num in r && |r[m.num]| == m.size)
  }

  lemma {:induction false} SizesOkFirst(c: ClientCache, m: Msg, ms: seq<Msg>)
    requires SizesOk(c, [m] + ms) && ClientStep(c, m).Got?
    ensures m.Ref? ==> m.num in c && |c[m.num]| == m.size
    ensures SizesOk(ClientStep(c, m).cache, ms)
  {
    if ms == [] {
      assert [m] + ms == [m] && [m][..0] == [];
    } else {
      var k := |ms| - 1;
      assert ([m] + ms)[..k + 1] == [m] + ms[..k];
      SizesOkFirst(c, m, ms[..k]);
      ReplayFirst(c, m, ms[..k]);
    }
  }

  // --- Agreement of the two caches ---

  /** The relation between the two caches, where `pending` is the number of the one entry that has been
      inserted but not yet written. Nothing is ever sent back, so this is all the server can rely on. */
  ghost predicate InSync(m: ServerCache, c: ClientCache, pending: Option<uint32>) {
    && (pending.Some? ==> pending.value in m)
    && (forall n :: n in c ==> n in m)
    && (forall n :: n in m && !m[n].isOld ==> pending == Some(n))
    && (forall n :: n in m && m[n].isOld ==> n in c && c[n] == m[n].data)
  }

  lemma InsertKeepsSync(h: Hash, m: ServerCache, c: ClientCache, b: Chunk)
    requires InSync(m, c, None)
    ensures InSync(Inserted(h, m, b), c, Some(h(b)))
  {
  }

  lemma WriteKeepsSync(m: ServerCache, c: ClientCache, n: uint32)
    requires InSync(m, c, Some(n))
    ensures var s := ClientStep(c, MsgFor(m, n));
      s.Got? && s.item == Block(m[n].data) && InSync(Written(m, n), s.cache, None)
  {
  }

  /** The bytes the server believes the client holds under each number. */
  function Held(m: ServerCache): ClientCache {
    map n | n in m && m[n].isOld :: m[n].data
  }

  /** One item, from any synchronised pair: the client gets the item itself, and agreement is kept. */
  lemma ExactStep(h: Hash, s: Sent, r: Replayed, item: Item)
    requires InSync(s.cache, r.cache, None) && r.ok
    ensures var t := SendItem(h, s, item);
      var q := ReplayOne(r, t.msgs[|s.msgs|]);
      q.ok && q.items == r.items + [item] && InSync(t.cache, q.cache, None)
  {
    if item.Block? {
      InsertKeepsSync(h, s.cache, r.cache, item.data);
      WriteKeepsSync(Inserted(h, s.cache, item.data), r.cache, h(item.data));
    }
  }

  /** Two caches that never talk back stay in agreement: from any synchronised pair, whatever is sent,
      with collisions and overwrites, no look-up misses, the client rebuilds exactly the items sent, and
      at the end its cache is the server's. */
  lemma {:induction false} SendReplayExact(h: Hash, m: ServerCache, c: ClientCache, items: seq<Item>)
    requires InSync(m, c, None)
    ensures var s := Send(h, m, items);
      var r := Replay(c, s.msgs);
      r.ok && r.items == items && InSync(s.cache, r.cache, None)
  {
    if items == [] {
    } else {
      var k := |items| - 1;
      SendReplayExact(h, m, c, items[..k]);
      var s := Send(h, m, items[..k]);
      ExactStep(h, s, Replay(c, s.msgs), items[k]);
      var t := SendItem(h, s, items[k]);
      SplitLast(items);
      assert t.msgs[..k] == s.msgs;
      hide InSync, SendItem, ReplayOne;
    }
  }

  lemma SyncedCachesEqual(m: ServerCache, c: ClientCache)
    requires InSync(m, c, None)
    ensures c == Held(m) && forall n :: n in m ==> m[n].isOld
  {
  }

  /** The size in a reference is the length of the block the client will take for it. */
  lemma RefSizesMatch(h: Hash, m: ServerCache, c: ClientCache, items: seq<Item>, k: nat)
    requires InSync(m, c, None) && k < |items|
    requires Send(h, m, items).msgs[k].Ref?
    ensures var msgs := Send(h, m, items).msgs;
      var r := Replay(c, msgs[..k]);
      r.ok && msgs[k].num in r.cache && |r.cache[msgs[k].num]| == msgs[k].size
  {
    SendPrefix(h, m, items, k);
    SendPrefix(h, m, items, k + 1);
    assert items[..k + 1] == items[..k] + [items[k]];
    SendAppend(h, m, items[..k], items[k]);
    SendReplayExact(h, m, c, items[..k]);
    var s, r := Send(h, m, items[..k]), Replay(c, Send(h, m, items[..k]).msgs);
    assert Send(h, m, items).msgs[k] == Send(h, m, items).msgs[..k + 1][k];
    InsertKeepsSync(h, s.cache, r.cache, items[k].data);
  }

  // --- The last writer of each number ---

  /** The most recent block in a history whose number is n. */
  function MostRecent(h: Hash, past: seq<Item>, n: uint32): Option<Chunk> {
    if past == [] then None else
    var last := past[|past| - 1];
    if last.Block? && h(last.data) == n then Some(last.data) else MostRecent(h, past[..|past| - 1], n)
  }

  /** After any history the server holds under each number exactly the most recent block sent with it. */
  lemma {:induction false} LastWriter(h: Hash, past: seq<Item>, n: uint32)
    ensures var m := Send(h, map[], past).cache;
      match MostRecent(h, past, n)
      case None => n !in m
      case Some(b) => n in m && m[n] == Entry(b, true)
  {
    if past == [] {
    } else {
      LastWriter(h, past[..|past| - 1], n);
    }
  }

  /** A block goes out as a reference exactly when the most recent earlier block with its number has the
      same bytes; otherwise it goes out whole. */
  lemma RefIffMostRecent(h: Hash, items: seq<Item>, k: nat)
    requires k < |items| && items[k].Block?
    ensures var b := items[k].data;
      Send(h, map[], items).msgs[k] ==
        if MostRecent(h, items[..k], h(b)) == Some(b) then Ref(h(b), |b|) else Data(h(b), b)
  {
    SendPrefix(h, map[], items, k + 1);
    assert items[..k + 1] == items[..k] + [items[k]];
    SendAppend(h, map[], items[..k], items[k]);
    LastWriter(h, items[..k], h(items[k].data));
    assert Send(h, map[], items).msgs[k] == Send(h, map[], items).msgs[..k + 1][k];
  }

  // --- Accounting ---

  /** Bytes of block contents a message carries. */
  function Literal(ms: seq<Msg>): nat {
    if ms == [] then 0 else
    Literal(ms[..|ms| - 1]) + if ms[|ms| - 1].Data? then |ms[|ms| - 1].data| else 0
  }

  /** Bytes of block contents that references stand for. */
  function Saved(ms: seq<Msg>): nat {
    if ms == [] then 0 else
    Saved(ms[..|ms| - 1]) + if ms[|ms| - 1].Ref? then ms[|ms| - 1].size else 0
  }

  /** The contents of a list of items. */
  function Bytes(items: seq<Item>): seq<byte> {
    if items == [] then [] else
    Bytes(items[..|items| - 1]) + if items[|items| - 1].Block? then items[|items| - 1].data else []
  }

  lemma {:induction false} WireLength(ms: seq<Msg>)
    ensures |EncodeAll(ms)| == DESC_SIZE * |ms| + Literal(ms)
  {
    if ms == [] {
    } else {
      WireLength(ms[..|ms| - 1]);
    }
  }

  /** Every byte of content is either sent or saved, from any cache. */
  lemma {:induction false} LiteralPlusSaved(h: Hash, m: ServerCache, items: seq<Item>)
    ensures Literal(Send(h, m, items).msgs) + Saved(Send(h, m, items).msgs) == |Bytes(items)|
  {
    if items == [] {
    } else {
      var k := |items| - 1;
      LiteralPlusSaved(h, m, items[..k]);
      var s := Send(h, m, items[..k]);
      var msgs := SendItem(h, s, items[k]).msgs;
      assert msgs[..k] == s.msgs;
    }
  }

  lemma {:induction false} LiteralConcat(a: seq<Msg>, b: seq<Msg>)
    ensures Literal(a + b) == Literal(a) + Literal(b)
  {
    if b == [] {
      assert a + b == a;
    } else {
      assert (a + b)[..|a + b| - 1] == a + b[..|b| - 1];
      LiteralConcat(a, b[..|b| - 1]);
    }
  }

  lemma {:induction false} BytesConcat(a: seq<Item>, b: seq<Item>)
    ensures Bytes(a + b) == Bytes(a) + Bytes(b)
  {
    if b == [] {
      assert a + b == a;
    } else {
      var k := |b| - 1;
      assert (a + b)[..|a + b| - 1] == a + b[..k];
      BytesConcat(a, b[..k]);
      Associate(Bytes(a), Bytes(b[..k]), if b[k].Block? then b[k].data else []);
    }
  }

  lemma BytesFirst(item: Item, items: seq<Item>)
    ensures Bytes([item] + items) == (if item.Block? then item.data else []) + Bytes(items)
  {
    BytesConcat([item], items);
    assert [item][..0] == [];
  }
}
