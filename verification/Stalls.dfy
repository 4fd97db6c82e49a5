/** Reads that time out on a stream that goes on later. `receive_file` takes a time-out for the end of the
    file and drops whatever it has read of the current message; the next call reads on from there. */
module Stalls {
  import opened Common
  import opened Chunker
  import opened Wire
  import opened Protocol
  import opened Session

  /** Bytes arrive, or `receive_file` is called and returns: at an end of file or, if it has read all
      there is without finding one, when the read times out. */
  datatype Event = Arrive(bytes: seq<byte>) | Call

  /** The client: its cache, the bytes it has not read, and what each call so far has written. */
  datatype Reader = Reader(cache: ClientCache, unread: seq<byte>, outs: seq<seq<byte>>, missed: bool)

  function Step(r: Reader, e: Event): Reader {
    match e
    case Arrive(bytes) => r.(unread := r.unread + bytes)
    case Call =>
      if r.missed then r else
      var f := RecvFile(r.cache, r.unread);
      Reader(f.cache, f.rest, r.outs + [f.out], f.missed)
  }

  /** The client after these events on a new connection. */
  function Run(events: seq<Event>): Reader {
    if events == [] then Reader(map[], [], [], false) else Step(Run(events[..|events| - 1]), events[|events| - 1])
  }

  function Arrivals(events: seq<Event>): seq<byte> {
    if events == [] then [] else
    Arrivals(events[..|events| - 1]) + match events[|events| - 1] case Arrive(bytes) => bytes case Call => []
  }

  /** A call on these bytes finds an end of file, or times out between two messages. */
  predicate StopsCleanly(unread: seq<byte>) {
    Eof in ParseAll(unread).0 || ParseAll(unread).1 == []
  }

  /** No call times out inside a message. */
  ghost predicate NoStallInside(events: seq<Event>) {
    forall k :: 0 <= k < |events| && events[k].Call? ==> StopsCleanly(Run(events[..k]).unread)
  }

  // --- One call ---

  /** What a call has made of the bytes u, the beginning of the messages ms: it has acted on the first j
      messages and dropped `lost`. */
  ghost predicate HasRead(c: ClientCache, ms: seq<Msg>, u: seq<byte>, f: FileResult, j: nat, lost: seq<byte>) {
    && j <= |ms| && u == EncodeAll(ms[..j]) + lost + f.rest
    && Replay(c, ms[..j]).ok && !f.missed
    && f.cache == Replay(c, ms[..j]).cache && f.out == Bytes(Replay(c, ms[..j]).items)
  }

  lemma ReadsNothing(c: ClientCache, ms: seq<Msg>, u: seq<byte>)
    requires Parse(u).Incomplete?
    ensures HasRead(c, ms, u, RecvFile(c, u), 0, u) && RecvFile(c, u).rest == []
    ensures StopsCleanly(u) <==> u == []
  {
    assert ms[..0] == [];
    assert [] + u + [] == u;
    ParseAllNone(u);
  }

  lemma ReplayEof(c: ClientCache)
    ensures Replay(c, [Eof]) == Replayed(c, [End], true) && Bytes([End]) == []
    ensures EncodeAll([Eof]) == Encode(Eof)
  {
    assert [Eof] == [] + [Eof] && [End] == [] + [End];
    ReplayAppend(c, [], Eof);
    EncodeOne(Eof);
  }

  lemma ReadsEof(c: ClientCache, ms: seq<Msg>, after: seq<byte>)
    requires ms != [] && ms[0] == Eof
    ensures var u := Encode(Eof) + after;
      HasRead(c, ms, u, RecvFile(c, u), 1, []) && StopsCleanly(u)
  {
    var u := Encode(Eof) + after;
    ParseEncode(Eof, after);
    RecvEof(c, after);
    ParseAllFirst(u, Eof, after);
    ReplayEof(c);
    hide RecvFile, Parse, ParseAll, Encode, EncodeAll, Replay, Bytes;
    assert ms[..1] == [Eof];
    assert Encode(Eof) + [] + after == u;
  }

  lemma RecvBlockFirst(c: ClientCache, m: Msg, after: seq<byte>)
    requires m != Eof && ClientStep(c, m).Got?
    ensures var t, u := ClientStep(c, m), Encode(m) + after;
      && t.item.Block? && RecvFile(c, u) == Prepend(t.item.data, 1, RecvFile(t.cache, after))
      && (StopsCleanly(u) <==> StopsCleanly(after))
  {
    ParseEncode(m, after);
    ParseAllFirst(Encode(m) + after, m, after);
    hide Parse, ParseAll, Encode;
  }

  lemma ReplayBlockFirst(c: ClientCache, m: Msg, ms: seq<Msg>)
    requires ClientStep(c, m).Got? && ClientStep(c, m).item.Block? && Replay(ClientStep(c, m).cache, ms).ok
    ensures var t := ClientStep(c, m);
      var r := Replay(t.cache, ms);
      && Replay(c, [m] + ms).ok && Replay(c, [m] + ms).cache == r.cache
      && Bytes(Replay(c, [m] + ms).items) == t.item.data + Bytes(r.items)
      && EncodeAll([m] + ms) == Encode(m) + EncodeAll(ms)
  {
    ReplayFirst(c, m, ms);
    BytesFirst(ClientStep(c, m).item, Replay(ClientStep(c, m).cache, ms).items);
    EncodeFirst(m, ms);
  }

  lemma FirstMsgs(ms: seq<Msg>, j: nat)
    requires j < |ms|
    ensures ms[..j + 1] == [ms[0]] + ms[1..][..j]
  {
  }

  lemma ReadsBlock(c: ClientCache, ms: seq<Msg>, after: seq<byte>, j: nat, lost: seq<byte>)
    requires ms != [] && ms[0] != Eof && ClientStep(c, ms[0]).Got?
    requires var c' := ClientStep(c, ms[0]).cache;
      HasRead(c', ms[1..], after, RecvFile(c', after), j, lost)
    ensures var u := Encode(ms[0]) + after;
      && HasRead(c, ms, u, RecvFile(c, u), j + 1, lost)
      && RecvFile(c, u).rest == RecvFile(ClientStep(c, ms[0]).cache, after).rest
      && (StopsCleanly(u) <==> StopsCleanly(after))
  {
    hide RecvFile, EncodeAll, Encode, Replay, ClientStep, Bytes, StopsCleanly;
    RecvBlockFirst(c, ms[0], after);
    FirstMsgs(ms, j);
    ReplayBlockFirst(c, ms[0], ms[1..][..j]);
    var rest := RecvFile(ClientStep(c, ms[0]).cache, after).rest;
    Associate(Encode(ms[0]), EncodeAll(ms[1..][..j]), lost);
    Associate(Encode(ms[0]), EncodeAll(ms[1..][..j]) + lost, rest);
  }

  lemma NoMessages(u: seq<byte>)
    requires u <= EncodeAll([])
    ensures Parse(u).Incomplete? && u == []
  {
  }

  lemma SplitPrefix(a: seq<byte>, b: seq<byte>, u: seq<byte>)
    requires u <= a + b
    ensures if |u| < |a| then u == a[..|u|] else u == a + u[|a|..] && u[|a|..] <= b
  {
  }

  /** Where a call stops on the first bytes of a list of messages: right behind an end of file or, if it
      times out, having dropped the fragment of a message after which it timed out. */
  lemma {:induction false} ReadsUpToStall(c: ClientCache, ms: seq<Msg>, u: seq<byte>) returns (j: nat, lost: seq<byte>)
    requires u <= EncodeAll(ms) && Replay(c, ms).ok
    ensures HasRead(c, ms, u, RecvFile(c, u), j, lost)
    ensures lost == [] <==> StopsCleanly(u)
    ensures lost != [] ==> RecvFile(c, u).rest == [] && Parse(lost).Incomplete?
    decreases |ms|
  {
    hide *;
    if ms == [] {
      j, lost := 0, u;
      NoMessages(u);
      ReadsNothing(c, ms, u);
    } else {
      var m, more, n := ms[0], ms[1..], |Encode(ms[0])|;
      assert ms == [m] + more;
      EncodeFirst(m, more);
      SplitPrefix(Encode(m), EncodeAll(more), u);
      if |u| < n {
        j, lost := 0, u;
        PrefixIncomplete(m, |u|);
        ReadsNothing(c, ms, u);
      } else {
        ReplayFirstMisses(c, m, more);
        ReplayFirst(c, m, more);
        if m == Eof {
          j, lost := 1, [];
          ReadsEof(c, ms, u[n..]);
        } else {
          j, lost := ReadsUpToStall(ClientStep(c, m).cache, more, u[n..]);
          ReadsBlock(c, ms, u[n..], j, lost);
          j := j + 1;
        }
      }
    }
  }

  lemma WholeMessages(ms: seq<Msg>)
    ensures StopsCleanly(EncodeAll(ms))
  {
    ParseAllEncodeAll(ms, []);
    assert EncodeAll(ms) + [] == EncodeAll(ms);
  }

  /** Exactly when a call leaves the client at a message boundary, having lost nothing: when it does not
      time out inside a message. */
  lemma KeepsItsPlaceIff(c: ClientCache, ms: seq<Msg>, u: seq<byte>)
    requires u <= EncodeAll(ms) && Replay(c, ms).ok
    ensures (exists j: nat :: HasRead(c, ms, u, RecvFile(c, u), j, [])) <==> StopsCleanly(u)
  {
    var j, lost := ReadsUpToStall(c, ms, u);
    if i: nat :| HasRead(c, ms, u, RecvFile(c, u), i, []) {
      WholeMessages(ms[..i]);
      assert EncodeAll(ms[..i]) + [] + [] == EncodeAll(ms[..i]);
    }
  }

  // --- Whole runs ---

  /** The client has acted on the first k items sent, and on nothing else. */
  ghost predicate KeptUp(h: Hash, items: seq<Item>, arrived: seq<byte>, r: Reader, k: nat) {
    && k <= |items| && !r.missed
    && arrived == EncodeAll(Send(h, map[], items[..k]).msgs) + r.unread
    && r.cache == Held(Send(h, map[], items[..k]).cache)
    && Flatten(r.outs) == Bytes(items[..k])
  }

  lemma SendOn(h: Hash, items: seq<Item>, k: nat, j: nat)
    requires k + j <= |items|
    ensures items[..k + j] == items[..k] + items[k..][..j]
    ensures var s := Send(h, map[], items[..k]);
      var t := Send(h, s.cache, items[k..][..j]);
      && Send(h, map[], items[..k + j]).cache == t.cache
      && EncodeAll(Send(h, map[], items[..k + j]).msgs) == EncodeAll(s.msgs) + EncodeAll(t.msgs)
  {
    assert items[..k + j] == items[..k] + items[k..][..j];
    SendConcat(h, map[], items[..k], items[k..][..j]);
    var s := Send(h, map[], items[..k]);
    EncodeConcat(s.msgs, Send(h, s.cache, items[k..][..j]).msgs);
  }

  /** Replaying what was sent from cache m on, all of it or the beginning. */
  lemma ReplaySent(h: Hash, m: ServerCache, items: seq<Item>, j: nat)
    requires InSync(m, Held(m), None) && j <= |items|
    ensures var r := Replay(Held(m), Send(h, m, items).msgs[..j]);
      r.ok && r.items == items[..j] && r.cache == Held(Send(h, m, items[..j]).cache)
  {
    SendPrefix(h, m, items, j);
    SendReplayExact(h, m, Held(m), items[..j]);
    SyncedCachesEqual(Send(h, m, items[..j]).cache, Replay(Held(m), Send(h, m, items[..j]).msgs).cache);
  }

  lemma HasReadItems(h: Hash, items: seq<Item>, k: nat, r: Reader, j: nat)
    requires k <= |items|
    requires var m := Send(h, map[], items[..k]).cache;
      && InSync(m, Held(m), None) && r.cache == Held(m)
      && HasRead(r.cache, Send(h, m, items[k..]).msgs, r.unread, RecvFile(r.cache, r.unread), j, [])
    ensures k + j <= |items|
    ensures var f, m := RecvFile(r.cache, r.unread), Send(h, map[], items[..k]).cache;
      && r.unread == EncodeAll(Send(h, m, items[k..][..j]).msgs) + f.rest && !f.missed
      && f.cache == Held(Send(h, map[], items[..k + j]).cache) && f.out == Bytes(items[k..][..j])
  {
    hide RecvFile, Send, InSync, Held, Bytes, EncodeAll, Replay;
    var m := Send(h, map[], items[..k]).cache;
    ReplaySent(h, m, items[k..], j);
    SendPrefix(h, m, items[k..], j);
    SendOn(h, items, k, j);
  }

  lemma RestOfStream(a: seq<byte>, u: seq<byte>, b: seq<byte>)
    requires a + u <= a + b
    ensures u <= b
  {
    assert (a + u)[|a|..] == u && (a + b)[|a|..] == b;
  }

  /** What is unread is the beginning of what is still to come, and can be replayed. */
  lemma StillToCome(h: Hash, items: seq<Item>, arrived: seq<byte>, r: Reader, k: nat) returns (ms: seq<Msg>)
    requires KeptUp(h, items, arrived, r, k) && arrived <= EncodeAll(Send(h, map[], items).msgs)
    ensures var m := Send(h, map[], items[..k]).cache;
      InSync(m, Held(m), None) && ms == Send(h, m, items[k..]).msgs
    ensures r.unread <= EncodeAll(ms) && Replay(r.cache, ms).ok
  {
    var m, n := Send(h, map[], items[..k]).cache, |items| - k;
    SyncAfter(h, map[], map[], items[..k]);
    ms := Send(h, m, items[k..]).msgs;
    hide Send, InSync, Held, Bytes, EncodeAll, Replay, Flatten;
    assert items[k..][..n] == items[k..] && items[..k + n] == items && ms[..n] == ms;
    SendOn(h, items, k, n);
    RestOfStream(EncodeAll(Send(h, map[], items[..k]).msgs), r.unread, EncodeAll(ms));
    ReplaySent(h, m, items[k..], n);
  }

  lemma Advances(h: Hash, items: seq<Item>, arrived: seq<byte>, r: Reader, k: nat, j: nat)
    requires KeptUp(h, items, arrived, r, k) && k + j <= |items|
    requires var f, m := RecvFile(r.cache, r.unread), Send(h, map[], items[..k]).cache;
      && r.unread == EncodeAll(Send(h, m, items[k..][..j]).msgs) + f.rest && !f.missed
      && f.cache == Held(Send(h, map[], items[..k + j]).cache) && f.out == Bytes(items[k..][..j])
    ensures KeptUp(h, items, arrived, Step(r, Call), k + j)
  {
    hide RecvFile, Send, Held, Bytes, EncodeAll, Flatten;
    var f, m := RecvFile(r.cache, r.unread), Send(h, map[], items[..k]).cache;
    SendOn(h, items, k, j);
    Associate(EncodeAll(Send(h, map[], items[..k]).msgs), EncodeAll(Send(h, m, items[k..][..j]).msgs), f.rest);
    BytesConcat(items[..k], items[k..][..j]);
    FlattenAppend(r.outs, f.out);
  }

  /** One call that does not time out inside a message. */
  lemma CallKeepsUp(h: Hash, items: seq<Item>, arrived: seq<byte>, r: Reader, k: nat) returns (k': nat)
    requires KeptUp(h, items, arrived, r, k) && StopsCleanly(r.unread)
    requires arrived <= EncodeAll(Send(h, map[], items).msgs)
    ensures KeptUp(h, items, arrived, Step(r, Call), k')
  {
    hide RecvFile, Send, InSync, Held, Bytes, EncodeAll, Replay, Flatten, StopsCleanly, HasRead, Step;
    var ms := StillToCome(h, items, arrived, r, k);
    var j, lost := ReadsUpToStall(r.cache, ms, r.unread);
    HasReadItems(h, items, k, r, j);
    Advances(h, items, arrived, r, k, j);
    k' := k + j;
  }

  lemma ArriveKeepsUp(h: Hash, items: seq<Item>, arrived: seq<byte>, r: Reader, k: nat, bytes: seq<byte>)
    requires KeptUp(h, items, arrived, r, k)
    ensures KeptUp(h, items, arrived + bytes, Step(r, Arrive(bytes)), k)
  {
    hide Send, Held, Bytes, EncodeAll, Flatten;
    Associate(EncodeAll(Send(h, map[], items[..k]).msgs), r.unread, bytes);
  }

  lemma StartsKeptUp(h: Hash, items: seq<Item>)
    ensures KeptUp(h, items, Arrivals([]), Run([]), 0)
  {
    assert items[..0] == [];
    assert EncodeAll([]) + [] == [];
  }

  lemma LastEvent(events: seq<Event>)
    requires events != [] && NoStallInside(events)
    ensures var e, before := events[|events| - 1], events[..|events| - 1];
      && NoStallInside(before) && Run(events) == Step(Run(before), e)
      && Arrivals(events) == Arrivals(before) + (match e case Arrive(bytes) => bytes case Call => [])
      && (e.Call? ==> StopsCleanly(Run(before).unread) && Arrivals(events) == Arrivals(before))
  {
    hide Step, StopsCleanly;
    var before := events[..|events| - 1];
    assert forall i :: 0 <= i <= |before| ==> before[..i] == events[..i];
  }

  /** Time-outs between messages do no harm: whatever calls there have been, and whatever had arrived at
      each of them, as long as no call timed out inside a message, the client has acted on the first k
      items sent and on nothing else. Its cache is what the server's was then, and what its calls have
      written, one after the other, is the contents of these items. */
  lemma {:induction false} ReaderKeepsUp(h: Hash, items: seq<Item>, events: seq<Event>) returns (k: nat)
    requires Arrivals(events) <= EncodeAll(Send(h, map[], items).msgs) && NoStallInside(events)
    ensures KeptUp(h, items, Arrivals(events), Run(events), k)
    decreases |events|
  {
    hide *;
    if events == [] {
      k := 0;
      StartsKeptUp(h, items);
    } else {
      var e, before := events[|events| - 1], events[..|events| - 1];
      LastEvent(events);
      k := ReaderKeepsUp(h, items, before);
      match e
      case Arrive(bytes) => ArriveKeepsUp(h, items, Arrivals(before), Run(before), k, bytes);
      case Call => k := CallKeepsUp(h, items, Arrivals(events), Run(before), k);
    }
  }

  lemma {:induction false} BytesOfSession(h: Hash, fs: seq<seq<byte>>)
    ensures Bytes(SessionItems(h, fs)) == Flatten(fs)
  {
    if fs == [] {
    } else {
      var k := |fs| - 1;
      BytesOfSession(h, fs[..k]);
      BytesConcat(SessionItems(h, fs[..k]), FileItems(h, fs[k]));
      BytesOfFile(h, fs[k]);
    }
  }

  /** Once everything has arrived and been read, the calls have together written the files in order, and
      the caches agree, although a call may have ended inside a file. */
  lemma StalledSessionArrives(h: Hash, fs: seq<seq<byte>>, events: seq<Event>)
    requires Arrivals(events) == Stream(h, fs) && NoStallInside(events) && Run(events).unread == []
    ensures Flatten(Run(events).outs) == Flatten(fs) && Run(events).cache == Held(CacheAfter(h, fs))
  {
    var items := SessionItems(h, fs);
    var k := ReaderKeepsUp(h, items, events);
    var some, all := Send(h, map[], items[..k]).msgs, Send(h, map[], items).msgs;
    assert EncodeAll(some) + [] == EncodeAll(some);
    EncodeAllInjective(some, all);
    assert items[..k] == items;
    BytesOfSession(h, fs);
  }

  // --- A time-out inside a message ---

  lemma TinyFile(h: Hash, f: Chunk)
    requires |f| == 1
    ensures FileItems(h, f) == [Block(f), End]
  {
    ChunkCount(h, f);
    ChunkLengths(h, f);
    ChunksAreWellCut(h, f);
    var bs := Chunks(h, f);
    hide Chunks;
    SplitLast(bs);
    FlattenAppend([], bs[0]);
    assert [] + [bs[0]] == [bs[0]] && [] + bs[0] == bs[0];
  }

  lemma TinyMsgs(h: Hash, f: Chunk)
    ensures Send(h, map[], [Block(f), End]).msgs == [Data(h(f), f), Eof]
  {
    assert [Block(f), End] == [] + [Block(f)] + [End];
    SendAppend(h, map[], [], Block(f));
    SendAppend(h, map[], [] + [Block(f)], End);
  }

  /** One byte sent as a file of its own: 14 bytes of block message, 13 of end of file. */
  lemma TinyStream(h: Hash, b: byte)
    ensures Stream(h, [[b]]) == WriteDesc(Desc(h([b]), 1, false)) + [b] + WriteDesc(Desc(0, 0, false))
  {
    var f: Chunk := [b];
    OneFile(h, f);
    TinyFile(h, f);
    TinyMsgs(h, f);
    hide Send, FileItems, SessionItems, WriteDesc;
    assert [Data(h(f), f), Eof] == [Data(h(f), f)] + [Eof];
    EncodeFirst(Data(h(f), f), [Eof]);
    EncodeOne(Eof);
    assert Encode(Eof) == WriteDesc(Desc(0, 0, false));
  }

  lemma SizeOneLate(n: uint32)
    ensures var d := WriteDesc(Desc(n, 1, false));
      FromBigEndian([d[5], d[6], d[7], d[8]]) == 256
  {
  }

  lemma BytesLate(d: seq<byte>, b: byte, e: seq<byte>)
    requires |d| == DESC_SIZE == |e|
    ensures var late := (d + [b] + e)[1..];
      && |late| == 2 * DESC_SIZE
      && late[..DESC_SIZE][4..8] == [d[5], d[6], d[7], d[8]] && late[..DESC_SIZE][12] == b
  {
    var late := (d + [b] + e)[1..];
    assert late[..DESC_SIZE] == d[1..] + [b];
    assert d[1..][4..8] == [d[5], d[6], d[7], d[8]];
  }

  /** Read one byte late, its descriptor announces 256 bytes, and its payload is taken for the flag. */
  lemma OneByteLate(n: uint32, b: byte)
    ensures var late := (WriteDesc(Desc(n, 1, false)) + [b] + WriteDesc(Desc(0, 0, false)))[1..];
      if b == 0 then Parse(late).Incomplete? else Parse(late).Parsed? && Parse(late).msg.Ref?
  {
    SizeOneLate(n);
    BytesLate(WriteDesc(Desc(n, 1, false)), b, WriteDesc(Desc(0, 0, false)));
    hide WriteDesc, FromBigEndian;
  }

  lemma OneMoreEvent(events: seq<Event>, e: Event)
    ensures Run(events + [e]) == Step(Run(events), e)
    ensures Arrivals(events + [e]) == Arrivals(events) + match e case Arrive(bytes) => bytes case Call => []
  {
    assert (events + [e])[..|events|] == events;
  }

  lemma NoArrivals()
    ensures Arrivals([]) == [] && Run([]) == Reader(map[], [], [], false)
  {
  }

  lemma FourEvents(a: seq<byte>, b: seq<byte>)
    ensures var events := [Arrive(a), Call, Arrive(b), Call];
      && Run(events) == Step(Step(Step(Step(Run([]), Arrive(a)), Call), Arrive(b)), Call)
      && Arrivals(events) == a + b
      && events[1] == Call && Run(events[..1]) == Step(Run([]), Arrive(a))
  {
    hide *;
    var events := [Arrive(a), Call, Arrive(b), Call];
    assert events[..0] == [] && events[..1] == events[..0] + [Arrive(a)] && events[..2] == events[..1] + [Call];
    assert events[..3] == events[..2] + [Arrive(b)] && events == events[..3] + [Call];
    OneMoreEvent([], Arrive(a));
    OneMoreEvent(events[..1], Call);
    OneMoreEvent(events[..2], Arrive(b));
    OneMoreEvent(events[..3], Call);
    NoArrivals();
    assert [] + a == a && a + [] == a && (a + b) + [] == a + b;
  }

  /** The client times out on the bytes a, which are no message, and is called again when b has come. */
  lemma StallThenCall(a: seq<byte>, b: seq<byte>)
    requires Parse(a).Incomplete?
    ensures var events, f := [Arrive(a), Call, Arrive(b), Call], RecvFile(map[], b);
      && Arrivals(events) == a + b && (NoStallInside(events) ==> a == [])
      && Run(events) == Reader(f.cache, f.rest, [[], f.out], f.missed)
  {
    FourEvents(a, b);
    RecvFragment(map[], a);
    ParseAllNone(a);
    NoArrivals();
    hide RecvFile, Parse, ParseAll, Run, Arrivals;
    assert [] + a == a && [] + b == b;
  }

  lemma TwoEmptyFiles()
    ensures Flatten<byte>([[], []]) == []
  {
    var none: seq<seq<byte>> := [];
    assert none + [[]] + [[]] == [[], []];
    FlattenAppend(none, []);
    FlattenAppend(none + [[]], []);
  }

  /** What a time-out inside a message does, for every hash: one byte is sent as a file, the client times
      out having read the first byte of the descriptor, everything else arrives, and the client calls
      again. Nothing of the file is ever written; the later call fails unless the byte sent was 0. */
  lemma StallInsideLosesFile(h: Hash, b: byte)
    ensures var all := Stream(h, [[b]]);
      |all| == 27 &&
      var events := [Arrive(all[..1]), Call, Arrive(all[1..]), Call];
      var r := Run(events);
      && Arrivals(events) == all && !NoStallInside(events)
      && Flatten(r.outs) == [] && r.cache == map[] && (r.missed <==> b != 0)
  {
    TinyStream(h, b);
    OneByteLate(h([b]), b);
    var all := Stream(h, [[b]]);
    hide Stream, WriteDesc, Run, Arrivals, NoStallInside;
    StallThenCall(all[..1], all[1..]);
    assert all == all[..1] + all[1..];
    TwoEmptyFiles();
  }
}
