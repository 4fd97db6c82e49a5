/** The connection byte by byte: the server writes a descriptor and its payload in two separate writes,
    and the client reads any positive number of available bytes at a time, never past the message it is
    reading. It refines the message-level system, terminates, and cannot get stuck. */
module AsyncBytes {
  import opened Common
  import opened Wire
  import opened Protocol
  import opened Session
  import A = Async

  /** Where the server is within one block: between blocks, inserted, or descriptor written but not yet
      the payload that the descriptor announces. */
  datatype Phase = Idle | Ready(n: uint32) | HeaderOut(n: uint32)

  /** `wire` holds bytes written and not yet read, `buf` the bytes of the message the client is reading. */
  datatype State = State(todo: seq<Item>, server: ServerCache, phase: Phase, wire: seq<byte>, buf: seq<byte>,
                         client: ClientCache, delivered: seq<Item>, crashed: bool)

  predicate Init(script: seq<Item>, s: State) {
    s == State(script, map[], Idle, [], [], map[], [], false)
  }

  predicate Insert(h: Hash, s: State, s': State) {
    && s.phase.Idle? && s.todo != [] && s.todo[0].Block?
    && s' == s.(todo := s.todo[1..], server := Inserted(h, s.server, s.todo[0].data), phase := Ready(h(s.todo[0].data)))
  }

  predicate WriteHeader(s: State, s': State) {
    && s.phase.Ready? && s.phase.n in s.server
    && s' == s.(wire := s.wire + WriteDesc(DescOf(MsgFor(s.server, s.phase.n))),
                phase := if s.server[s.phase.n].isOld then Idle else HeaderOut(s.phase.n))
  }

  predicate WritePayload(s: State, s': State) {
    && s.phase.HeaderOut? && s.phase.n in s.server
    && s' == s.(wire := s.wire + s.server[s.phase.n].data, server := Written(s.server, s.phase.n), phase := Idle)
  }

  predicate WriteEnd(s: State, s': State) {
    && s.phase.Idle? && s.todo != [] && s.todo[0].End?
    && s' == s.(todo := s.todo[1..], wire := s.wire + Encode(Eof))
  }

  /** How many more bytes the client asks for, given what it has read of the current message. */
  function Wanted(buf: seq<byte>): int {
    if |buf| < DESC_SIZE then DESC_SIZE - |buf| else
    var d := ReadDesc(buf[..DESC_SIZE]);
    if d.size == 0 || d.isOld then 0 else DESC_SIZE + d.size - |buf|
  }

  predicate Read(s: State, s': State, k: nat) {
    && !s.crashed && 1 <= k <= |s.wire| && k <= Wanted(s.buf)
    && s' == s.(wire := s.wire[k..], buf := s.buf + s.wire[..k])
  }

  /** Acting on a message once the whole of it has been read. */
  predicate Process(s: State, s': State) {
    && !s.crashed && Parse(s.buf).Parsed?
    && s' == match ClientStep(s.client, Parse(s.buf).msg)
             case Got(c, item) => s.(buf := [], client := c, delivered := s.delivered + [item])
             case Miss => s.(buf := [], crashed := true)
  }

  ghost predicate Next(h: Hash, s: State, s': State) {
    || Insert(h, s, s') || WriteHeader(s, s') || WritePayload(s, s') || WriteEnd(s, s')
    || (exists k: nat :: Read(s, s', k)) || Process(s, s')
  }

  ghost predicate Steps(h: Hash, run: seq<State>) {
    run != [] && forall i :: 0 <= i < |run| - 1 ==> Next(h, run[i], run[i + 1])
  }

  ghost predicate IsRun(h: Hash, script: seq<Item>, run: seq<State>) {
    Steps(h, run) && Init(script, run[0])
  }

  // --- Refinement ---

  /** The payload a written descriptor has promised. */
  function Owed(s: State): seq<byte> {
    if s.phase.HeaderOut? && s.phase.n in s.server then s.server[s.phase.n].data else []
  }

  function InFlight(s: State): seq<byte> {
    s.buf + s.wire + Owed(s)
  }

  /** At message level a message is written when its descriptor is, and read when all of it is. */
  function Abs(s: State): A.State {
    A.State(s.todo,
            if s.phase.HeaderOut? && s.phase.n in s.server then Written(s.server, s.phase.n) else s.server,
            if s.phase.Ready? then Some(s.phase.n) else None,
            ParseAll(InFlight(s)).0, s.client, s.delivered, s.crashed)
  }

  ghost predicate Inv(s: State) {
    && (!s.phase.Idle? ==> s.phase.n in s.server)
    && (s.phase.HeaderOut? ==> !s.server[s.phase.n].isOld)
    && ParseAll(InFlight(s)).1 == []
    && (Parse(s.buf).Parsed? ==> Parse(s.buf).rest == [])
    && A.Inv(Abs(s))
  }

  lemma InitInv(script: seq<Item>, s: State)
    requires Init(script, s)
    ensures Inv(s) && A.Init(script, Abs(s))
  {
    assert InFlight(s) == [];
    ParseAllNone([]);
  }

  lemma InsertRefines(h: Hash, s: State, s': State)
    requires Inv(s) && Insert(h, s, s')
    ensures Inv(s') && A.Insert(h, Abs(s), Abs(s'))
  {
    assert InFlight(s') == InFlight(s);
    A.InsertRefines(h, Abs(s), Abs(s'));
  }

  /** A message appended to the bytes in flight is appended to the messages in flight. */
  lemma AppendMsg(flight: seq<byte>, m: Msg)
    requires ParseAll(flight).1 == []
    ensures ParseAll(flight + Encode(m)) == (ParseAll(flight).0 + [m], [])
  {
    ParseEncode(m, []);
    assert Encode(m) + [] == Encode(m);
    ParseAllAppend(flight, Encode(m), m);
  }

  lemma WrittenOld(m: ServerCache, n: uint32)
    requires n in m
    ensures m[n].isOld ==> Written(m, n) == m
  {
  }

  lemma HeaderFlight(s: State, s': State)
    requires WriteHeader(s, s')
    ensures InFlight(s') == InFlight(s) + Encode(MsgFor(s.server, s.phase.n))
  {
    var d := WriteDesc(DescOf(MsgFor(s.server, s.phase.n)));
    assert s.buf + (s.wire + d) + Owed(s') == (s.buf + s.wire + []) + (d + Owed(s'));
  }

  lemma WriteHeaderRefines(s: State, s': State)
    requires Inv(s) && WriteHeader(s, s')
    ensures Inv(s') && A.Write(Abs(s), Abs(s'))
  {
    var n := s.phase.n;
    var m := MsgFor(s.server, n);
    AppendMsg(InFlight(s), m);
    HeaderFlight(s, s');
    WrittenOld(s.server, n);
    A.WriteRefines(Abs(s), Abs(s'));
  }

  lemma EndFlight(s: State, s': State)
    requires WriteEnd(s, s')
    ensures InFlight(s') == InFlight(s) + Encode(Eof)
  {
    assert s.buf + (s.wire + Encode(Eof)) + [] == (s.buf + s.wire + []) + Encode(Eof);
  }

  lemma WritePayloadRefines(s: State, s': State)
    requires Inv(s) && WritePayload(s, s')
    ensures Inv(s') && Abs(s') == Abs(s)
  {
    assert InFlight(s') == InFlight(s);
    hide Parse, ParseAll, InFlight, A.Inv, ReadDesc;
  }

  lemma WriteEndRefines(s: State, s': State)
    requires Inv(s) && WriteEnd(s, s')
    ensures Inv(s') && A.WriteEnd(Abs(s), Abs(s'))
  {
    AppendMsg(InFlight(s), Eof);
    EndFlight(s, s');
    A.WriteEndRefines(Abs(s), Abs(s'));
  }

  /** Reading no more than is wanted never takes a byte of the next message. */
  lemma ReadStops(buf: seq<byte>, chunk: seq<byte>)
    requires Parse(buf).Parsed? ==> Parse(buf).rest == []
    requires 1 <= |chunk| <= Wanted(buf)
    ensures Parse(buf).Incomplete?
    ensures Parse(buf + chunk).Parsed? ==> Parse(buf + chunk).rest == []
  {
    if |buf| >= DESC_SIZE {
      assert (buf + chunk)[..DESC_SIZE] == buf[..DESC_SIZE];
    }
  }

  lemma ReadFlight(s: State, s': State, k: nat)
    requires Read(s, s', k)
    ensures InFlight(s') == InFlight(s)
  {
    assert s.wire == s.wire[..k] + s.wire[k..];
    Associate(s.buf, s.wire[..k], s.wire[k..]);
  }

  lemma ReadRefines(s: State, s': State, k: nat)
    requires Inv(s) && Read(s, s', k)
    ensures Inv(s') && Abs(s') == Abs(s)
  {
    ReadStops(s.buf, s.wire[..k]);
    ReadFlight(s, s', k);
  }

  lemma ProcessFlight(s: State)
    requires Parse(s.buf).Parsed? && Parse(s.buf).rest == []
    ensures var after := ParseAll(s.wire + Owed(s));
      ParseAll(InFlight(s)) == ([Parse(s.buf).msg] + after.0, after.1)
  {
    var after := s.wire + Owed(s);
    Associate(s.buf, s.wire, Owed(s));
    ParseExtends(s.buf, after);
    assert [] + after == after;
    ParseAllFirst(InFlight(s), Parse(s.buf).msg, after);
  }

  lemma ProcessedFlight(s: State, s': State)
    requires Process(s, s')
    ensures InFlight(s') == s.wire + Owed(s)
  {
    hide Parse;
    assert s'.buf == [] && s'.wire == s.wire && Owed(s') == Owed(s);
    assert [] + s.wire == s.wire;
  }

  lemma HeadAndTail(m: Msg, ms: seq<Msg>)
    ensures ([m] + ms)[0] == m && ([m] + ms)[1..] == ms
  {
  }

  lemma ProcessRefines(s: State, s': State)
    requires Inv(s) && Process(s, s')
    ensures Inv(s') && A.Receive(Abs(s), Abs(s'))
  {
    ProcessFlight(s);
    ProcessedFlight(s, s');
    assert Parse([]).Incomplete?;
    hide Parse, ParseAll, InFlight, Owed, A.Inv, ClientStep;
    HeadAndTail(Parse(s.buf).msg, ParseAll(s.wire + Owed(s)).0);
    A.ReceiveRefines(Abs(s), Abs(s'));
  }

  /** Every byte-level step is a message-level step, or invisible at message level. */
  lemma NextRefines(h: Hash, s: State, s': State)
    requires Inv(s) && Next(h, s, s')
    ensures Inv(s')
    ensures Abs(s') == Abs(s) || A.Next(h, Abs(s), Abs(s'))
  {
    if Insert(h, s, s') {
      InsertRefines(h, s, s');
    } else if WriteHeader(s, s') {
      WriteHeaderRefines(s, s');
    } else if WritePayload(s, s') {
      WritePayloadRefines(s, s');
    } else if WriteEnd(s, s') {
      WriteEndRefines(s, s');
    } else if Process(s, s') {
      ProcessRefines(s, s');
    } else {
      var k: nat :| Read(s, s', k);
      ReadRefines(s, s', k);
    }
  }

  /** Safety over whole runs, at byte level. */
  lemma {:induction false} RunSafe(h: Hash, script: seq<Item>, run: seq<State>)
    requires IsRun(h, script, run)
    ensures Inv(run[|run| - 1])
    ensures A.Everything(A.Abs(Abs(run[|run| - 1]))) == script
    decreases |run|
  {
    if |run| == 1 {
      InitInv(script, run[0]);
      A.InitInv(script, Abs(run[0]));
    } else {
      var k := |run| - 2;
      RunSafe(h, script, run[..k + 1]);
      NextRefines(h, run[k], run[k + 1]);
      var a, a' := Abs(run[k]), Abs(run[k + 1]);
      if a' != a {
        A.NextRefines(h, a, a');
        if A.Abs(a') != A.Abs(a) {
          A.PlainConserves(A.Abs(a), A.Abs(a'));
        }
      }
    }
  }

  // --- Termination and progress ---

  function TodoWork(todo: seq<Item>): nat {
    if todo == [] then 0 else
    (match todo[0] case Block(b) => 29 + 2 * |b| case End => 27) + TodoWork(todo[1..])
  }

  function PhaseWork(s: State): nat {
    match s.phase
    case Idle => 0
    case Ready(n) => 28 + if n in s.server then 2 * |s.server[n].data| else 0
    case HeaderOut(n) => 1 + if n in s.server then 2 * |s.server[n].data| else 0
  }

  /** Work left: unread bytes count twice, once for being read and once for being processed. */
  function Work(s: State): nat {
    TodoWork(s.todo) + PhaseWork(s) + 2 * |s.wire| + |s.buf| + if s.crashed then 0 else 1
  }

  lemma ServerWorks(h: Hash, s: State, s': State)
    requires Insert(h, s, s') || WriteHeader(s, s') || WritePayload(s, s') || WriteEnd(s, s')
    ensures Work(s') < Work(s)
  {
    if WriteEnd(s, s') {
      assert |Encode(Eof)| == DESC_SIZE;
    }
  }

  lemma ClientWorks(s: State, s': State, k: nat)
    requires Read(s, s', k) || Process(s, s')
    ensures Work(s') < Work(s)
  {
  }

  /** Every step does some of the work. */
  lemma NextWorks(h: Hash, s: State, s': State)
    requires Next(h, s, s')
    ensures Work(s') < Work(s)
  {
    if Insert(h, s, s') || WriteHeader(s, s') || WritePayload(s, s') || WriteEnd(s, s') {
      ServerWorks(h, s, s');
    } else if Process(s, s') {
      ClientWorks(s, s', 1);
    } else {
      var k: nat :| Read(s, s', k);
      ClientWorks(s, s', k);
    }
  }

  /** No run is longer than the work there is to do: whatever the interleaving and the fragmentation. */
  lemma {:induction false} RunsAreBounded(h: Hash, script: seq<Item>, run: seq<State>)
    requires IsRun(h, script, run)
    ensures |run| + Work(run[|run| - 1]) <= 2 + TodoWork(script)
    decreases |run|
  {
    if |run| == 1 {
    } else {
      var k := |run| - 2;
      RunsAreBounded(h, script, run[..k + 1]);
      NextWorks(h, run[k], run[k + 1]);
    }
  }

  ghost predicate Done(s: State) {
    s.todo == [] && s.phase.Idle? && s.wire == [] && s.buf == []
  }

  lemma ClientProgress(s: State) returns (s': State)
    requires Inv(s) && s.phase.Idle? && (s.wire != [] || s.buf != [])
    ensures Process(s, s') || Read(s, s', 1)
  {
    if Parse(s.buf).Parsed? {
      s' := match ClientStep(s.client, Parse(s.buf).msg)
            case Got(c, item) => s.(buf := [], client := c, delivered := s.delivered + [item])
            case Miss => s.(buf := [], crashed := true);
    } else {
      if s.wire == [] {
        assert InFlight(s) == s.buf;
        ParseAllNone(s.buf);
        assert false;
      }
      s' := s.(wire := s.wire[1..], buf := s.buf + s.wire[..1]);
    }
  }

  /** A state that is not finished always has a next step: neither side can wait for ever. */
  lemma Progress(h: Hash, s: State) returns (s': State)
    requires Inv(s) && !Done(s)
    ensures Next(h, s, s')
  {
    if s.phase.Ready? {
      s' := s.(wire := s.wire + WriteDesc(DescOf(MsgFor(s.server, s.phase.n))),
               phase := if s.server[s.phase.n].isOld then Idle else HeaderOut(s.phase.n));
      assert WriteHeader(s, s');
    } else if s.phase.HeaderOut? {
      s' := s.(wire := s.wire + s.server[s.phase.n].data, server := Written(s.server, s.phase.n), phase := Idle);
      assert WritePayload(s, s');
    } else if s.todo != [] {
      match s.todo[0]
      case Block(b) =>
        s' := s.(todo := s.todo[1..], server := Inserted(h, s.server, b), phase := Ready(h(b)));
        assert Insert(h, s, s');
      case End =>
        s' := s.(todo := s.todo[1..], wire := s.wire + Encode(Eof));
        assert WriteEnd(s, s');
    } else {
      s' := ClientProgress(s);
    }
  }

  // --- What neither side has to wait for ---

  /** The state once the server has written out the block it is at. */
  function Finished(s: State): State
    requires !s.phase.Idle? ==> s.phase.n in s.server
  {
    match s.phase
    case Idle => s
    case Ready(n) =>
      s.(server := Written(s.server, n), phase := Idle, wire := s.wire + Encode(MsgFor(s.server, n)))
    case HeaderOut(n) =>
      s.(server := Written(s.server, n), phase := Idle, wire := s.wire + s.server[n].data)
  }

  /** A block that goes out whole does so in two steps: first the 13 bytes of its descriptor, then its
      bytes. In between the client may read what there is. */
  lemma TwoWrites(h: Hash, s: State)
    requires s.phase.Ready? && s.phase.n in s.server && !s.server[s.phase.n].isOld
    ensures var n := s.phase.n;
      var t := s.(wire := s.wire + Encode(MsgFor(s.server, n))[..13], phase := HeaderOut(n));
      Next(h, s, t) && Next(h, t, Finished(s))
  {
    var n := s.phase.n;
    var d := WriteDesc(DescOf(MsgFor(s.server, n)));
    var t := s.(wire := s.wire + d, phase := HeaderOut(n));
    assert Encode(MsgFor(s.server, n))[..13] == d;
    Associate(s.wire, d, s.server[n].data);
    assert WriteHeader(s, t) && WritePayload(t, Finished(s));
  }

  /** A block that goes out as a reference does so in one. */
  lemma OneWrite(h: Hash, s: State)
    requires s.phase.Ready? && s.phase.n in s.server && s.server[s.phase.n].isOld
    ensures Next(h, s, Finished(s))
  {
    var n := s.phase.n;
    WrittenOld(s.server, n);
    assert WriteDesc(DescOf(MsgFor(s.server, n))) + [] == WriteDesc(DescOf(MsgFor(s.server, n)));
    assert WriteHeader(s, Finished(s));
  }

  lemma FinishesBlock(h: Hash, s: State) returns (run: seq<State>)
    requires !s.phase.Idle? ==> s.phase.n in s.server
    ensures Steps(h, run) && run[0] == s && run[|run| - 1] == Finished(s)
  {
    match s.phase
    case Idle => run := [s];
    case HeaderOut(n) =>
      assert WritePayload(s, Finished(s));
      run := [s, Finished(s)];
    case Ready(n) =>
      if s.server[n].isOld {
        OneWrite(h, s);
        run := [s, Finished(s)];
      } else {
        TwoWrites(h, s);
        run := [s, s.(wire := s.wire + Encode(MsgFor(s.server, n))[..13], phase := HeaderOut(n)), Finished(s)];
      }
  }

  /** The state once the server has transmitted everything, the client having done nothing. */
  function Ahead(h: Hash, s: State): State
    requires !s.phase.Idle? ==> s.phase.n in s.server
  {
    var f := Finished(s);
    var t := Send(h, f.server, s.todo);
    f.(todo := [], server := t.cache, wire := f.wire + EncodeAll(t.msgs))
  }

  /** Where the server is when it begins with the next item. */
  function Begun(h: Hash, s: State): (t: State)
    requires s.phase.Idle? && s.todo != []
    ensures !t.phase.Idle? ==> t.phase.n in t.server
  {
    match s.todo[0]
    case Block(b) => s.(todo := s.todo[1..], server := Inserted(h, s.server, b), phase := Ready(h(b)))
    case End => s.(todo := s.todo[1..], wire := s.wire + Encode(Eof))
  }

  lemma SendFirst(h: Hash, m: ServerCache, item: Item, items: seq<Item>)
    ensures var s := SendItem(h, Sent(m, []), item);
      var t := Send(h, s.cache, items);
      && Send(h, m, [item] + items).cache == t.cache
      && EncodeAll(Send(h, m, [item] + items).msgs) == Encode(s.msgs[0]) + EncodeAll(t.msgs)
  {
    assert [item] == [] + [item];
    SendAppend(h, m, [], item);
    SendConcat(h, m, [item], items);
    var s := SendItem(h, Sent(m, []), item);
    assert s.msgs == [s.msgs[0]];
    EncodeFirst(s.msgs[0], Send(h, s.cache, items).msgs);
  }

  lemma AheadStep(h: Hash, s: State)
    requires s.phase.Idle? && s.todo != []
    ensures Ahead(h, Begun(h, s)) == Ahead(h, s)
  {
    var item, items := s.todo[0], s.todo[1..];
    assert s.todo == [item] + items;
    SendFirst(h, s.server, item, items);
    hide Send, EncodeAll, Encode;
    var t := SendItem(h, Sent(s.server, []), item);
    Associate(s.wire, Encode(t.msgs[0]), EncodeAll(Send(h, t.cache, items).msgs));
  }

  lemma NothingToDo(h: Hash, s: State)
    requires (!s.phase.Idle? ==> s.phase.n in s.server) && s.todo == []
    ensures Ahead(h, s) == Finished(s)
  {
    var f := Finished(s);
    hide Finished;
    assert f.wire + EncodeAll([]) == f.wire;
  }

  lemma BeginsNext(h: Hash, s: State)
    requires s.phase.Idle? && s.todo != []
    ensures Next(h, s, Begun(h, s)) && |Begun(h, s).todo| < |s.todo|
  {
    assert Insert(h, s, Begun(h, s)) || WriteEnd(s, Begun(h, s));
  }

  lemma FinishedIsIdle(h: Hash, s: State)
    requires !s.phase.Idle? ==> s.phase.n in s.server
    ensures var f := Finished(s);
      f.phase.Idle? && f.todo == s.todo && Ahead(h, f) == Ahead(h, s)
  {
  }

  lemma Joined(h: Hash, a: seq<State>, b: seq<State>)
    requires Steps(h, a) && Steps(h, b) && Next(h, a[|a| - 1], b[0])
    ensures Steps(h, a + b) && (a + b)[0] == a[0] && (a + b)[|a + b| - 1] == b[|b| - 1]
  {
    hide Next;
  }

  /** The server never waits for the client: from any state, wherever it is within a block and whatever is
      unread, it can transmit all that is left while the client does not move, so that the wire holds what
      it held, the rest of the current block, and every message still to be sent. */
  lemma {:induction false} ServerRunsAhead(h: Hash, s: State) returns (run: seq<State>)
    requires !s.phase.Idle? ==> s.phase.n in s.server
    ensures Steps(h, run) && run[0] == s && run[|run| - 1] == Ahead(h, s)
    decreases |s.todo|
  {
    hide *;
    run := FinishesBlock(h, s);
    FinishedIsIdle(h, s);
    if s.todo == [] {
      NothingToDo(h, s);
    } else {
      var f := Finished(s);
      BeginsNext(h, f);
      AheadStep(h, f);
      var rest := ServerRunsAhead(h, Begun(h, f));
      Joined(h, run, rest);
      run := run + rest;
    }
  }

  /** In particular there is a run in which the whole script is on the wire before the client has read a
      single byte. */
  lemma WholeScriptOnWire(h: Hash, script: seq<Item>) returns (run: seq<State>)
    ensures IsRun(h, script, run)
    ensures var t := Send(h, map[], script);
      run[|run| - 1] == State([], t.cache, Idle, EncodeAll(t.msgs), [], map[], [], false)
  {
    var s := State(script, map[], Idle, [], [], map[], [], false);
    run := ServerRunsAhead(h, s);
    assert [] + EncodeAll(Send(h, map[], script).msgs) == EncodeAll(Send(h, map[], script).msgs);
  }

  lemma WantedLayout(b: seq<byte>)
    ensures |b| < 13 ==> Wanted(b) == 13 - |b|
    ensures |b| >= 13 ==>
      var size := b[4] as int * 0x100_0000 + b[5] as int * 0x1_0000 + b[6] as int * 0x100 + b[7];
      Wanted(b) == if size == 0 || b[12] != 0 then 0 else 13 + size - |b|
  {
    if |b| >= 13 {
      assert b[..13][4..8] == [b[4], b[5], b[6], b[7]] && b[..13][12] == b[12];
    }
  }

  lemma OnlyRead(h: Hash, s: State, k: nat)
    requires 1 <= k <= |s.wire|
    ensures var s' := s.(wire := s.wire[k..], buf := s.buf + s.wire[..k]);
      Next(h, s, s') ==> Read(s, s', k)
  {
    hide Parse, ReadDesc, Wanted, Encode, WriteDesc, ClientStep, MsgFor, DescOf, Written, Inserted;
    var s' := s.(wire := s.wire[k..], buf := s.buf + s.wire[..k]);
    assert |s'.wire| < |s.wire| && |s'.buf| > 0;
    if i: nat :| Read(s, s', i) {
      assert |s.wire[i..]| == |s.wire[k..]|;
    }
  }

  lemma ReadIff(h: Hash, s: State, k: nat)
    requires Inv(s) && 1 <= k <= |s.wire|
    ensures var s' := s.(wire := s.wire[k..], buf := s.buf + s.wire[..k]);
      Next(h, s, s') <==> k <= Wanted(s.buf)
  {
    OnlyRead(h, s, k);
    assert !s.crashed;
    hide Inv, Wanted, Insert, WriteHeader, WritePayload, WriteEnd, Process;
    var s' := s.(wire := s.wire[k..], buf := s.buf + s.wire[..k]);
    assert Read(s, s', k) <==> k <= Wanted(s.buf);
  }

  /** Any read that the client's call allows is a step, and no other: any positive number of the bytes on
      the wire, up to the end of the descriptor while that is incomplete, and up to the end of the payload
      that it announces afterwards. */
  lemma AnyReadIsAStep(h: Hash, s: State, k: nat)
    requires Inv(s) && 1 <= k <= |s.wire|
    ensures var s' := s.(wire := s.wire[k..], buf := s.buf + s.wire[..k]);
      if |s.buf| < 13 then Next(h, s, s') <==> |s.buf| + k <= 13
      else
        var b := s.buf;
        var size := b[4] as int * 0x100_0000 + b[5] as int * 0x1_0000 + b[6] as int * 0x100 + b[7];
        Next(h, s, s') <==> size != 0 && b[12] == 0 && |b| + k <= 13 + size
  {
    WantedLayout(s.buf);
    ReadIff(h, s, k);
    hide Next, Inv, Wanted;
  }

  /** Once a message has been read the client can act on it, whatever else has arrived, and does not miss. */
  lemma AnyMessageIsActedOn(h: Hash, s: State)
    requires Inv(s) && Parse(s.buf).Parsed?
    ensures var t := ClientStep(s.client, Parse(s.buf).msg);
      t.Got? && Next(h, s, s.(buf := [], client := t.cache, delivered := s.delivered + [t.item]))
  {
    ProcessFlight(s);
    var m, ms := Parse(s.buf).msg, ParseAll(s.wire + Owed(s)).0;
    hide Parse, ParseAll, InFlight, Owed;
    ReplayFirstMisses(s.client, m, ms);
    var t := ClientStep(s.client, m);
    assert Process(s, s.(buf := [], client := t.cache, delivered := s.delivered + [t.item]));
  }

  ghost predicate Stuck(h: Hash, s: State) {
    forall s' {:trigger Next(h, s, s')} :: !Next(h, s, s')
  }

  /** A run that cannot be extended has delivered the whole script. */
  lemma MaximalRunDelivers(h: Hash, script: seq<Item>, run: seq<State>)
    requires IsRun(h, script, run)
    requires Stuck(h, run[|run| - 1])
    ensures run[|run| - 1].delivered == script && !run[|run| - 1].crashed
  {
    RunSafe(h, script, run);
    var s := run[|run| - 1];
    if !Done(s) {
      var s' := Progress(h, s);
      assert false;
    }
    ParseAllNone([]);
    assert InFlight(s) == [];
    assert s.delivered + [] + ([] + []) == s.delivered;
  }

  /** The files on the client's side, in every reachable state: those completed are the first files sent,
      and the open one is a prefix of the next. */
  lemma DeliveredFiles(h: Hash, fs: seq<seq<byte>>, run: seq<State>)
    requires IsRun(h, SessionItems(h, fs), run)
    ensures IsOpenPrefix(fs, OutputOf(run[|run| - 1].delivered))
  {
    RunSafe(h, SessionItems(h, fs), run);
    var p := A.Abs(Abs(run[|run| - 1]));
    Associate(p.delivered, p.queue, p.todo);
    OutputOfPrefix(h, fs, |p.delivered|);
    assert SessionItems(h, fs)[..|p.delivered|] == p.delivered;
  }

  /** When a run cannot go on, every file has arrived. */
  lemma AllFilesArrive(h: Hash, fs: seq<seq<byte>>, run: seq<State>)
    requires IsRun(h, SessionItems(h, fs), run) && Stuck(h, run[|run| - 1])
    ensures OutputOf(run[|run| - 1].delivered) == Output(fs, [])
  {
    MaximalRunDelivers(h, SessionItems(h, fs), run);
    OutputOfSession(h, fs);
  }
}
