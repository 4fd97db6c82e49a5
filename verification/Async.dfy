/** The connection as a transition system: the server runs ahead, messages queue in a FIFO channel, and
    the client catches up whenever it likes. It refines a protocol with no caches at all. */
module Async {
  import opened Common
  import opened Wire
  import opened Protocol

  /** `todo` is what the server has yet to transmit, `pending` the number of an entry inserted but not yet
      written, `delivered` what the client has rebuilt; `crashed` is an uncaught failed look-up. */
  datatype State = State(todo: seq<Item>, server: ServerCache, pending: Option<uint32>, channel: seq<Msg>,
                         client: ClientCache, delivered: seq<Item>, crashed: bool)

  predicate Init(script: seq<Item>, s: State) {
    s == State(script, map[], None, [], map[], [], false)
  }

  predicate Insert(h: Hash, s: State, s': State) {
    && s.pending.None? && s.todo != [] && s.todo[0].Block?
    && s' == s.(todo := s.todo[1..], server := Inserted(h, s.server, s.todo[0].data),
                pending := Some(h(s.todo[0].data)))
  }

  predicate Write(s: State, s': State) {
    && s.pending.Some? && s.pending.value in s.server
    && s' == s.(server := Written(s.server, s.pending.value), pending := None,
                channel := s.channel + [MsgFor(s.server, s.pending.value)])
  }

  predicate WriteEnd(s: State, s': State) {
    && s.pending.None? && s.todo != [] && s.todo[0].End?
    && s' == s.(todo := s.todo[1..], channel := s.channel + [Eof])
  }

  predicate Receive(s: State, s': State) {
    && !s.crashed && s.channel != []
    && s' == match ClientStep(s.client, s.channel[0])
             case Got(c, item) => s.(channel := s.channel[1..], client := c, delivered := s.delivered + [item])
             case Miss => s.(channel := s.channel[1..], crashed := true)
  }

  predicate Next(h: Hash, s: State, s': State) {
    Insert(h, s, s') || Write(s, s') || WriteEnd(s, s') || Receive(s, s')
  }

  ghost predicate IsRun(h: Hash, script: seq<Item>, run: seq<State>) {
    && run != [] && Init(script, run[0])
    && forall i :: 0 <= i < |run| - 1 ==> Next(h, run[i], run[i + 1])
  }

  // --- The plain protocol: every block is sent whole, nobody caches anything ---

  datatype Plain = Plain(todo: seq<Item>, queue: seq<Item>, delivered: seq<Item>)

  predicate PlainNext(p: Plain, p': Plain) {
    || (p.todo != [] && p' == p.(todo := p.todo[1..], queue := p.queue + [p.todo[0]]))
    || (p.queue != [] && p' == p.(queue := p.queue[1..], delivered := p.delivered + [p.queue[0]]))
  }

  function Everything(p: Plain): seq<Item> {
    p.delivered + p.queue + p.todo
  }

  /** What the channel stands for is what the client will make of it. */
  function Abs(s: State): Plain {
    var inserted := if s.pending.Some? && s.pending.value in s.server
                    then [Block(s.server[s.pending.value].data)] else [];
    Plain(inserted + s.todo, Replay(s.client, s.channel).items, s.delivered)
  }

  /** The invariant. Replaying the messages in flight on the client's cache never misses and gives a cache
      that agrees with every server entry marked old; the only entry not so marked is the pending one; and
      every reference in flight states the size of the block it will find. */
  ghost predicate Inv(s: State) {
    var r := Replay(s.client, s.channel);
    !s.crashed && r.ok && SizesOk(s.client, s.channel) && InSync(s.server, r.cache, s.pending)
  }

  lemma InitInv(script: seq<Item>, s: State)
    requires Init(script, s)
    ensures Inv(s) && Everything(Abs(s)) == script
  {
    assert [] + script == script;
    assert [] + [] + script == script;
  }

  lemma InsertRefines(h: Hash, s: State, s': State)
    requires Inv(s) && Insert(h, s, s')
    ensures Inv(s') && Abs(s') == Abs(s)
  {
    var b := s.todo[0].data;
    InsertKeepsSync(h, s.server, Replay(s.client, s.channel).cache, b);
    assert [Block(b)] + s.todo[1..] == [] + s.todo;
  }

  lemma WriteRefines(s: State, s': State)
    requires Inv(s) && Write(s, s')
    ensures Inv(s') && PlainNext(Abs(s), Abs(s'))
  {
    var n := s.pending.value;
    var r := Replay(s.client, s.channel);
    ReplayAppend(s.client, s.channel, MsgFor(s.server, n));
    WriteKeepsSync(s.server, r.cache, n);
    assert s'.channel[..|s.channel|] == s.channel;
    assert ([Block(s.server[n].data)] + s.todo)[1..] == s.todo == [] + s.todo;
  }

  lemma WriteEndRefines(s: State, s': State)
    requires Inv(s) && WriteEnd(s, s')
    ensures Inv(s') && PlainNext(Abs(s), Abs(s'))
  {
    ReplayAppend(s.client, s.channel, Eof);
    assert s'.channel[..|s.channel|] == s.channel;
    assert [] + s.todo == s.todo && [] + s.todo[1..] == s.todo[1..];
  }

  lemma ReceiveRefines(s: State, s': State)
    requires Inv(s) && Receive(s, s')
    ensures Inv(s') && PlainNext(Abs(s), Abs(s'))
  {
    var m, rest := s.channel[0], s.channel[1..];
    assert s.channel == [m] + rest;
    ReplayFirstMisses(s.client, m, rest);
    ReplayFirst(s.client, m, rest);
    SizesOkFirst(s.client, m, rest);
    var step := ClientStep(s.client, m);
    var items := Replay(step.cache, rest).items;
    assert ([step.item] + items)[1..] == items;
  }

  /** Every step keeps the invariant and is a step of the plain protocol, or invisible to it. */
  lemma NextRefines(h: Hash, s: State, s': State)
    requires Inv(s) && Next(h, s, s')
    ensures Inv(s')
    ensures Abs(s') == Abs(s) || PlainNext(Abs(s), Abs(s'))
  {
    if Insert(h, s, s') {
      InsertRefines(h, s, s');
    } else if Write(s, s') {
      WriteRefines(s, s');
    } else if WriteEnd(s, s') {
      WriteEndRefines(s, s');
    } else {
      ReceiveRefines(s, s');
    }
  }

  lemma PlainConserves(p: Plain, p': Plain)
    requires PlainNext(p, p')
    ensures Everything(p') == Everything(p)
  {
    if p.todo != [] && p' == p.(todo := p.todo[1..], queue := p.queue + [p.todo[0]]) {
      assert p.todo == [p.todo[0]] + p.todo[1..];
    } else {
      assert p.queue == [p.queue[0]] + p.queue[1..];
    }
  }

  /** Safety over whole runs: in every reachable state the caches agree up to the messages in flight, and
      what was delivered, what is in flight, and what is still to be sent make up the script. */
  lemma {:induction false} RunSafe(h: Hash, script: seq<Item>, run: seq<State>)
    requires IsRun(h, script, run)
    ensures Inv(run[|run| - 1])
    ensures Everything(Abs(run[|run| - 1])) == script
    decreases |run|
  {
    if |run| == 1 {
      InitInv(script, run[0]);
    } else {
      var k := |run| - 2;
      RunSafe(h, script, run[..k + 1]);
      NextRefines(h, run[k], run[k + 1]);
      if Abs(run[k + 1]) != Abs(run[k]) {
        PlainConserves(Abs(run[k]), Abs(run[k + 1]));
      }
    }
  }

  /** In every reachable state, a reference at the head of the channel finds a block of the stated size. */
  lemma NoMissAtHead(h: Hash, script: seq<Item>, run: seq<State>)
    requires IsRun(h, script, run)
    requires var s := run[|run| - 1]; s.channel != [] && s.channel[0].Ref?
    ensures var s := run[|run| - 1];
      !s.crashed && s.channel[0].num in s.client && |s.client[s.channel[0].num]| == s.channel[0].size
  {
    RunSafe(h, script, run);
    var s := run[|run| - 1];
    assert s.channel == [s.channel[0]] + s.channel[1..];
    ReplayFirstMisses(s.client, s.channel[0], s.channel[1..]);
    SizesOkFirst(s.client, s.channel[0], s.channel[1..]);
  }
}
