/**
 What a subscriber misses. The daemon may push from the moment it acknowledged a subscription, but the stream enters the
 table only once the call that subscribed has returned.
 */
module Subscribing {
  import opened Rpc
  import opened RpcStreams

  ghost predicate AckAt(log: seq<Entry>, i: int, c: nat) {
    0 <= i < |log| && log[i].Acknowledged? && log[i].call == c
  }

  ghost predicate NoAck(log: seq<Entry>, c: nat) {
    forall i :: !AckAt(log, i, c)
  }

  ghost predicate Acknowledgement(log: seq<Entry>, i: int, stream: nat, c: nat) {
    AckAt(log, i, c) && log[i].stream == stream
  }

  /** What log and inbox say of each other: a call has no acknowledgement before its response, and a call that is to
      subscribe has one if its response is a success; an answer is that response. */
  ghost predicate CallAgrees(log: seq<Entry>, k: Call, c: nat) {
    && (k.inbox == [] ==> NoAck(log, c))
    && ((k.phase.Returned? || k.phase.Done?) && k.phase.outcome.Answered? ==>
          k.inbox != [] && k.phase.outcome.message == k.inbox[0])
    && (k.op.Subscribe? && k.inbox != [] && k.inbox[0].ok ==> exists i :: Acknowledgement(log, i, k.op.stream, c))
  }

  ghost predicate Once(log: seq<Entry>) {
    forall i, j, c | AckAt(log, i, c) && AckAt(log, j, c) :: i == j
  }

  /** A receiver's subscription was acknowledged before its insertion. */
  ghost predicate WasAcknowledged(log: seq<Entry>, r: Receiver, c: nat) {
    exists a :: Acknowledgement(log, a, r.stream, c) && a < r.since
  }

  ghost predicate Agrees(h: Hub) {
    && (forall c | c in h.client.calls :: CallAgrees(h.log, h.client.calls[c], c))
    && (forall i, c | AckAt(h.log, i, c) :: c in h.client.calls)
    && Once(h.log)
    && (forall c | c in h.receivers :: WasAcknowledged(h.log, h.receivers[c], c))
  }

  /** An entry that is no acknowledgement changes nothing about them. */
  lemma OtherEntry(log: seq<Entry>, e: Entry)
    requires !e.Acknowledged?
    ensures forall i, c :: AckAt(log + [e], i, c) <==> AckAt(log, i, c)
    ensures forall i, stream, c :: Acknowledgement(log + [e], i, stream, c) <==> Acknowledgement(log, i, stream, c)
    ensures Once(log) ==> Once(log + [e])
  {
    assert forall i, c | AckAt(log + [e], i, c) :: AckAt(log, i, c);
  }

  lemma StaysAcknowledged(log: seq<Entry>, e: Entry, r: Receiver, c: nat)
    requires WasAcknowledged(log, r, c)
    ensures WasAcknowledged(log + [e], r, c)
  {
    var a :| Acknowledgement(log, a, r.stream, c) && a < r.since;
    assert Acknowledgement(log + [e], a, r.stream, c);
  }

  lemma CallStillAgrees(log: seq<Entry>, e: Entry, k: Call, c: nat)
    requires CallAgrees(log, k, c) && !e.Acknowledged?
    ensures CallAgrees(log + [e], k, c)
  {
    OtherEntry(log, e);
    if k.op.Subscribe? {
      if i :| Acknowledgement(log, i, k.op.stream, c) {
        assert Acknowledgement(log + [e], i, k.op.stream, c);
      }
    }
  }

  lemma EntryKeepsAgreement(h: Hub, e: Entry)
    requires Agrees(h) && !e.Acknowledged?
    ensures Agrees(h.(log := h.log + [e]))
  {
    OtherEntry(h.log, e);
    forall c | c in h.client.calls ensures CallAgrees(h.log + [e], h.client.calls[c], c) {
      CallStillAgrees(h.log, e, h.client.calls[c], c);
    }
    forall c | c in h.receivers ensures WasAcknowledged(h.log + [e], h.receivers[c], c) {
      StaysAcknowledged(h.log, e, h.receivers[c], c);
    }
  }

  lemma PushKeepsAgreement(h: Hub, stream: nat, event: Event)
    requires Agrees(h)
    ensures Agrees(AfterPush(h, stream, event))
  {
    EntryKeepsAgreement(h, Pushed(stream, event));
    var g := AfterPush(h, stream, event);
    forall c | c in g.receivers ensures WasAcknowledged(g.log, g.receivers[c], c) {
      assert WasAcknowledged(g.log, h.receivers[c], c);
      var a :| Acknowledgement(g.log, a, h.receivers[c].stream, c) && a < h.receivers[c].since;
    }
  }

  /** What a client's step does to one call, its delivery of a success to a subscriber aside. */
  lemma CallKeepsAgreeing(s: Client, b: Action, log: seq<Entry>, c: nat)
    requires Enabled(s, b) && c in Step(s, b).calls && !(b == Deliver && Acknowledges(s))
    requires if c in s.calls then CallOk(s, c) && CallAgrees(log, s.calls[c], c) else NoAck(log, c)
    ensures CallAgrees(log, Step(s, b).calls[c], c)
  {
  }

  lemma ClientStepKeepsAgreement(h: Hub, b: Action)
    requires Invariant(h.client) && Agrees(h) && Enabled(h.client, b) && !(b == Deliver && Acknowledges(h.client))
    ensures Agrees(h.(client := Step(h.client, b)))
  {
    var t := Step(h.client, b);
    forall c | c in t.calls ensures CallAgrees(h.log, t.calls[c], c) {
      CallKeepsAgreeing(h.client, b, h.log, c);
    }
    forall c | c in h.client.calls ensures c in t.calls {
    }
  }

  lemma FirstAcknowledgement(log: seq<Entry>, stream: nat, c: nat)
    requires Once(log) && NoAck(log, c)
    ensures Once(log + [Acknowledged(stream, c)])
    ensures Acknowledgement(log + [Acknowledged(stream, c)], |log|, stream, c)
    ensures forall i, d | AckAt(log + [Acknowledged(stream, c)], i, d) :: AckAt(log, i, d) || (i == |log| && d == c)
  {
    var more := log + [Acknowledged(stream, c)];
    assert forall i, d | AckAt(more, i, d) && i < |log| :: AckAt(log, i, d);
  }

  lemma OthersStillAgree(log: seq<Entry>, e: Entry, k: Call, c: nat)
    requires CallAgrees(log, k, c) && e.Acknowledged? && e.call != c
    ensures CallAgrees(log + [e], k, c)
  {
    assert forall i | AckAt(log + [e], i, c) :: AckAt(log, i, c);
    if k.op.Subscribe? {
      if i :| Acknowledgement(log, i, k.op.stream, c) {
        assert Acknowledgement(log + [e], i, k.op.stream, c);
      }
    }
  }

  lemma AcknowledgementKeepsAgreement(h: Hub)
    requires Invariant(h.client) && Agrees(h) && Enabled(h.client, Deliver) && Acknowledges(h.client)
    ensures Agrees(AfterCall(h, Deliver))
  {
    var d := h.client.reader.call;
    var e := Acknowledged(h.client.calls[d].op.stream, d);
    var g := AfterCall(h, Deliver);
    assert CallOk(h.client, d);
    FirstAcknowledgement(h.log, e.stream, d);
    forall c | c in g.client.calls ensures CallAgrees(g.log, g.client.calls[c], c) {
      if c != d {
        OthersStillAgree(h.log, e, h.client.calls[c], c);
      }
    }
    forall c | c in g.receivers ensures WasAcknowledged(g.log, g.receivers[c], c) {
      StaysAcknowledged(h.log, e, h.receivers[c], c);
    }
  }

  /** A call that is about to enter the table was acknowledged. */
  lemma SubscriberWasAcknowledged(h: Hub, c: nat) returns (a: nat)
    requires Agrees(h) && Enabled(h.client, Finish(c)) && h.client.calls[c].op.Subscribe?
    requires var o := h.client.calls[c].phase.outcome; o.Answered? && o.message.ok
    ensures Acknowledgement(h.log, a, h.client.calls[c].op.stream, c)
  {
    var k := h.client.calls[c];
    assert CallAgrees(h.log, k, c);
    a :| Acknowledgement(h.log, a, k.op.stream, c);
  }

  lemma InsertionKeepsAgreement(h: Hub, subs: map<nat, nat>, stream: nat, c: nat, a: nat)
    requires Agrees(h) && Acknowledgement(h.log, a, stream, c)
    ensures Agrees(h.(subs := subs, receivers := h.receivers[c := Receiver(stream, |h.log|, [])],
                      log := h.log + [Inserted(stream, c)]))
  {
    var e := Inserted(stream, c);
    EntryKeepsAgreement(h, e);
    assert Acknowledgement(h.log + [e], a, stream, c);
    assert WasAcknowledged(h.log + [e], Receiver(stream, |h.log|, []), c);
  }

  lemma FinishKeepsAgreement(h: Hub, c: nat)
    requires Invariant(h.client) && Agrees(h) && Enabled(h.client, Finish(c))
    ensures Agrees(AfterCall(h, Finish(c)))
  {
    ClientStepKeepsAgreement(h, Finish(c));
    var next, k := h.(client := Step(h.client, Finish(c))), h.client.calls[c];
    if k.op.Subscribe? && k.phase.outcome.Answered? && k.phase.outcome.message.ok {
      var a := SubscriberWasAcknowledged(h, c);
      InsertionKeepsAgreement(next, h.subs[k.op.stream := c], k.op.stream, c, a);
    } else if k.op.Close? {
      EntryKeepsAgreement(next, Removed(k.op.stream));
    }
  }

  lemma CallStepKeepsAgreement(h: Hub, b: Action)
    requires Invariant(h.client) && Agrees(h) && Enabled(h.client, b)
    ensures Agrees(AfterCall(h, b))
  {
    if b == Deliver && Acknowledges(h.client) {
      AcknowledgementKeepsAgreement(h);
    } else if b.Finish? {
      FinishKeepsAgreement(h, b.c);
    } else {
      ClientStepKeepsAgreement(h, b);
    }
  }

  lemma {:induction false} RunAgrees(states: seq<Hub>, actions: seq<HubAction>, k: nat)
    requires IsHubRun(states, actions) && k < |states|
    ensures Invariant(states[k].client) && Agrees(states[k])
  {
    if k > 0 {
      var h := states[k - 1];
      RunAgrees(states, actions, k - 1);
      match actions[k - 1]
      case Push(stream, event) => PushKeepsAgreement(h, stream, event);
      case CallStep(b) =>
        StepKeepsInvariant(h.client, b);
        CallStepKeepsAgreement(h, b);
    }
  }

  // ----- what is missed

  lemma {:induction false} PushesConcat(a: seq<Entry>, b: seq<Entry>, stream: nat)
    ensures PushesOn(a + b, stream) == PushesOn(a, stream) + PushesOn(b, stream)
  {
    if b == [] {
      assert a + b == a;
    } else {
      var n := |b| - 1;
      assert (a + b)[..|a + b| - 1] == a + b[..n];
      PushesConcat(a, b[..n], stream);
    }
  }

  /** The pushes from a position on are those before an entry that is no push, and those after it. */
  lemma PushesAround(log: seq<Entry>, a: nat, at: nat, end: nat, stream: nat)
    requires a <= at < end <= |log| && !log[at].Pushed?
    ensures PushesOn(log[a..end], stream) == PushesOn(log[a..at], stream) + PushesOn(log[at + 1..end], stream)
  {
    assert log[a..end] == log[a..at] + ([log[at]] + log[at + 1..end]);
    PushesConcat(log[a..at], [log[at]] + log[at + 1..end], stream);
    PushesConcat([log[at]], log[at + 1..end], stream);
    assert PushesOn([log[at]], stream) == [];
  }

  lemma AcknowledgedOnce(h: Hub, c: nat) returns (a: nat)
    requires Agrees(h) && c in h.receivers
    ensures a < h.receivers[c].since && Acknowledgement(h.log, a, h.receivers[c].stream, c)
    ensures forall i | AckAt(h.log, i, c) :: i == a
  {
    assert WasAcknowledged(h.log, h.receivers[c], c);
    a :| Acknowledgement(h.log, a, h.receivers[c].stream, c) && a < h.receivers[c].since;
    assert AckAt(h.log, a, c);
  }

  /** What the receiver of an insertion at `at` got, and what came before it. */
  lemma MissedAndGot(log: seq<Entry>, a: nat, at: nat, stream: nat)
    requires a <= at < |log| && !log[at].Pushed?
    ensures
      var end, missed := EndOf(log, at + 1, stream), PushesOn(log[a..at], stream);
      && PushesOn(log[a..end], stream) == missed + Window(log, at, stream)
      && (Window(log, at, stream) == PushesOn(log[a..end], stream) <==> missed == [])
  {
    PushesAround(log, a, at, EndOf(log, at + 1, stream), stream);
  }

  /** The one acknowledgement of the receiver's subscription stands at `a`, before its insertion. The pushes of the
      stream in between are those it misses: it was sent all pushes from the acknowledgement to the end of its window if
      and only if there were none in between. */
  ghost predicate MissesExactly(log: seq<Entry>, r: Receiver, c: nat, a: nat) {
    && a < r.since < |log| && Acknowledgement(log, a, r.stream, c)
    && (forall i | AckAt(log, i, c) :: i == a)
    && var end, missed := EndOf(log, r.since + 1, r.stream), PushesOn(log[a..r.since], r.stream);
       && PushesOn(log[a..end], r.stream) == missed + r.got
       && (r.got == PushesOn(log[a..end], r.stream) <==> missed == [])
  }

  lemma MissesInState(h: Hub, c: nat) returns (a: nat)
    requires Agrees(h) && c in h.receivers && Fits(h.log, h.subs, h.receivers[c], c)
    ensures MissesExactly(h.log, h.receivers[c], c, a)
  {
    a := AcknowledgedOnce(h, c);
    MissedAndGot(h.log, a, h.receivers[c].since, h.receivers[c].stream);
  }

  lemma FitsInRun(states: seq<Hub>, actions: seq<HubAction>, k: nat, c: nat)
    requires IsHubRun(states, actions) && k < |states| && c in states[k].receivers
    ensures Fits(states[k].log, states[k].subs, states[k].receivers[c], c)
  {
    HubRunKeepsInvariant(states, actions, k);
  }

  /** Over every run, each receiver misses exactly the pushes between acknowledgement and insertion. */
  lemma MissesPushesBeforeInsertion(states: seq<Hub>, actions: seq<HubAction>, k: nat, c: nat) returns (a: nat)
    requires IsHubRun(states, actions) && k < |states| && c in states[k].receivers
    ensures MissesExactly(states[k].log, states[k].receivers[c], c, a)
  {
    RunAgrees(states, actions, k);
    FitsInRun(states, actions, k, c);
    a := MissesInState(states[k], c);
  }

  // ----- a run in which something is missed

  lemma OneMoreStep(states: seq<Hub>, actions: seq<HubAction>, a: HubAction)
    returns (more: seq<Hub>, all: seq<HubAction>)
    requires IsHubRun(states, actions) && Possible(states[|states| - 1], a)
    ensures IsHubRun(more, all) && more[|more| - 1] == HubStep(states[|states| - 1], a)
  {
    more, all := states + [HubStep(states[|states| - 1], a)], actions + [a];
  }

  lemma OneMoreCallStep(states: seq<Hub>, actions: seq<HubAction>, b: Action)
    returns (more: seq<Hub>, all: seq<HubAction>)
    requires IsHubRun(states, actions) && Enabled(states[|states| - 1].client, b)
    ensures IsHubRun(more, all) && more[|more| - 1] == AfterCall(states[|states| - 1], b)
  {
    more, all := OneMoreStep(states, actions, CallStep(b));
  }

  /** Call 0, which is to subscribe stream 7, is the only one. */
  function Alone(draws: nat, pending: map<nat, nat>, phase: Phase, inbox: seq<Message>, reader: Reader, log: seq<Entry>)
    : Hub
  {
    Hub(Client(draws, pending, map[0 := Call(Subscribe(7), 0, phase, inbox)], reader, true), map[], map[], log)
  }

  /** The call has sent its request. */
  lemma Asked() returns (states: seq<Hub>, actions: seq<HubAction>)
    ensures IsHubRun(states, actions) && states[|states| - 1] == Alone(1, map[1 := 0], Sent, [], Idle, [])
  {
    states, actions := [EMPTY], [];
    states, actions := OneMoreCallStep(states, actions, Begin(0, Subscribe(7)));
    assert states[|states| - 1] == Alone(0, map[], Admitted, [], Idle, []);
    states, actions := OneMoreCallStep(states, actions, Draw(0));
    assert states[|states| - 1] == Alone(1, map[], Drawn, [], Idle, []);
    states, actions := OneMoreCallStep(states, actions, Insert(0));
    assert states[|states| - 1] == Alone(1, map[1 := 0], Listed, [], Idle, []);
    states, actions := OneMoreCallStep(states, actions, Write(0));
  }

  /** The daemon has acknowledged it. */
  lemma Subscribed() returns (states: seq<Hub>, actions: seq<HubAction>)
    ensures IsHubRun(states, actions)
    ensures states[|states| - 1] == Alone(1, map[], Sent, [Message(1, true, "")], Idle, [Acknowledged(7, 0)])
  {
    var m := Message(1, true, "");
    states, actions := Asked();
    states, actions := OneMoreCallStep(states, actions, Respond(m));
    assert map[1 := 0] - {1} == map[];
    assert states[|states| - 1] == Alone(1, map[], Sent, [], Holding(0, m), []);
    DeliveredAlone(m);
    states, actions := OneMoreCallStep(states, actions, Deliver);
  }

  lemma DeliveredAlone(m: Message)
    requires m.ok
    ensures
      var h := Alone(1, map[], Sent, [], Holding(0, m), []);
      Enabled(h.client, Deliver) && AfterCall(h, Deliver) == Alone(1, map[], Sent, [m], Idle, [Acknowledged(7, 0)])
  {
    var h := Alone(1, map[], Sent, [], Holding(0, m), []);
    assert Acknowledges(h.client);
    assert h.client.calls[0].inbox + [m] == [m] && h.log + [Acknowledged(7, 0)] == [Acknowledged(7, 0)];
    assert h.client.calls[0 := Call(Subscribe(7), 0, Sent, [m])] == map[0 := Call(Subscribe(7), 0, Sent, [m])];
  }

  /** A push handled between the acknowledgement and the insertion is never sent to the subscriber. */
  lemma PushBeforeInsertionIsMissed(event: Event) returns (states: seq<Hub>, actions: seq<HubAction>)
    ensures IsHubRun(states, actions)
    ensures
      var h := states[|states| - 1];
      && 0 in h.receivers && h.receivers[0] == Receiver(7, 2, [])
      && h.log == [Acknowledged(7, 0), Pushed(7, event), Inserted(7, 0)]
  {
    states, actions := Subscribed();
    var m, log := Message(1, true, ""), [Acknowledged(7, 0), Pushed(7, event)];
    states, actions := OneMoreStep(states, actions, HubAction.Push(7, event));
    assert [Acknowledged(7, 0)] + [Pushed(7, event)] == log;
    assert states[|states| - 1] == Alone(1, map[], Sent, [m], Idle, log);
    states, actions := OneMoreCallStep(states, actions, Receive(0));
    assert states[|states| - 1] == Alone(1, map[], Returned(Answered(m)), [m], Idle, log);
    states, actions := OneMoreCallStep(states, actions, Finish(0));
    assert log + [Inserted(7, 0)] == [Acknowledged(7, 0), Pushed(7, event), Inserted(7, 0)];
  }
}
