/**
 The RPC client shared by calling threads and one reader thread. Each action is one access to the shared state that no
 other thread can split: a load, a counter draw, or what is done under one lock. Runs interleave them freely, with
 timeouts, write failures, and arbitrary, late or repeated responses from the daemon.
 */
module Rpc {
  /** Call ids are 64-bit and start at 1. */
  const ID_SPACE: nat := 0x1_0000_0000_0000_0000

  datatype Op = Plain | Subscribe(stream: nat) | Close(stream: nat)

  /** A response line: the id it names, whether it reports success, and its payload. */
  datatype Message = Message(id: nat, ok: bool, payload: string)

  datatype Outcome = Answered(message: Message) | Failed | Refused

  datatype Phase =
    | Admitted                    // found the client alive, no id yet
    | Drawn                       // has an id, not in the table yet
    | Listed                      // in the table, request not written
    | Sent                        // request written, waiting
    | Failing                     // about to take its id off the table
    | Returned(outcome: Outcome)  // the call is over; an operation on a stream may still have a step to do
    | Done(outcome: Outcome)

  /** `ticket` counts the draws before this call's. */
  datatype Call = Call(op: Op, ticket: nat, phase: Phase, inbox: seq<Message>)

  datatype Reader = Idle | Holding(call: nat, message: Message) | Stopped

  datatype Client = Client(draws: nat, pending: map<nat, nat>, calls: map<nat, Call>, reader: Reader, alive: bool)

  function IdOf(ticket: nat): nat {
    (1 + ticket) % ID_SPACE
  }

  /** The counter wraps: two draws give the same id exactly when they are a multiple of 2^64 draws apart. */
  lemma IdsRepeatAfterWrap(a: nat, b: nat)
    ensures IdOf(a) == IdOf(b) <==> a % ID_SPACE == b % ID_SPACE
  {
    SuccessorModulo(a);
    SuccessorModulo(b);
  }

  lemma SuccessorModulo(t: nat)
    ensures IdOf(t) == if t % ID_SPACE == ID_SPACE - 1 then 0 else t % ID_SPACE + 1
  {
  }

  /** Ids count from 1, and after 2^64 - 1 comes 0. */
  lemma FirstAndLastIds()
    ensures IdOf(0) == 1 && IdOf(1) == 2
    ensures IdOf(18446744073709551614) == 18446744073709551615 && IdOf(18446744073709551615) == 0
  {
  }

  /** The counter after a draw, kept in 64 bits, is the id of the next draw. */
  lemma NextId(t: nat)
    ensures IdOf(t + 1) == (IdOf(t) + 1) % ID_SPACE
  {
    SuccessorModulo(t);
    SuccessorModulo(t + 1);
  }

  const INITIAL := Client(0, map[], map[], Idle, true)

  datatype Action =
    | Begin(c: nat, op: Op)
    | Draw(c: nat)
    | Insert(c: nat)
    | Write(c: nat)
    | WriteFails(c: nat)
    | Poisoned(c: nat)
    | Respond(m: Message)
    | Deliver
    | Receive(c: nat)
    | TimeOut(c: nat)
    | TakeOff(c: nat)
    | Finish(c: nat)
    | ReaderExits
    | Shutdown

  predicate In(s: Client, c: nat, p: Phase) {
    c in s.calls && s.calls[c].phase == p
  }

  predicate Enabled(s: Client, a: Action) {
    match a
    case Begin(c, _) => c !in s.calls
    case Draw(c) => In(s, c, Admitted)
    case Insert(c) => In(s, c, Drawn)
    case Write(c) => In(s, c, Listed)
    case WriteFails(c) => In(s, c, Listed)
    case Poisoned(c) => In(s, c, Listed)
    case Respond(_) => s.reader == Idle
    case Deliver => s.reader.Holding?
    case Receive(c) => In(s, c, Sent) && s.calls[c].inbox != []
    case TimeOut(c) => In(s, c, Sent) && s.calls[c].inbox == []
    case TakeOff(c) => In(s, c, Failing)
    case Finish(c) => c in s.calls && s.calls[c].phase.Returned?
    case ReaderExits => s.reader == Idle
    case Shutdown => true
  }

  function Moved(s: Client, c: nat, p: Phase): Client
    requires c in s.calls
  {
    s.(calls := s.calls[c := s.calls[c].(phase := p)])
  }

  function Step(s: Client, a: Action): Client
    requires Enabled(s, a)
  {
    match a
    case Begin(c, op) =>
      s.(calls := s.calls[c := Call(op, 0, if s.alive then Admitted else Returned(Refused), [])])
    case Draw(c) =>
      s.(draws := s.draws + 1, calls := s.calls[c := s.calls[c].(phase := Drawn, ticket := s.draws)])
    case Insert(c) => Moved(s, c, Listed).(pending := s.pending[IdOf(s.calls[c].ticket) := c])
    case Write(c) => Moved(s, c, Sent)
    case WriteFails(c) => Moved(s, c, Failing)
    case Poisoned(c) => Moved(s, c, Failing).(alive := false)
    case Respond(m) =>
      if m.id in s.pending then s.(reader := Holding(s.pending[m.id], m), pending := s.pending - {m.id}) else s
    case Deliver =>
      var c := s.reader.call;
      // a call that is over has dropped its receiver, and the message with it
      if c in s.calls && !s.calls[c].phase.Returned? && !s.calls[c].phase.Done?
      then s.(reader := Idle, calls := s.calls[c := s.calls[c].(inbox := s.calls[c].inbox + [s.reader.message])])
      else s.(reader := Idle)
    case Receive(c) => Moved(s, c, Returned(Answered(s.calls[c].inbox[0])))
    case TimeOut(c) => Moved(s, c, Failing)
    case TakeOff(c) => Moved(s, c, Returned(Failed)).(pending := s.pending - {IdOf(s.calls[c].ticket)})
    case Finish(c) => Moved(s, c, Done(s.calls[c].phase.outcome))
    case ReaderExits => s.(reader := Stopped, alive := false)
    case Shutdown => s.(alive := false)
  }

  predicate Waiting(p: Phase) {
    p == Listed || p == Sent || p == Failing
  }

  /** A message for this call is in the reader's hands or in its inbox. */
  predicate Reached(s: Client, c: nat) {
    c in s.calls && (s.calls[c].inbox != [] || (s.reader.Holding? && s.reader.call == c))
  }

  ghost predicate CallOk(s: Client, c: nat)
    requires c in s.calls
  {
    var k := s.calls[c];
    var id := IdOf(k.ticket);
    if !DrewId(k) then k.inbox == [] && !(s.reader.Holding? && s.reader.call == c)
    else
      && k.ticket < s.draws
      && |k.inbox| <= 1 && (k.inbox != [] ==> k.inbox[0].id == id && !(s.reader.Holding? && s.reader.call == c))
      && (s.reader.Holding? && s.reader.call == c ==> s.reader.message.id == id && k.phase != Drawn)
      && (k.phase == Drawn ==> k.inbox == [])
      && (id in s.pending && s.pending[id] == c ==> Waiting(k.phase) && !Reached(s, c))
      && ((k.phase.Returned? || k.phase.Done?) && k.phase.outcome.Answered? ==>
            k.phase.outcome.message.id == id && k.inbox != [])
  }

  /** Calls that drew an id drew different ones. */
  ghost predicate TicketsDiffer(s: Client) {
    forall c, d | c in s.calls && d in s.calls && c != d :: DrewId(s.calls[c]) && DrewId(s.calls[d]) ==>
      s.calls[c].ticket != s.calls[d].ticket
  }

  predicate DrewId(k: Call) {
    k.phase != Admitted && k.phase != Returned(Refused) && k.phase != Done(Refused)
  }

  ghost predicate Invariant(s: Client) {
    && (forall c | c in s.calls :: CallOk(s, c))
    && TicketsDiffer(s)
    && (forall id | id in s.pending :: s.pending[id] in s.calls && IdOf(s.calls[s.pending[id]].ticket) == id
                                       && DrewId(s.calls[s.pending[id]]))
    && (s.reader.Holding? ==> s.reader.call in s.calls)
  }

  /** A step that changes nothing but the phase of one call keeps the invariant if it keeps that call's part of it. */
  lemma MovedKeepsInvariant(s: Client, t: Client, c: nat, p: Phase)
    requires Invariant(s) && c in s.calls
    requires DrewId(s.calls[c]) <==> p != Admitted && p != Done(Refused) && p != Returned(Refused)
    requires t == Moved(s, c, p).(alive := t.alive)
    requires CallOk(t, c)
    ensures Invariant(t)
  {
    forall d | d in t.calls ensures CallOk(t, d) && t.calls[d].ticket == s.calls[d].ticket {
      if d != c { assert CallOk(s, d); }
    }
  }

  lemma PhaseStepKeepsInvariant(s: Client, a: Action, c: nat, p: Phase)
    requires Invariant(s) && Enabled(s, a) && c in s.calls
    requires a == Write(c) || a == WriteFails(c) || a == Poisoned(c) || a == Receive(c) || a == TimeOut(c)
             || (a == Finish(c) && s.calls[c].phase.Returned?)
    requires p == Step(s, a).calls[c].phase
    ensures Invariant(Step(s, a))
  {
    assert CallOk(s, c);
    MovedKeepsInvariant(s, Step(s, a), c, p);
  }

  lemma BeginKeepsInvariant(s: Client, c: nat, op: Op)
    requires Invariant(s) && Enabled(s, Begin(c, op))
    ensures Invariant(Step(s, Begin(c, op)))
  {
    var t := Step(s, Begin(c, op));
    forall d | d in t.calls ensures CallOk(t, d) {
      if d != c { assert CallOk(s, d); }
    }
  }

  lemma DrawKeepsInvariant(s: Client, c: nat)
    requires Invariant(s) && Enabled(s, Draw(c))
    ensures Invariant(Step(s, Draw(c)))
  {
    var t := Step(s, Draw(c));
    assert CallOk(s, c);
    forall d | d in t.calls ensures CallOk(t, d) {
      if d != c { assert CallOk(s, d); }
    }
    forall d | d in s.calls && DrewId(s.calls[d]) ensures s.calls[d].ticket < s.draws {
      assert CallOk(s, d);
    }
  }

  lemma InsertKeepsCall(s: Client, c: nat, d: nat)
    requires Enabled(s, Insert(c)) && d in s.calls && CallOk(s, d) && CallOk(s, c)
    ensures StaysOk(s, Step(s, Insert(c)), d)
  {
  }

  /** The step leaves this call's draw as it was, and its part of the invariant. */
  ghost predicate StaysOk(s: Client, t: Client, d: nat) {
    && d in s.calls && d in t.calls && CallOk(t, d)
    && t.calls[d].ticket == s.calls[d].ticket && DrewId(t.calls[d]) == DrewId(s.calls[d])
  }

  lemma SameDrawsKeepTicketsApart(s: Client, t: Client)
    requires TicketsDiffer(s) && forall d | d in t.calls :: StaysOk(s, t, d)
    ensures TicketsDiffer(t) && forall d | d in t.calls :: CallOk(t, d)
  {
    forall c, d | c in t.calls && d in t.calls && c != d && DrewId(t.calls[c]) && DrewId(t.calls[d])
      ensures t.calls[c].ticket != t.calls[d].ticket
    {
      assert StaysOk(s, t, c) && StaysOk(s, t, d);
    }
  }

  lemma InsertKeepsInvariant(s: Client, c: nat)
    requires Invariant(s) && Enabled(s, Insert(c))
    ensures Invariant(Step(s, Insert(c)))
  {
    assert CallOk(s, c);
    forall d | d in s.calls ensures StaysOk(s, Step(s, Insert(c)), d) {
      InsertKeepsCall(s, c, d);
    }
    SameDrawsKeepTicketsApart(s, Step(s, Insert(c)));
  }

  lemma RespondKeepsInvariant(s: Client, m: Message)
    requires Invariant(s) && Enabled(s, Respond(m))
    ensures Invariant(Step(s, Respond(m)))
  {
    var t := Step(s, Respond(m));
    if m.id in s.pending {
      var c := s.pending[m.id];
      assert CallOk(s, c);
      forall d | d in t.calls ensures CallOk(t, d) {
        assert CallOk(s, d);
      }
    }
  }

  lemma LetGoKeepsInvariant(s: Client)
    requires Invariant(s) && s.reader.Holding?
    ensures Invariant(s.(reader := Idle))
  {
    forall d | d in s.calls ensures CallOk(s.(reader := Idle), d) {
      assert CallOk(s, d);
    }
  }

  lemma DeliverKeepsInvariant(s: Client)
    requires Invariant(s) && Enabled(s, Deliver)
    ensures Invariant(Step(s, Deliver))
  {
    var t, c := Step(s, Deliver), s.reader.call;
    LetGoKeepsInvariant(s);
    assert CallOk(s, c);
    if t != s.(reader := Idle) {
      forall d | d in t.calls && d != c ensures CallOk(t, d) {
        assert CallOk(s.(reader := Idle), d);
      }
      assert CallOk(t, c);
    }
  }

  lemma TakeOffKeepsCall(s: Client, c: nat, d: nat)
    requires Enabled(s, TakeOff(c)) && d in s.calls && CallOk(s, d)
    ensures StaysOk(s, Step(s, TakeOff(c)), d)
  {
  }

  lemma TakeOffKeepsInvariant(s: Client, c: nat)
    requires Invariant(s) && Enabled(s, TakeOff(c))
    ensures Invariant(Step(s, TakeOff(c)))
  {
    forall d | d in s.calls ensures StaysOk(s, Step(s, TakeOff(c)), d) {
      TakeOffKeepsCall(s, c, d);
    }
    SameDrawsKeepTicketsApart(s, Step(s, TakeOff(c)));
  }

  lemma EndKeepsInvariant(s: Client, a: Action)
    requires Invariant(s) && Enabled(s, a) && (a == ReaderExits || a == Shutdown)
    ensures Invariant(Step(s, a))
  {
    forall d | d in s.calls ensures CallOk(Step(s, a), d) { assert CallOk(s, d); }
  }

  lemma StepKeepsInvariant(s: Client, a: Action)
    requires Invariant(s) && Enabled(s, a)
    ensures Invariant(Step(s, a))
  {
    match a
    case Begin(c, op) => BeginKeepsInvariant(s, c, op);
    case Draw(c) => DrawKeepsInvariant(s, c);
    case Insert(c) => InsertKeepsInvariant(s, c);
    case Write(c) => PhaseStepKeepsInvariant(s, a, c, Step(s, a).calls[c].phase);
    case WriteFails(c) => PhaseStepKeepsInvariant(s, a, c, Step(s, a).calls[c].phase);
    case Poisoned(c) => PhaseStepKeepsInvariant(s, a, c, Step(s, a).calls[c].phase);
    case Respond(m) => RespondKeepsInvariant(s, m);
    case Deliver => DeliverKeepsInvariant(s);
    case Receive(c) => PhaseStepKeepsInvariant(s, a, c, Step(s, a).calls[c].phase);
    case TimeOut(c) => PhaseStepKeepsInvariant(s, a, c, Step(s, a).calls[c].phase);
    case TakeOff(c) => TakeOffKeepsInvariant(s, c);
    case Finish(c) => PhaseStepKeepsInvariant(s, a, c, Step(s, a).calls[c].phase);
    case ReaderExits => EndKeepsInvariant(s, a);
    case Shutdown => EndKeepsInvariant(s, a);
  }

  ghost predicate IsRun(states: seq<Client>, actions: seq<Action>) {
    && |states| == |actions| + 1
    && states[0] == INITIAL
    && forall k | 0 <= k < |actions| :: Enabled(states[k], actions[k]) && states[k + 1] == Step(states[k], actions[k])
  }

  lemma {:induction false} RunKeepsInvariant(states: seq<Client>, actions: seq<Action>, k: nat)
    requires IsRun(states, actions) && k < |states|
    ensures Invariant(states[k])
  {
    if k > 0 {
      RunKeepsInvariant(states, actions, k - 1);
      StepKeepsInvariant(states[k - 1], actions[k - 1]);
    }
  }

  /** Over every run: a call is answered only by a response to the id it drew, it holds at most one response, and
      once it is over, however it ended, the table has no entry of this call. */
  lemma ResponsesReachTheirCallOnly(states: seq<Client>, actions: seq<Action>, k: nat, c: nat)
    requires IsRun(states, actions) && k < |states| && c in states[k].calls && DrewId(states[k].calls[c])
    ensures
      var s := states[k];
      var call := s.calls[c];
      var id := IdOf(call.ticket);
      && |call.inbox| <= 1
      && (forall m | m in call.inbox :: m.id == id)
      && (call.phase.Returned? || call.phase.Done? ==>
            && (forall x | x in s.pending :: s.pending[x] != c)
            && (call.phase.outcome.Answered? ==> call.phase.outcome.message.id == id))
  {
    RunKeepsInvariant(states, actions, k);
    assert CallOk(states[k], c);
  }

  /** When every call is over, nothing is pending. */
  lemma QuiescentTableIsEmpty(states: seq<Client>, actions: seq<Action>, k: nat)
    requires IsRun(states, actions) && k < |states|
    requires forall c | c in states[k].calls :: states[k].calls[c].phase.Done?
    ensures states[k].pending == map[]
  {
    var s := states[k];
    RunKeepsInvariant(states, actions, k);
    assert forall id | id in s.pending :: CallOk(s, s.pending[id]);
    assert forall id :: id !in s.pending;
  }

  /** Two calls of a run share an id exactly when their draws are a multiple of 2^64 apart, which they never are in
      the first 2^64 draws. */
  lemma IdsAreUnique(states: seq<Client>, actions: seq<Action>, k: nat, c: nat, d: nat)
    requires IsRun(states, actions) && k < |states| && c in states[k].calls && d in states[k].calls && c != d
    requires DrewId(states[k].calls[c]) && DrewId(states[k].calls[d])
    ensures
      var t, u := states[k].calls[c].ticket, states[k].calls[d].ticket;
      && t != u && (IdOf(t) == IdOf(u) <==> t % ID_SPACE == u % ID_SPACE)
      && (states[k].draws <= ID_SPACE ==> IdOf(t) != IdOf(u))
  {
    var s := states[k];
    RunKeepsInvariant(states, actions, k);
    assert CallOk(s, c) && CallOk(s, d);
    IdsRepeatAfterWrap(s.calls[c].ticket, s.calls[d].ticket);
  }

  // ----- once the client is dead

  lemma {:induction false} DeadForGood(states: seq<Client>, actions: seq<Action>, i: nat, k: nat)
    requires IsRun(states, actions) && i <= k < |states| && !states[i].alive
    ensures !states[k].alive
  {
    if i < k {
      DeadForGood(states, actions, i, k - 1);
    }
  }

  ghost predicate WasRefused(s: Client, c: nat) {
    c in s.calls && (s.calls[c].phase == Returned(Refused) || s.calls[c].phase == Done(Refused))
  }

  lemma StaysRefused(s: Client, a: Action, c: nat)
    requires Enabled(s, a) && WasRefused(s, c)
    ensures WasRefused(Step(s, a), c)
  {
  }

  /** A call that began on a dead client. */
  lemma {:induction false} RefusedFromThen(
    states: seq<Client>, actions: seq<Action>, j: nat, k: nat, c: nat, op: Op)
    requires IsRun(states, actions) && j < k < |states| && !states[j].alive && actions[j] == Begin(c, op)
    ensures WasRefused(states[k], c)
  {
    if k == j + 1 {
      RefusedNext(states, actions, j, c, op);
    } else {
      RefusedFromThen(states, actions, j, k - 1, c, op);
      StillRefused(states, actions, k - 1, c);
    }
  }

  lemma RefusedNext(states: seq<Client>, actions: seq<Action>, j: nat, c: nat, op: Op)
    requires IsRun(states, actions) && j < |actions| && !states[j].alive && actions[j] == Begin(c, op)
    ensures WasRefused(states[j + 1], c)
  {
    DeadRefuses(states[j], c, op);
  }

  lemma StillRefused(states: seq<Client>, actions: seq<Action>, k: nat, c: nat)
    requires IsRun(states, actions) && k < |actions| && WasRefused(states[k], c)
    ensures WasRefused(states[k + 1], c)
  {
    StaysRefused(states[k], actions[k], c);
  }

  lemma DeadRefuses(s: Client, c: nat, op: Op)
    requires Enabled(s, Begin(c, op)) && !s.alive
    ensures WasRefused(Step(s, Begin(c, op)), c)
  {
  }

  lemma RefusedHasNoEntry(s: Client, c: nat)
    requires Invariant(s) && WasRefused(s, c)
    ensures !DrewId(s.calls[c]) && forall id | id in s.pending :: s.pending[id] != c
  {
  }

  predicate Kills(a: Action) {
    a == ReaderExits || a == Shutdown || a.Poisoned?
  }

  /** After the reader has exited, the write lock was found poisoned, or the client was shut down, every call that
      begins is refused for good: it draws no id and has no entry in the table, ever. */
  lemma NoCallAfterDeath(states: seq<Client>, actions: seq<Action>, i: nat, j: nat, k: nat, c: nat, op: Op)
    requires IsRun(states, actions) && i < j < k < |states| && Kills(actions[i]) && actions[j] == Begin(c, op)
    ensures WasRefused(states[k], c) && !DrewId(states[k].calls[c])
    ensures forall id | id in states[k].pending :: states[k].pending[id] != c
  {
    assert !states[i + 1].alive;
    DeadForGood(states, actions, i + 1, j);
    RefusedFromThen(states, actions, j, k, c, op);
    RunKeepsInvariant(states, actions, k);
    RefusedHasNoEntry(states[k], c);
  }

  // ----- no call loses its entry unless ids are shared

  /** Each call that waits for a response has its entry in the table. */
  ghost predicate EntriesKept(s: Client) {
    forall c | c in s.calls && Waiting(s.calls[c].phase) && !Reached(s, c) :: HasEntry(s, c)
  }

  predicate HasEntry(s: Client, c: nat)
    requires c in s.calls
  {
    var id := IdOf(s.calls[c].ticket);
    id in s.pending && s.pending[id] == c
  }

  /** The step enters a call over another's entry, or takes another's entry off for its own. */
  predicate Displaces(s: Client, a: Action)
    requires Enabled(s, a)
  {
    match a
    case Insert(c) => IdOf(s.calls[c].ticket) in s.pending
    case TakeOff(c) => IdOf(s.calls[c].ticket) in s.pending && !HasEntry(s, c)
    case _ => false
  }

  lemma DisplacedIsLost(s: Client, a: Action)
    requires Invariant(s) && Enabled(s, a) && Displaces(s, a)
    ensures !EntriesKept(Step(s, a))
  {
    var c := a.c;
    var d := s.pending[IdOf(s.calls[c].ticket)];
    assert CallOk(s, d) && CallOk(s, c);
    var t := Step(s, a);
    assert c != d && t.calls[d] == s.calls[d] && !HasEntry(t, d) && !Reached(t, d);
  }

  /** A call that waits unanswered after a step did so before, unless the step entered it. */
  lemma WaitedBefore(s: Client, a: Action, c: nat)
    requires Enabled(s, a) && (c in s.calls ==> CallOk(s, c))
    requires c in Step(s, a).calls && Waiting(Step(s, a).calls[c].phase) && !Reached(Step(s, a), c) && a != Insert(c)
    ensures c in s.calls && Waiting(s.calls[c].phase) && s.calls[c].ticket == Step(s, a).calls[c].ticket
    ensures !Reached(s, c)
  {
    assert c in s.calls;
  }

  lemma EntryStays(s: Client, a: Action, c: nat)
    requires Invariant(s) && Enabled(s, a) && !Displaces(s, a) && c in s.calls && HasEntry(s, c)
    requires c in Step(s, a).calls && s.calls[c].ticket == Step(s, a).calls[c].ticket
    requires Waiting(Step(s, a).calls[c].phase) && !Reached(Step(s, a), c)
    ensures HasEntry(Step(s, a), c)
  {
  }

  lemma UndisplacedIsKept(s: Client, a: Action)
    requires Invariant(s) && EntriesKept(s) && Enabled(s, a) && !Displaces(s, a)
    ensures EntriesKept(Step(s, a))
  {
    var t := Step(s, a);
    forall c | c in t.calls && Waiting(t.calls[c].phase) && !Reached(t, c) ensures HasEntry(t, c) {
      if a != Insert(c) {
        WaitedBefore(s, a, c);
        EntryStays(s, a, c);
      }
    }
  }

  lemma {:induction false} KeptWhileUndisplaced(states: seq<Client>, actions: seq<Action>, k: nat)
    requires IsRun(states, actions) && k < |states|
    requires forall j | 0 <= j < k :: !Displaces(states[j], actions[j])
    ensures EntriesKept(states[k])
  {
    if k > 0 {
      KeptWhileUndisplaced(states, actions, k - 1);
      RunKeepsInvariant(states, actions, k - 1);
      UndisplacedIsKept(states[k - 1], actions[k - 1]);
    }
  }

  /** Up to any point of a run, every waiting call has had its entry all along if and only if no call entered the table
      over another's entry or took another's entry off. */
  lemma EntriesAreKeptUnlessDisplaced(states: seq<Client>, actions: seq<Action>, k: nat)
    requires IsRun(states, actions) && k < |states|
    ensures (forall j | 0 <= j <= k :: EntriesKept(states[j]))
       <==> (forall j | 0 <= j < k :: !Displaces(states[j], actions[j]))
  {
    if j :| 0 <= j < k && Displaces(states[j], actions[j]) {
      RunKeepsInvariant(states, actions, j);
      DisplacedIsLost(states[j], actions[j]);
      assert !EntriesKept(states[j + 1]);
    } else {
      forall j | 0 <= j <= k ensures EntriesKept(states[j]) {
        KeptWhileUndisplaced(states, actions, j);
      }
    }
  }

  /** The call holds an id it may still use on the table. */
  predicate Open(k: Call) {
    k.phase == Drawn || Waiting(k.phase)
  }

  /** No id is drawn while an open call holds it. */
  ghost predicate DrawsAreFree(states: seq<Client>, actions: seq<Action>, k: nat)
    requires |states| == |actions| + 1
  {
    forall j, d | 0 <= j < k && j < |actions| && actions[j].Draw? && d in states[j].calls && Open(states[j].calls[d]) ::
      IdOf(states[j].calls[d].ticket) != IdOf(states[j].draws)
  }

  ghost predicate NoSharing(s: Client) {
    forall c, d | c in s.calls && d in s.calls && c != d && Open(s.calls[c]) && Open(s.calls[d]) ::
      IdOf(s.calls[c].ticket) != IdOf(s.calls[d].ticket)
  }

  lemma OpenBefore(s: Client, a: Action, c: nat)
    requires Enabled(s, a) && c in Step(s, a).calls && Open(Step(s, a).calls[c]) && a != Draw(c)
    ensures c in s.calls && Open(s.calls[c]) && Step(s, a).calls[c].ticket == s.calls[c].ticket
  {
  }

  lemma FreeDrawKeepsNoSharing(s: Client, a: Action)
    requires NoSharing(s) && Enabled(s, a)
    requires a.Draw? ==> forall d | d in s.calls && Open(s.calls[d]) :: IdOf(s.calls[d].ticket) != IdOf(s.draws)
    ensures NoSharing(Step(s, a))
  {
    var t := Step(s, a);
    forall c | c in t.calls && Open(t.calls[c]) && a != Draw(c)
      ensures c in s.calls && Open(s.calls[c]) && t.calls[c].ticket == s.calls[c].ticket
    {
      OpenBefore(s, a, c);
    }
  }

  lemma {:induction false} FreeDrawsShareNothing(states: seq<Client>, actions: seq<Action>, k: nat)
    requires IsRun(states, actions) && k < |states| && DrawsAreFree(states, actions, k)
    ensures NoSharing(states[k])
  {
    if k > 0 {
      FreeDrawsShareNothing(states, actions, k - 1);
      FreeDrawKeepsNoSharing(states[k - 1], actions[k - 1]);
    }
  }

  lemma NoSharingDisplacesNothing(s: Client, a: Action)
    requires Invariant(s) && NoSharing(s) && Enabled(s, a)
    ensures !Displaces(s, a)
  {
    assert forall id | id in s.pending :: CallOk(s, s.pending[id]) && Open(s.calls[s.pending[id]]);
  }

  /** As long as no id is drawn while an open call holds it, no waiting call ever loses its entry, so that a response to
      its id is handed to it. */
  lemma FreeDrawsLoseNothing(states: seq<Client>, actions: seq<Action>, k: nat, c: nat, m: Message)
    requires IsRun(states, actions) && k < |states| && DrawsAreFree(states, actions, k)
    requires c in states[k].calls && Waiting(states[k].calls[c].phase) && !Reached(states[k], c)
    ensures HasEntry(states[k], c)
    ensures m.id == IdOf(states[k].calls[c].ticket) && Enabled(states[k], Respond(m)) ==>
              Step(states[k], Respond(m)).reader == Holding(c, m)
  {
    forall j | 0 <= j < k ensures !Displaces(states[j], actions[j]) {
      RunKeepsInvariant(states, actions, j);
      FreeDrawsShareNothing(states, actions, j);
      NoSharingDisplacesNothing(states[j], actions[j]);
    }
    KeptWhileUndisplaced(states, actions, k);
  }

  // ----- and a run in which they are

  lemma OneMore(states: seq<Client>, actions: seq<Action>, a: Action) returns (more: seq<Client>, all: seq<Action>)
    requires IsRun(states, actions) && Enabled(states[|states| - 1], a)
    ensures IsRun(more, all) && more[|more| - 1] == Step(states[|states| - 1], a)
  {
    more, all := states + [Step(states[|states| - 1], a)], actions + [a];
  }

  /** Call 0 waits, and `n` - 1 more calls have drawn their ids. */
  ghost predicate ManyDrawn(s: Client, n: nat) {
    && s.draws == n && s.alive && s.reader == Idle && s.pending == map[IdOf(0) := 0]
    && 0 in s.calls && s.calls[0] == Call(Plain, 0, Listed, [])
    && (forall c | 0 < c < n :: c in s.calls && s.calls[c] == Call(Plain, c, Drawn, []))
    && (forall c | c in s.calls :: c < n)
  }

  lemma {:induction false} DrawMany(n: nat) returns (states: seq<Client>, actions: seq<Action>)
    requires n > 0
    ensures IsRun(states, actions) && ManyDrawn(states[|states| - 1], n)
  {
    if n == 1 {
      states, actions := [INITIAL], [];
      states, actions := OneMore(states, actions, Begin(0, Plain));
      states, actions := OneMore(states, actions, Draw(0));
      states, actions := OneMore(states, actions, Insert(0));
    } else {
      states, actions := DrawMany(n - 1);
      states, actions := OneMore(states, actions, Begin(n - 1, Plain));
      states, actions := OneMore(states, actions, Draw(n - 1));
    }
  }

  /** After 2^64 more draws a call gets the id of one that still waits; entering it loses the other's entry, and a
      response to that id goes to the newcomer. */
  lemma SharedIdLosesEntry() returns (states: seq<Client>, actions: seq<Action>)
    ensures IsRun(states, actions)
    ensures
      var s := states[|states| - 1];
      && 0 in s.calls && Waiting(s.calls[0].phase) && !Reached(s, 0) && !HasEntry(s, 0)
      && ID_SPACE in s.calls && Open(s.calls[ID_SPACE]) && HasEntry(s, ID_SPACE)
      && IdOf(s.calls[0].ticket) == IdOf(s.calls[ID_SPACE].ticket)
  {
    var n := ID_SPACE;
    states, actions := DrawMany(n + 1);
    IdsRepeatAfterWrap(0, n);
    states, actions := OneMore(states, actions, Insert(n));
  }
}

/** The streams a client subscribes to, on top of its calls. */
module RpcStreams {
  import opened Common
  import opened Rpc
  import opened Streams

  datatype Event = Data(bytes: seq<Byte>) | Eof(last: Option<seq<Byte>>) | Error(text: string)

  /** What the reader handed on and what touched the subscription table, in order: every recognised push, every
      acknowledgement that reached the call that was to subscribe, every insertion and removal. */
  datatype Entry =
    | Pushed(stream: nat, event: Event)
    | Acknowledged(stream: nat, call: nat)
    | Inserted(stream: nat, call: nat)
    | Removed(stream: nat)

  /** The receiving end a subscription hands out: the log position of its insertion and what was sent to it. */
  datatype Receiver = Receiver(stream: nat, since: nat, got: seq<Event>)

  datatype Hub = Hub(client: Client, subs: map<nat, nat>, receivers: map<nat, Receiver>, log: seq<Entry>)

  datatype HubAction = CallStep(a: Action) | Push(stream: nat, event: Event)

  const EMPTY := Hub(Rpc.INITIAL, map[], map[], [])

  predicate Possible(h: Hub, a: HubAction) {
    match a
    case CallStep(b) => Enabled(h.client, b)
    case Push(_, _) => h.client.reader == Idle
  }

  /** The reader is about to hand a success to a call that waits to subscribe. */
  predicate Acknowledges(s: Client) {
    && s.reader.Holding? && s.reader.message.ok && s.reader.call in s.calls
    && var k := s.calls[s.reader.call];
       k.op.Subscribe? && !k.phase.Returned? && !k.phase.Done?
  }

  /** A subscribing call that is answered well enters the table, over any earlier one of its stream; a closing
      call takes its stream off the table whatever came of it. */
  function AfterCall(h: Hub, b: Action): Hub
    requires Enabled(h.client, b)
  {
    var next := h.(client := Step(h.client, b));
    if b == Deliver && Acknowledges(h.client) then
      next.(log := h.log + [Acknowledged(h.client.calls[h.client.reader.call].op.stream, h.client.reader.call)])
    else if !b.Finish? then next
    else
      var op := h.client.calls[b.c].op;
      var outcome := h.client.calls[b.c].phase.outcome;
      if op.Subscribe? && outcome.Answered? && outcome.message.ok then
        next.(subs := h.subs[op.stream := b.c],
              receivers := h.receivers[b.c := Receiver(op.stream, |h.log|, [])],
              log := h.log + [Inserted(op.stream, b.c)])
      else if op.Close? then
        next.(subs := h.subs - {op.stream}, log := h.log + [Removed(op.stream)])
      else next
  }

  function AfterPush(h: Hub, stream: nat, event: Event): Hub {
    var next := h.(log := h.log + [Pushed(stream, event)]);
    if stream !in h.subs || h.subs[stream] !in h.receivers then next
    else
      var r := h.receivers[h.subs[stream]];
      next.(receivers := h.receivers[h.subs[stream] := r.(got := r.got + [event])])
  }

  function HubStep(h: Hub, a: HubAction): Hub
    requires Possible(h, a)
  {
    match a
    case CallStep(b) => AfterCall(h, b)
    case Push(stream, event) => AfterPush(h, stream, event)
  }

  /** A subscribing call that was told of success takes over its stream, with nothing received yet; a closing call
      leaves its stream to nobody, whatever it was told; no other call touches the subscriptions. */
  lemma FinishSubscribesOrCloses(h: Hub, c: nat)
    requires Enabled(h.client, Finish(c))
    ensures
      var g, k := AfterCall(h, Finish(c)), h.client.calls[c];
      match k.op
      case Plain => g.subs == h.subs && g.receivers == h.receivers && g.log == h.log
      case Close(stream) =>
        g.subs == h.subs - {stream} && g.receivers == h.receivers && g.log == h.log + [Removed(stream)]
      case Subscribe(stream) =>
        if k.phase.outcome.Answered? && k.phase.outcome.message.ok then
          && g.subs == h.subs[stream := c] && g.log == h.log + [Inserted(stream, c)]
          && g.receivers == h.receivers[c := Receiver(stream, |h.log|, [])]
        else g.subs == h.subs && g.receivers == h.receivers && g.log == h.log
  {
  }

  // ----- the window a receiver is to see, read off the log alone

  /** The pushes of one stream, in order. */
  function PushesOn(log: seq<Entry>, stream: nat): seq<Event> {
    if log == [] then []
    else
      var last := log[|log| - 1];
      PushesOn(log[..|log| - 1], stream) + if last.Pushed? && last.stream == stream then [last.event] else []
  }

  /** What each receiver was sent. */
  function Channels(h: Hub): map<nat, seq<Event>> {
    map c | c in h.receivers :: h.receivers[c].got
  }

  predicate Ends(e: Entry, stream: nat) {
    (e.Inserted? || e.Removed?) && e.stream == stream
  }

  /** The first position at or after `from` where the stream's table entry is replaced or removed. */
  function EndOf(log: seq<Entry>, from: nat, stream: nat): (k: nat)
    requires from <= |log|
    ensures from <= k <= |log|
    ensures forall i | from <= i < k :: !Ends(log[i], stream)
    ensures k < |log| ==> Ends(log[k], stream)
    decreases |log| - from
  {
    if from == |log| || Ends(log[from], stream) then from else EndOf(log, from + 1, stream)
  }

  /** The stream's pushes between its insertion at `since` and its end. */
  function Window(log: seq<Entry>, since: nat, stream: nat): seq<Event>
    requires since < |log|
  {
    PushesOn(log[since + 1..EndOf(log, since + 1, stream)], stream)
  }

  lemma {:induction false} EndAfterEntry(log: seq<Entry>, from: nat, stream: nat, e: Entry)
    requires from <= |log|
    ensures EndOf(log + [e], from, stream) ==
            if EndOf(log, from, stream) < |log| then EndOf(log, from, stream)
            else if Ends(e, stream) then |log| else |log| + 1
    decreases |log| - from
  {
    if from < |log| && !Ends(log[from], stream) {
      EndAfterEntry(log, from + 1, stream, e);
    }
  }

  /** What one more log entry does to a window: only a push of its stream, while it is open, extends it. */
  lemma WindowAfterEntry(log: seq<Entry>, since: nat, stream: nat, e: Entry)
    requires since < |log|
    ensures
      var open := EndOf(log, since + 1, stream) == |log|;
      Window(log + [e], since, stream) ==
      Window(log, since, stream) + if open && e.Pushed? && e.stream == stream then [e.event] else []
  {
    EndAfterEntry(log, since + 1, stream, e);
    var k := EndOf(log, since + 1, stream);
    var more := log + [e];
    if k == |log| && !Ends(e, stream) {
      assert more[since + 1..|log| + 1] == log[since + 1..] + [e];
      var w := log[since + 1..] + [e];
      assert w[..|w| - 1] == log[since + 1..k];
    } else {
      assert more[since + 1..k] == log[since + 1..k];
    }
  }

  /** The receiver holds its window of the log, and is in the table exactly while the window is open. */
  ghost predicate Fits(log: seq<Entry>, subs: map<nat, nat>, r: Receiver, c: nat) {
    && r.since < |log| && log[r.since] == Inserted(r.stream, c)
    && r.got == Window(log, r.since, r.stream)
    && (r.stream in subs && subs[r.stream] == c <==> EndOf(log, r.since + 1, r.stream) == |log|)
  }

  ghost predicate Finished(s: Client, c: nat) {
    c in s.calls && s.calls[c].phase.Done?
  }

  ghost predicate HubInvariant(h: Hub) {
    && (forall c | c in h.receivers :: Fits(h.log, h.subs, h.receivers[c], c) && Finished(h.client, c))
    && (forall stream | stream in h.subs ::
          h.subs[stream] in h.receivers && h.receivers[h.subs[stream]].stream == stream)
  }

  /** Whoever the stream is subscribed by receives that stream, as the invariant has it. */
  ghost predicate KnowsSubscriber(h: Hub, stream: nat) {
    stream in h.subs ==> h.subs[stream] in h.receivers && h.receivers[h.subs[stream]].stream == stream
  }

  lemma ChannelsAfterPush(h: Hub, stream: nat, event: Event)
    requires stream in h.subs && KnowsSubscriber(h, stream)
    ensures Channels(AfterPush(h, stream, event))
         == Channels(h)[h.subs[stream] := Channels(h)[h.subs[stream]] + [event]]
  {
  }

  /** A push is sent on its subscriber's channel, if it has one, and changes nothing else that is shared. */
  lemma PushShared(h: Hub, stream: nat, event: Event)
    requires KnowsSubscriber(h, stream) && Possible(h, HubAction.Push(stream, event))
    ensures
      var t := HubStep(h, HubAction.Push(stream, event));
      && t.client == h.client && t.subs == h.subs
      && (stream !in h.subs ==> Channels(t) == Channels(h))
      && (stream in h.subs ==>
            && h.subs[stream] in h.receivers
            && Channels(t) == Channels(h)[h.subs[stream] := Channels(h)[h.subs[stream]] + [event]])
  {
    if stream in h.subs {
      ChannelsAfterPush(h, stream, event);
    }
  }

  lemma FitsAfterPush(log: seq<Entry>, subs: map<nat, nat>, r: Receiver, c: nat, stream: nat, event: Event)
    requires Fits(log, subs, r, c)
    ensures Fits(log + [Pushed(stream, event)], subs,
                 if stream in subs && subs[stream] == c && r.stream == stream then r.(got := r.got + [event]) else r, c)
  {
    WindowAfterEntry(log, r.since, r.stream, Pushed(stream, event));
    EndAfterEntry(log, r.since + 1, r.stream, Pushed(stream, event));
  }

  lemma PushedReceiver(h: Hub, stream: nat, event: Event, c: nat)
    requires c in h.receivers && KnowsSubscriber(h, stream)
    ensures
      var r := h.receivers[c];
      && c in AfterPush(h, stream, event).receivers
      && AfterPush(h, stream, event).receivers[c] ==
         if stream in h.subs && h.subs[stream] == c && r.stream == stream then r.(got := r.got + [event]) else r
  {
  }

  lemma PushFits(h: Hub, stream: nat, event: Event, c: nat)
    requires HubInvariant(h) && c in h.receivers
    ensures
      var g := AfterPush(h, stream, event);
      && c in g.receivers && g.receivers[c].stream == h.receivers[c].stream
      && Fits(g.log, g.subs, g.receivers[c], c)
  {
    PushedReceiver(h, stream, event, c);
    FitsAfterPush(h.log, h.subs, h.receivers[c], c, stream, event);
  }

  lemma PushKeepsInvariant(h: Hub, stream: nat, event: Event)
    requires HubInvariant(h)
    ensures HubInvariant(AfterPush(h, stream, event))
  {
    var g := AfterPush(h, stream, event);
    assert g.receivers.Keys == h.receivers.Keys;
    forall c | c in g.receivers
      ensures Fits(g.log, g.subs, g.receivers[c], c) && g.receivers[c].stream == h.receivers[c].stream
    {
      PushFits(h, stream, event, c);
    }
  }

  lemma FitsAfterInsertion(log: seq<Entry>, subs: map<nat, nat>, r: Receiver, c: nat, stream: nat, d: nat)
    requires Fits(log, subs, r, c) && c != d
    ensures Fits(log + [Inserted(stream, d)], subs[stream := d], r, c)
  {
    WindowAfterEntry(log, r.since, r.stream, Inserted(stream, d));
    EndAfterEntry(log, r.since + 1, r.stream, Inserted(stream, d));
  }

  lemma FitsAfterRemoval(log: seq<Entry>, subs: map<nat, nat>, r: Receiver, c: nat, stream: nat)
    requires Fits(log, subs, r, c)
    ensures Fits(log + [Removed(stream)], subs - {stream}, r, c)
  {
    WindowAfterEntry(log, r.since, r.stream, Removed(stream));
    EndAfterEntry(log, r.since + 1, r.stream, Removed(stream));
  }

  lemma NewReceiverFits(log: seq<Entry>, subs: map<nat, nat>, stream: nat, d: nat)
    ensures Fits(log + [Inserted(stream, d)], subs[stream := d], Receiver(stream, |log|, []), d)
  {
    var more := log + [Inserted(stream, d)];
    assert more[|log| + 1..|more|] == [];
  }

  lemma InsertionKeepsInvariant(h: Hub, g: Hub, stream: nat, d: nat)
    requires HubInvariant(h) && d !in h.receivers && Finished(g.client, d)
    requires forall c | c in h.receivers :: Finished(g.client, c)
    requires g.log == h.log + [Inserted(stream, d)] && g.subs == h.subs[stream := d]
    requires g.receivers == h.receivers[d := Receiver(stream, |h.log|, [])]
    ensures HubInvariant(g)
  {
    forall c | c in g.receivers ensures Fits(g.log, g.subs, g.receivers[c], c) {
      if c == d {
        NewReceiverFits(h.log, h.subs, stream, d);
      } else {
        FitsAfterInsertion(h.log, h.subs, h.receivers[c], c, stream, d);
      }
    }
  }

  lemma RemovalKeepsInvariant(h: Hub, g: Hub, stream: nat)
    requires HubInvariant(h) && forall c | c in h.receivers :: Finished(g.client, c)
    requires g.log == h.log + [Removed(stream)] && g.subs == h.subs - {stream} && g.receivers == h.receivers
    ensures HubInvariant(g)
  {
    forall c | c in g.receivers ensures Fits(g.log, g.subs, g.receivers[c], c) {
      FitsAfterRemoval(h.log, h.subs, h.receivers[c], c, stream);
    }
  }

  lemma AcknowledgementKeepsInvariant(h: Hub, g: Hub, e: Entry)
    requires HubInvariant(h) && forall c | c in h.receivers :: Finished(g.client, c)
    requires e.Acknowledged? && g.log == h.log + [e] && g.subs == h.subs && g.receivers == h.receivers
    ensures HubInvariant(g)
  {
    forall c | c in g.receivers ensures Fits(g.log, g.subs, g.receivers[c], c) {
      FitsAfterAcknowledgement(h.log, h.subs, h.receivers[c], c, e);
    }
  }

  lemma FitsAfterAcknowledgement(log: seq<Entry>, subs: map<nat, nat>, r: Receiver, c: nat, e: Entry)
    requires Fits(log, subs, r, c) && e.Acknowledged?
    ensures Fits(log + [e], subs, r, c)
  {
    WindowAfterEntry(log, r.since, r.stream, e);
    EndAfterEntry(log, r.since + 1, r.stream, e);
  }

  /** A call that is over stays so. */
  lemma DoneStaysDone(s: Client, a: Action, c: nat)
    requires Enabled(s, a) && Finished(s, c)
    ensures Finished(Step(s, a), c)
  {
  }

  lemma CallStepKeepsInvariant(h: Hub, b: Action)
    requires HubInvariant(h) && Enabled(h.client, b)
    ensures HubInvariant(AfterCall(h, b))
  {
    var g := AfterCall(h, b);
    forall c | c in h.receivers ensures Finished(g.client, c) {
      DoneStaysDone(h.client, b, c);
    }
    if b == Deliver && Acknowledges(h.client) {
      AcknowledgementKeepsInvariant(h, g, g.log[|h.log|]);
    } else if |g.log| > |h.log| {
      var op := h.client.calls[b.c].op;
      if op.Subscribe? {
        InsertionKeepsInvariant(h, g, op.stream, b.c);
      } else {
        RemovalKeepsInvariant(h, g, op.stream);
      }
    }
  }

  lemma HubStepKeepsInvariant(h: Hub, a: HubAction)
    requires HubInvariant(h) && Possible(h, a)
    ensures HubInvariant(HubStep(h, a))
  {
    match a
    case Push(stream, event) => PushKeepsInvariant(h, stream, event);
    case CallStep(b) => CallStepKeepsInvariant(h, b);
  }

  ghost predicate IsHubRun(states: seq<Hub>, actions: seq<HubAction>) {
    && |states| == |actions| + 1
    && states[0] == EMPTY
    && forall k | 0 <= k < |actions| ::
         Possible(states[k], actions[k]) && states[k + 1] == HubStep(states[k], actions[k])
  }

  lemma {:induction false} HubRunKeepsInvariant(states: seq<Hub>, actions: seq<HubAction>, k: nat)
    requires IsHubRun(states, actions) && k < |states|
    ensures HubInvariant(states[k])
  {
    if k > 0 {
      HubRunKeepsInvariant(states, actions, k - 1);
      HubStepKeepsInvariant(states[k - 1], actions[k - 1]);
    }
  }

  /** Over every run, what a receiver was sent is exactly its stream's pushes from the insertion of its subscription
      up to the first removal or replacement after that, in order and without repeats or gaps. */
  lemma ReceiversSeeTheirWindow(states: seq<Hub>, actions: seq<HubAction>, k: nat, c: nat)
    requires IsHubRun(states, actions) && k < |states| && c in states[k].receivers
    ensures
      var h := states[k];
      var r := h.receivers[c];
      && r.since < |h.log| && h.log[r.since] == Inserted(r.stream, c)
      && r.got == Window(h.log, r.since, r.stream)
  {
    HubRunKeepsInvariant(states, actions, k);
    assert Fits(states[k].log, states[k].subs, states[k].receivers[c], c);
  }
}
