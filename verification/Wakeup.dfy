/**
 Coalescing of wakeups into ticks of the main loop, up to and past the shutdown that takes the app pointer away. Any
 number of threads report wakeups while callbacks run in any order, on any thread, nested or not; each step below is one
 atomic action of the program.
 */
module Wakeup {
  /** How far a reported wakeup has come. The caller that finds the flag clear carries on as the callback it posts. */
  datatype Phase =
    | Ignored    // found no app pointer
    | Checked    // the app pointer was seen set
    | Joined     // the flag was already set
    | Won        // set the flag, callback not posted yet
    | Posted     // callback waiting to run
    | Cleared    // callback has cleared the flag
    | Skipped    // callback found no app pointer
    | Ticked     // callback has started its tick

  /** The shutdown nulls the app pointer and then clears the flag. */
  datatype Stage = Running | Nulled | Over

  /** What happened, in order: swaps of the flag, and whether they found it clear; clearings of it, by a callback or by
      the shutdown; the nulling; and how a callback's second look at the pointer ended. */
  datatype Event = Swapped(call: nat, won: bool) | Lowered | PointerNulled | TickStarted(call: nat) | GaveUp(call: nat)

  datatype State = State(pending: bool, pointerSet: bool, stage: Stage, calls: map<nat, Phase>, log: seq<Event>)

  const INITIAL := State(false, false, Running, map[], [])

  datatype Action =
    | SetPointer
    | NullPointer
    | ClearFlag
    | Enter(call: nat)
    | Swap(call: nat)
    | Post(call: nat)
    | Clear(call: nat)
    | Tick(call: nat)

  predicate At(s: State, call: nat, p: Phase) {
    call in s.calls && s.calls[call] == p
  }

  /** The shutdown comes once, after the start-up that sets the pointer. */
  predicate Enabled(s: State, a: Action) {
    match a
    case SetPointer => s.stage == Running
    case NullPointer => s.stage == Running
    case ClearFlag => s.stage == Nulled
    case Enter(c) => c !in s.calls
    case Swap(c) => At(s, c, Checked)
    case Post(c) => At(s, c, Won)
    case Clear(c) => At(s, c, Posted)
    case Tick(c) => At(s, c, Cleared)
  }

  function Moved(s: State, c: nat, p: Phase, more: seq<Event>): State {
    s.(calls := s.calls[c := p], log := s.log + more)
  }

  function Step(s: State, a: Action): State
    requires Enabled(s, a)
  {
    match a
    case SetPointer => s.(pointerSet := true)
    case NullPointer => s.(pointerSet := false, stage := Nulled, log := s.log + [PointerNulled])
    case ClearFlag => s.(pending := false, stage := Over, log := s.log + [Lowered])
    case Enter(c) => Moved(s, c, if s.pointerSet then Checked else Ignored, [])
    case Swap(c) => Moved(s, c, if s.pending then Joined else Won, [Swapped(c, !s.pending)]).(pending := true)
    case Post(c) => Moved(s, c, Posted, [])
    case Clear(c) => Moved(s, c, Cleared, [Lowered]).(pending := false)
    case Tick(c) =>
      if s.pointerSet then Moved(s, c, Ticked, [TickStarted(c)]) else Moved(s, c, Skipped, [GaveUp(c)])
  }

  /** A history: consecutive states are related by enabled actions. */
  ghost predicate IsRun(states: seq<State>, actions: seq<Action>) {
    && |states| == |actions| + 1
    && states[0] == INITIAL
    && forall k | 0 <= k < |actions| :: Enabled(states[k], actions[k]) && states[k + 1] == Step(states[k], actions[k])
  }

  /** The callback of this call has not cleared the flag yet. */
  predicate Outstanding(s: State, c: nat) {
    At(s, c, Won) || At(s, c, Posted)
  }

  /** This call's callback is still to look at the pointer and tick, or give up. */
  predicate WillLook(s: State, c: nat) {
    Outstanding(s, c) || At(s, c, Cleared)
  }

  // ----- the flag, in all runs

  /** The call set the flag, and nobody has cleared it since. */
  ghost predicate Raised(log: seq<Event>, c: nat) {
    exists i :: 0 <= i < |log| && log[i] == Swapped(c, true) && Lowered !in log[i..]
  }

  lemma RaisedAfter(log: seq<Event>, e: Event, c: nat)
    ensures Raised(log + [e], c) <==> e != Lowered && (Raised(log, c) || e == Swapped(c, true))
  {
    var more := log + [e];
    if Raised(more, c) {
      var i :| 0 <= i < |more| && more[i] == Swapped(c, true) && Lowered !in more[i..];
      assert e in more[i..];
      if i < |log| {
        assert more[i..] == log[i..] + [e];
      }
    }
    if e != Lowered && Raised(log, c) {
      var i :| 0 <= i < |log| && log[i] == Swapped(c, true) && Lowered !in log[i..];
      assert more[i..] == log[i..] + [e] && more[i] == Swapped(c, true);
    }
    if e == Swapped(c, true) {
      assert more[|log|..] == [e];
    }
  }

  ghost predicate FlagIsRaised(s: State) {
    s.pending <==> exists c :: Outstanding(s, c) && Raised(s.log, c)
  }

  /** One more event that neither sets nor clears the flag. */
  lemma OtherEventKeepsFlag(s: State, t: State, e: Event)
    requires FlagIsRaised(s) && t.pending == s.pending && (t.log == s.log || t.log == s.log + [e])
    requires e != Lowered && !e.Swapped? && forall c :: Outstanding(t, c) == Outstanding(s, c)
    ensures FlagIsRaised(t)
  {
    forall c ensures Raised(t.log, c) == Raised(s.log, c) {
      RaisedAfter(s.log, e, c);
    }
    if w :| Outstanding(s, w) && Raised(s.log, w) {
      assert Outstanding(t, w) && Raised(t.log, w);
    }
  }

  lemma LoweringKeepsFlag(s: State, t: State)
    requires !t.pending && t.log == s.log + [Lowered]
    ensures FlagIsRaised(t)
  {
    forall c ensures !Raised(t.log, c) {
      RaisedAfter(s.log, Lowered, c);
    }
  }

  lemma SwapKeepsFlag(s: State, c: nat)
    requires FlagIsRaised(s) && Enabled(s, Swap(c))
    ensures FlagIsRaised(Step(s, Swap(c)))
  {
    var t := Step(s, Swap(c));
    var e := Swapped(c, !s.pending);
    if s.pending {
      var w :| Outstanding(s, w) && Raised(s.log, w);
      RaisedAfter(s.log, e, w);
      assert Outstanding(t, w) && Raised(t.log, w);
    } else {
      RaisedAfter(s.log, e, c);
      assert Outstanding(t, c) && Raised(t.log, c);
    }
  }

  lemma StepKeepsFlag(s: State, a: Action)
    requires FlagIsRaised(s) && Enabled(s, a)
    ensures FlagIsRaised(Step(s, a))
  {
    var t := Step(s, a);
    match a
    case Swap(c) => SwapKeepsFlag(s, c);
    case Clear(_) => LoweringKeepsFlag(s, t);
    case ClearFlag => LoweringKeepsFlag(s, t);
    case Tick(c) => OtherEventKeepsFlag(s, t, if s.pointerSet then TickStarted(c) else GaveUp(c));
    case _ => OtherEventKeepsFlag(s, t, PointerNulled);
  }

  /** In every state of every run, the flag is set exactly while a callback is outstanding whose call set it and that
      nobody has cleared it for since. */
  lemma {:induction false} FlagIsRaisedInRuns(states: seq<State>, actions: seq<Action>, k: nat)
    requires IsRun(states, actions) && k < |states|
    ensures FlagIsRaised(states[k])
  {
    if k > 0 {
      FlagIsRaisedInRuns(states, actions, k - 1);
      StepKeepsFlag(states[k - 1], actions[k - 1]);
    }
  }

  // ----- the flag and a single callback

  /** The flag is set exactly while a callback is outstanding, and never more than one is. */
  ghost predicate FlagIsExact(s: State) {
    && (s.pending <==> exists c :: Outstanding(s, c))
    && (forall c, d | Outstanding(s, c) && Outstanding(s, d) :: c == d)
  }

  lemma SwapKeepsExact(s: State, c: nat)
    requires FlagIsExact(s) && Enabled(s, Swap(c))
    ensures FlagIsExact(Step(s, Swap(c)))
  {
    var t := Step(s, Swap(c));
    assert forall d | d != c :: Outstanding(t, d) == Outstanding(s, d);
    var w: nat;
    if s.pending {
      w :| Outstanding(s, w);
    } else {
      w := c;
    }
    assert Outstanding(t, w);
  }

  lemma ClearKeepsExact(s: State, c: nat)
    requires FlagIsExact(s) && Enabled(s, Clear(c))
    ensures FlagIsExact(Step(s, Clear(c)))
  {
    var t := Step(s, Clear(c));
    assert Outstanding(s, c) && !Outstanding(t, c);
    assert forall d | d != c :: Outstanding(t, d) == Outstanding(s, d);
  }

  /** A step that changes nobody's being outstanding keeps the flag exact exactly if it keeps the flag. */
  lemma FlagAloneDecides(s: State, t: State)
    requires FlagIsExact(s) && forall c :: Outstanding(t, c) == Outstanding(s, c)
    ensures FlagIsExact(t) <==> t.pending == s.pending
  {
    if w :| Outstanding(s, w) {
      assert Outstanding(t, w);
    }
  }

  lemma StepKeepsExact(s: State, a: Action)
    requires FlagIsExact(s) && Enabled(s, a)
    ensures FlagIsExact(Step(s, a)) <==> !(a.ClearFlag? && s.pending)
  {
    match a
    case Swap(c) => SwapKeepsExact(s, c);
    case Clear(c) => ClearKeepsExact(s, c);
    case _ => FlagAloneDecides(s, Step(s, a));
  }

  /** The shutdown has cleared the flag for a callback that was outstanding. */
  ghost predicate ClearsUnderCallback(states: seq<State>, actions: seq<Action>, k: nat)
    requires |states| == |actions| + 1
  {
    exists j :: 0 <= j < k && j < |actions| && actions[j].ClearFlag? && states[j].pending
  }

  lemma {:induction false} ExactUntilThen(states: seq<State>, actions: seq<Action>, k: nat)
    requires IsRun(states, actions) && k < |states| && !ClearsUnderCallback(states, actions, k)
    ensures FlagIsExact(states[k])
  {
    if k > 0 {
      assert !(actions[k - 1].ClearFlag? && states[k - 1].pending);
      ExactUntilThen(states, actions, k - 1);
      StepKeepsExact(states[k - 1], actions[k - 1]);
    }
  }

  /** Up to any point of a run, the flag is exact in every state if and only if the shutdown, if it came, did not find
      it set. */
  lemma FlagIsExactUnlessShutdownFindsItSet(states: seq<State>, actions: seq<Action>, k: nat)
    requires IsRun(states, actions) && k < |states|
    ensures (forall j | 0 <= j <= k :: FlagIsExact(states[j])) <==> !ClearsUnderCallback(states, actions, k)
  {
    if ClearsUnderCallback(states, actions, k) {
      var j :| 0 <= j < k && j < |actions| && actions[j].ClearFlag? && states[j].pending;
      if FlagIsExact(states[j]) {
        StepKeepsExact(states[j], actions[j]);
        assert !FlagIsExact(states[j + 1]);
      }
    } else {
      forall j | 0 <= j <= k ensures FlagIsExact(states[j]) {
        ExactUntilThen(states, actions, j);
      }
    }
  }

  // ----- ticks

  predicate Looked(e: Event) {
    e.TickStarted? || e.GaveUp?
  }

  /** Some callback looks at the pointer after position `i` of the log. */
  ghost predicate LookAfter(log: seq<Event>, i: nat) {
    exists j :: i < j < |log| && Looked(log[j])
  }

  ghost predicate Tracked(s: State) {
    // a set flag means a callback is outstanding
    && (s.pending ==> exists c :: Outstanding(s, c))
    // every wakeup that set or found the flag has a later look at the pointer, or one is on its way
    && (forall i | 0 <= i < |s.log| && s.log[i].Swapped? :: LookAfter(s.log, i) || exists c :: WillLook(s, c))
    // how looks end is told by the log
    && (forall c :: At(s, c, Skipped) <==> GaveUp(c) in s.log)
    && (forall c :: At(s, c, Ticked) <==> TickStarted(c) in s.log)
    && (forall i | 0 <= i < |s.log| && Looked(s.log[i]) :: s.log[i].GaveUp? <==> PointerNulled in s.log[..i])
    // the pointer is set from the first call that sees it set until it is nulled
    && (s.stage == Running <==> PointerNulled !in s.log)
    && (s.pointerSet ==> s.stage == Running)
    && (s.stage == Running ==> forall c | c in s.calls :: s.calls[c] != Ignored ==> s.pointerSet)
  }

  lemma LookAfterGrows(log: seq<Event>, e: Event, i: nat)
    requires i < |log|
    ensures LookAfter(log + [e], i) <==> LookAfter(log, i) || Looked(e)
  {
    var more := log + [e];
    if LookAfter(log, i) {
      var j :| i < j < |log| && Looked(log[j]);
      assert more[j] == log[j];
    }
    assert more[|log|] == e;
    assert forall j | 0 <= j < |log| :: more[j] == log[j];
  }

  /** One more event: what it adds to the log is all that is new. */
  lemma LogGrows(log: seq<Event>, e: Event)
    ensures forall x :: x in log + [e] <==> x in log || x == e
    ensures forall i | 0 <= i <= |log| :: (log + [e])[..i] == log[..i]
    ensures (log + [e])[|log|] == e
  {
  }

  /** What is on its way, or has looked, stays so when nobody looks and the log grows by `e` at most. */
  lemma WaysStayOpen(s: State, t: State, e: Event)
    requires Tracked(s) && (t.log == s.log || t.log == s.log + [e]) && !e.Swapped? && !Looked(e)
    requires forall c :: WillLook(s, c) ==> WillLook(t, c)
    ensures forall i | 0 <= i < |t.log| && t.log[i].Swapped? :: LookAfter(t.log, i) || exists c :: WillLook(t, c)
  {
    forall i | 0 <= i < |t.log| && t.log[i].Swapped? ensures LookAfter(t.log, i) || exists c :: WillLook(t, c) {
      assert i < |s.log| && s.log[i] == t.log[i];
      LookAfterGrows(s.log, e, i);
      if w :| WillLook(s, w) {
        assert WillLook(t, w);
      }
    }
  }

  lemma LooksStay(s: State, t: State, e: Event)
    requires Tracked(s) && (t.log == s.log || t.log == s.log + [e]) && !Looked(e)
    requires forall c :: At(t, c, Skipped) == At(s, c, Skipped) && At(t, c, Ticked) == At(s, c, Ticked)
    ensures forall c :: At(t, c, Skipped) <==> GaveUp(c) in t.log
    ensures forall c :: At(t, c, Ticked) <==> TickStarted(c) in t.log
    ensures forall i | 0 <= i < |t.log| && Looked(t.log[i]) :: t.log[i].GaveUp? <==> PointerNulled in t.log[..i]
  {
    LogGrows(s.log, e);
    forall i | 0 <= i < |t.log| && Looked(t.log[i]) ensures t.log[i].GaveUp? <==> PointerNulled in t.log[..i] {
      assert i < |s.log| && t.log[i] == s.log[i] && t.log[..i] == s.log[..i];
    }
  }

  /** A step that moves no callback past its look: what is on its way stays so. */
  lemma QuietStepKeepsTracked(s: State, a: Action)
    requires Tracked(s) && Enabled(s, a) && !a.Tick? && !a.Swap?
    ensures Tracked(Step(s, a))
  {
    var t := Step(s, a);
    var e := if a.NullPointer? then PointerNulled else Lowered;
    assert forall c :: WillLook(s, c) ==> WillLook(t, c);
    WaysStayOpen(s, t, e);
    LooksStay(s, t, e);
    LogGrows(s.log, e);
    if t.pending {
      var w :| Outstanding(s, w);
      assert Outstanding(t, w);
    }
  }

  lemma SwapKeepsTracked(s: State, c: nat)
    requires Tracked(s) && Enabled(s, Swap(c))
    ensures Tracked(Step(s, Swap(c)))
  {
    var t := Step(s, Swap(c));
    var e := Swapped(c, !s.pending);
    LooksStay(s, t, e);
    LogGrows(s.log, e);
    var w: nat;
    if s.pending {
      w :| Outstanding(s, w);
    } else {
      w := c;
    }
    assert Outstanding(t, w) && WillLook(t, w);
  }

  lemma TickKeepsTracked(s: State, c: nat)
    requires Tracked(s) && Enabled(s, Tick(c))
    ensures Tracked(Step(s, Tick(c)))
  {
    var t := Step(s, Tick(c));
    var e := t.log[|s.log|];
    assert t.log == s.log + [e];
    LogGrows(s.log, e);
    assert forall d :: Outstanding(t, d) == Outstanding(s, d);
    forall i | 0 <= i < |t.log| && t.log[i].Swapped? ensures LookAfter(t.log, i) {
      LookAfterGrows(s.log, e, i);
    }
    assert forall d | d != c :: At(t, d, Skipped) == At(s, d, Skipped) && At(t, d, Ticked) == At(s, d, Ticked);
  }

  lemma {:induction false} RunIsTracked(states: seq<State>, actions: seq<Action>, k: nat)
    requires IsRun(states, actions) && k < |states|
    ensures Tracked(states[k])
  {
    if k > 0 {
      var s, a := states[k - 1], actions[k - 1];
      RunIsTracked(states, actions, k - 1);
      match a
      case Swap(c) => SwapKeepsTracked(s, c);
      case Tick(c) => TickKeepsTracked(s, c);
      case _ => QuietStepKeepsTracked(s, a);
    }
  }

  /** Nobody is inside a wakeup or a callback. */
  ghost predicate Quiet(s: State) {
    forall c | c in s.calls :: s.calls[c] in {Ignored, Joined, Skipped, Ticked}
  }

  /** In every run, once things are quiet, the flag is clear, and after each wakeup that reached it a callback looked at
      the pointer. Until the pointer is nulled that look started a tick, and no callback skipped its own. */
  lemma NoWakeupIsLost(states: seq<State>, actions: seq<Action>, k: nat)
    requires IsRun(states, actions) && k < |states| && Quiet(states[k])
    ensures !states[k].pending
    ensures forall i | 0 <= i < |states[k].log| && states[k].log[i].Swapped? :: LookAfter(states[k].log, i)
    ensures states[k].stage == Running ==>
              forall i | 0 <= i < |states[k].log| && Looked(states[k].log[i]) :: states[k].log[i].TickStarted?
    ensures states[k].stage == Running ==> forall c :: !At(states[k], c, Skipped)
  {
    var s := states[k];
    RunIsTracked(states, actions, k);
    assert forall c :: !WillLook(s, c);
    if s.stage == Running {
      forall i | 0 <= i < |s.log| && Looked(s.log[i]) ensures s.log[i].TickStarted? {
        assert PointerNulled !in s.log[..i];
      }
      assert forall c | GaveUp(c) in s.log :: Looked(GaveUp(c));
    }
  }

  /** In every run, a callback skips its tick exactly when it looks at the pointer after the nulling. */
  lemma SkipsExactlyAfterNulling(states: seq<State>, actions: seq<Action>, k: nat, c: nat)
    requires IsRun(states, actions) && k < |states|
    ensures
      var s := states[k];
      && (At(s, c, Skipped) <==> exists i :: 0 <= i < |s.log| && s.log[i] == GaveUp(c) && PointerNulled in s.log[..i])
      && (At(s, c, Ticked) <==>
            exists i :: 0 <= i < |s.log| && s.log[i] == TickStarted(c) && PointerNulled !in s.log[..i])
  {
    var s := states[k];
    RunIsTracked(states, actions, k);
    if At(s, c, Skipped) {
      var i :| 0 <= i < |s.log| && s.log[i] == GaveUp(c);
      assert Looked(s.log[i]);
    }
    if At(s, c, Ticked) {
      var i :| 0 <= i < |s.log| && s.log[i] == TickStarted(c);
      assert Looked(s.log[i]);
    }
  }

  ghost predicate Passed(s: State, c: nat) {
    c in s.calls && s.calls[c] != Ignored && s.calls[c] != Checked
  }

  /** The log forgets no wakeup: it has an entry for each call past the flag. */
  lemma {:induction false} EveryPassedCallIsLogged(states: seq<State>, actions: seq<Action>, k: nat, c: nat)
    requires IsRun(states, actions) && k < |states| && Passed(states[k], c)
    ensures Swapped(c, true) in states[k].log || Swapped(c, false) in states[k].log
  {
    if k > 0 && Passed(states[k - 1], c) {
      EveryPassedCallIsLogged(states, actions, k - 1, c);
    }
  }

  lemma OneMore(states: seq<State>, actions: seq<Action>, a: Action) returns (more: seq<State>, all: seq<Action>)
    requires IsRun(states, actions) && Enabled(states[|states| - 1], a)
    ensures IsRun(more, all) && |more| == |states| + 1 && more[..|states|] == states
    ensures more[|states|] == Step(states[|states| - 1], a)
  {
    more, all := states + [Step(states[|states| - 1], a)], actions + [a];
  }

  /** A run up to the posting of a callback. */
  lemma CallbackPosted() returns (states: seq<State>, actions: seq<Action>)
    ensures IsRun(states, actions) && |states| == 5
    ensures At(states[4], 0, Posted) && states[4].pending && states[4].stage == Running
  {
    states, actions := [INITIAL], [];
    states, actions := OneMore(states, actions, SetPointer);
    states, actions := OneMore(states, actions, Enter(0));
    states, actions := OneMore(states, actions, Swap(0));
    states, actions := OneMore(states, actions, Post(0));
  }

  /** A run in which the shutdown clears the flag for a posted callback, which then skips its tick. */
  lemma ShutdownUnderCallback() returns (states: seq<State>, actions: seq<Action>)
    ensures IsRun(states, actions) && |states| == 9
    ensures Outstanding(states[6], 0) && !states[6].pending && !FlagIsExact(states[6])
    ensures At(states[8], 0, Skipped)
  {
    states, actions := CallbackPosted();
    states, actions := OneMore(states, actions, NullPointer);
    states, actions := OneMore(states, actions, ClearFlag);
    var cleared := states[6];
    assert Outstanding(cleared, 0);
    states, actions := OneMore(states, actions, Clear(0));
    states, actions := OneMore(states, actions, Tick(0));
    assert states[6] == states[..8][..7][6];
  }
}
