/**
 Any number of concurrent `runProcess` calls and the barrier in front of re-raising a parent signal
 (scripts/control-ui-i18n.ts).  A signal reaches every run that still has its handlers, one after
 the other; the parent signals itself once every registered run has got the signal and is done.
*/
module SignalBarrier {
  import opened Wrappers
  import opened ProcessRun

  datatype Parent = Parent(runs: seq<Run>, reraised: seq<ParentSignal>)

  datatype Action =
    | Start(options: Options)
    | Happens(run: nat, event: Event)
    | SignalArrives(signal: ParentSignal, alive: seq<bool>)

  const INITIAL := Parent([], [])

  predicate AllDone(runs: seq<Run>) {
    forall i :: 0 <= i < |runs| && runs[i].relay.registered ==> runs[i].relay.signal.Some? && runs[i].relay.done
  }

  /** One run reacts, and re-raises if it asks to and the barrier is open. */
  function Touch(p: Parent, i: nat, e: Event): (q: Parent)
    requires i < |p.runs|
    ensures |q.runs| == |p.runs|
  {
    var asked := AsksToReraise(p.runs[i], e);
    var runs := p.runs[i := React(p.runs[i], e)];
    Parent(runs, if asked.Some? && AllDone(runs) then p.reraised + [asked.value] else p.reraised)
  }

  /** The signal handlers of runs i, i+1, ... called in turn. */
  function Deliver(p: Parent, s: ParentSignal, alive: seq<bool>, i: nat): Parent
    decreases |p.runs| - i
  {
    if i >= |p.runs| then p
    else Deliver(Touch(p, i, ParentSignals(s, i < |alive| && alive[i])), s, alive, i + 1)
  }

  function Step(p: Parent, a: Action): Parent {
    match a
    case Start(options) => p.(runs := p.runs + [Fresh(options)])
    case Happens(i, e) => if i < |p.runs| && !e.ParentSignals? then Touch(p, i, e) else p
    case SignalArrives(s, alive) => Deliver(p, s, alive, 0)
  }

  function Exec(p: Parent, actions: seq<Action>): Parent {
    if actions == [] then p else Step(Exec(p, actions[..|actions| - 1]), actions[|actions| - 1])
  }

  // ---------------------------------------------------------------------------------------
  // Every run keeps its invariant

  ghost predicate RunsInv(p: Parent) {
    forall i :: 0 <= i < |p.runs| ==> Inv(p.runs[i])
  }

  lemma {:induction false} TouchKeepsRunsInv(p: Parent, i: nat, e: Event)
    requires RunsInv(p) && i < |p.runs|
    ensures RunsInv(Touch(p, i, e))
  {
    ReactKeepsInv(p.runs[i], e);
  }

  lemma {:induction false} DeliverKeepsRunsInv(p: Parent, s: ParentSignal, alive: seq<bool>, i: nat)
    requires RunsInv(p)
    ensures RunsInv(Deliver(p, s, alive, i))
    decreases |p.runs| - i
  {
    if i < |p.runs| {
      var e := ParentSignals(s, i < |alive| && alive[i]);
      TouchKeepsRunsInv(p, i, e);
      DeliverKeepsRunsInv(Touch(p, i, e), s, alive, i + 1);
    }
  }

  lemma {:induction false} StepKeepsRunsInv(p: Parent, a: Action)
    requires RunsInv(p)
    ensures RunsInv(Step(p, a))
  {
    match a {
      case Start(options) => FreshInv(options);
      case Happens(i, e) => if i < |p.runs| { TouchKeepsRunsInv(p, i, e); }
      case SignalArrives(s, alive) => DeliverKeepsRunsInv(p, s, alive, 0);
    }
  }

  lemma {:induction false} ExecKeepsRunsInv(p: Parent, actions: seq<Action>)
    requires RunsInv(p)
    ensures RunsInv(Exec(p, actions))
  {
    if actions != [] {
      ExecKeepsRunsInv(p, actions[..|actions| - 1]);
      StepKeepsRunsInv(Exec(p, actions[..|actions| - 1]), actions[|actions| - 1]);
    }
  }

  // ---------------------------------------------------------------------------------------
  // One reaction and the barrier

  /** How a reaction `n` to `e` can change what the barrier looks at. */
  ghost predicate BarrierStep(r: Run, e: Event, n: Run) {
    && (n.relay.registered ==> r.relay.registered) && (n.relay.signal.Some? ==> n.relay.registered)
    && (r.relay.done ==> r.relay.signal.Some?)
    && (r.relay.signal.Some? ==> n.relay.signal == r.relay.signal)
    && (r.relay.done ==> n.relay.done) && (r.history.closed ==> n.history.closed)
    && (n.relay.signal.Some? && r.relay.signal.None? ==> e.ParentSignals?)
    && (e.ParentSignals? ==> n.relay.registered == r.relay.registered && (n.relay.registered ==> n.relay.signal.Some?))
    && (n.relay.done && !r.relay.done ==> AsksToReraise(r, e).Some?)
    && (AsksToReraise(r, e).Some? ==> n.relay.done && n.relay.registered && n.relay.signal == AsksToReraise(r, e))
  }

  lemma {:induction false} CloseAndBarrier(r: Run, code: Option<int>, groupAlive: bool)
    requires Inv(r) && !r.history.closed
    ensures BarrierStep(r, CloseEvent(code, groupAlive), OnClose(r, code, groupAlive))
  {
  }

  lemma {:induction false} ReactAndBarrier(r: Run, e: Event)
    requires Inv(r)
    ensures BarrierStep(r, e, React(r, e))
  {
    ReactKeepsInv(r, e);
    if Enabled(r, e) {
      match e {
        case TimeoutFires =>
        case KillTimerFires =>
        case ParentSignals(s, groupAlive) =>
        case Output(chunk) =>
        case ErrorEvent =>
        case CloseEvent(code, groupAlive) => CloseAndBarrier(r, code, groupAlive);
      }
    }
  }

  lemma {:induction false} OpenBarrierStaysOpen(p: Parent, i: nat, e: Event)
    requires RunsInv(p) && i < |p.runs| && AllDone(p.runs)
    ensures AllDone(Touch(p, i, e).runs)
  {
    ReactAndBarrier(p.runs[i], e);
  }

  /** The exact condition: the reaction that opens the barrier re-raises the signal if and only if
      it is the reaction of a run that got it.  An unsignalled run that merely leaves does not. */
  lemma {:induction false} OpeningReraisesExactly(p: Parent, i: nat, e: Event)
    requires RunsInv(p) && i < |p.runs| && !AllDone(p.runs) && AllDone(Touch(p, i, e).runs)
    ensures |Touch(p, i, e).reraised| > |p.reraised| <==> React(p.runs[i], e).relay.signal.Some?
  {
    var r, n := p.runs[i], React(p.runs[i], e);
    ReactAndBarrier(r, e);
    if n.relay.signal.Some? && AsksToReraise(r, e).None? {
      forall j | 0 <= j < |p.runs| && p.runs[j].relay.registered
        ensures p.runs[j].relay.signal.Some? && p.runs[j].relay.done
      {
        assert j != i ==> Touch(p, i, e).runs[j] == p.runs[j];
        assert Touch(p, i, e).runs[i] == n;
      }
    }
  }

  // ---------------------------------------------------------------------------------------
  // Safety: re-raised only behind the barrier

  /** The parent is signalled `t` on the way from p to q. */
  predicate Raises(p: Parent, q: Parent, t: ParentSignal) {
    |p.reraised| <= |q.reraised| && t in q.reraised[|p.reraised|..]
  }

  lemma {:induction false} StaysRaised(p: Parent, q: Parent, base: nat, t: ParentSignal)
    requires base <= |p.reraised| && p.reraised <= q.reraised
    ensures t in p.reraised[base..] ==> t in q.reraised[base..]
  {
    assert q.reraised[base..] == p.reraised[base..] + q.reraised[|p.reraised|..];
  }

  predicate HeldBySome(runs: seq<Run>, t: ParentSignal) {
    exists i :: 0 <= i < |runs| && runs[i].relay.registered && runs[i].relay.signal == Some(t)
  }

  /** What has been re-raised since there were `base` re-raises: only behind an open barrier, and only
      signals that registered runs got. */
  ghost predicate BehindBarrier(p: Parent, base: nat) {
    && |p.reraised| >= base
    && (|p.reraised| > base ==> AllDone(p.runs))
    && forall t :: t in p.reraised[base..] ==> HeldBySome(p.runs, t)
  }

  lemma {:induction false} HeldStays(p: Parent, i: nat, e: Event, t: ParentSignal)
    requires RunsInv(p) && i < |p.runs| && HeldBySome(p.runs, t)
    ensures HeldBySome(Touch(p, i, e).runs, t)
  {
    var j :| 0 <= j < |p.runs| && p.runs[j].relay.registered && p.runs[j].relay.signal == Some(t);
    ReactAndBarrier(p.runs[i], e);
    hide React, AsksToReraise, Inv, AllDone;
    var n := Touch(p, i, e).runs;
    assert n[j].relay.registered && n[j].relay.signal == Some(t);
  }

  lemma {:induction false} TouchStaysBehindBarrier(p: Parent, i: nat, e: Event, base: nat)
    requires RunsInv(p) && i < |p.runs| && BehindBarrier(p, base)
    ensures BehindBarrier(Touch(p, i, e), base)
  {
    var n := Touch(p, i, e);
    ReactAndBarrier(p.runs[i], e);
    if AllDone(p.runs) {
      OpenBarrierStaysOpen(p, i, e);
    }
    hide React, AsksToReraise, Inv, AllDone, HeldBySome;
    forall t | t in n.reraised[base..]
      ensures HeldBySome(n.runs, t)
    {
      if t in p.reraised[base..] {
        HeldStays(p, i, e, t);
      } else {
        AskedIsHeld(p, i, e);
      }
    }
  }

  lemma {:induction false} AskedIsHeld(p: Parent, i: nat, e: Event)
    requires RunsInv(p) && i < |p.runs|
    ensures AsksToReraise(p.runs[i], e).Some? ==> HeldBySome(Touch(p, i, e).runs, AsksToReraise(p.runs[i], e).value)
  {
    ReactAndBarrier(p.runs[i], e);
    hide React, AsksToReraise, Inv, AllDone;
    assert Touch(p, i, e).runs[i] == React(p.runs[i], e);
  }

  lemma {:induction false} DeliverStaysBehindBarrier(p: Parent, s: ParentSignal, alive: seq<bool>, i: nat, base: nat)
    requires RunsInv(p) && BehindBarrier(p, base)
    ensures BehindBarrier(Deliver(p, s, alive, i), base)
    decreases |p.runs| - i
  {
    hide Touch, BehindBarrier, Inv;
    if i < |p.runs| {
      var e := ParentSignals(s, i < |alive| && alive[i]);
      TouchKeepsRunsInv(p, i, e);
      TouchStaysBehindBarrier(p, i, e, base);
      DeliverStaysBehindBarrier(Touch(p, i, e), s, alive, i + 1, base);
    }
  }

  /** In every interleaving, a step that signals the parent leaves no registered run that has not got a
      signal, is not done, or has a process group neither gone nor killed; and what it signals are
      signals that registered runs got. */
  lemma {:induction false} ReraisedOnlyBehindBarrier(actions: seq<Action>, a: Action)
    ensures var before, after := Exec(INITIAL, actions), Step(Exec(INITIAL, actions), a);
            && (forall t :: Raises(before, after, t) ==> HeldBySome(after.runs, t))
            && (|after.reraised| > |before.reraised| ==>
                  && AllDone(after.runs)
                  && forall i :: 0 <= i < |after.runs| && after.runs[i].relay.registered
                       ==> after.runs[i].history.groupGone || Sent(Kill) in after.runs[i].history.effects)
  {
    var before, after := Exec(INITIAL, actions), Step(Exec(INITIAL, actions), a);
    var base := |before.reraised|;
    ExecKeepsRunsInv(INITIAL, actions);
    StepKeepsRunsInv(before, a);
    hide Exec, Touch, HeldBySome;
    assert before.reraised[base..] == [];
    match a {
      case Start(_) =>
      case Happens(i, e) => if i < |before.runs| { TouchStaysBehindBarrier(before, i, e, base); }
      case SignalArrives(s, alive) => DeliverStaysBehindBarrier(before, s, alive, 0, base);
    }
  }

  // ---------------------------------------------------------------------------------------
  // Liveness: the last run re-raises

  predicate AllSignalled(runs: seq<Run>) {
    forall i :: 0 <= i < |runs| && runs[i].relay.registered ==> runs[i].relay.signal.Some?
  }

  /** Every run that got another signal is done. */
  predicate OthersDone(runs: seq<Run>, s: ParentSignal) {
    forall i :: 0 <= i < |runs| && runs[i].relay.signal.Some? && runs[i].relay.signal.value != s ==> runs[i].relay.done
  }

  /** An open barrier has been used; `only` says that it has been used for s. */
  ghost predicate Used(p: Parent, base: nat, s: ParentSignal, only: bool) {
    && |p.reraised| >= base
    && (only ==> OthersDone(p.runs, s))
    && (AllDone(p.runs) ==> |p.reraised| > base && (only ==> s in p.reraised[base..]))
  }

  /** Everybody got a signal, and an open barrier has been used. */
  ghost predicate Draining(p: Parent, base: nat, s: ParentSignal, only: bool) {
    RunsInv(p) && AllSignalled(p.runs) && Used(p, base, s, only)
  }

  lemma {:induction false} TouchKeepsSignalled(p: Parent, i: nat, e: Event)
    requires RunsInv(p) && AllSignalled(p.runs) && i < |p.runs|
    ensures AllSignalled(Touch(p, i, e).runs)
  {
    ReactAndBarrier(p.runs[i], e);
    hide React, AsksToReraise, Inv, AllDone;
  }

  /** A reaction that neither signals a run anew nor gives it another signal than s keeps the use. */
  lemma {:induction false} TouchKeepsUse(p: Parent, i: nat, e: Event, base: nat, s: ParentSignal, only: bool)
    requires RunsInv(p) && i < |p.runs| && Used(p, base, s, only)
    requires e.ParentSignals? && p.runs[i].relay.signal.None? && p.runs[i].relay.registered ==> e.parentSignal == s
    requires !e.ParentSignals? && p.runs[i].relay.registered ==> p.runs[i].relay.signal.Some?
    ensures Used(Touch(p, i, e), base, s, only)
  {
    var r, n := p.runs[i], React(p.runs[i], e);
    var q := Touch(p, i, e);
    ReactAndBarrier(r, e);
    NewSignal(r, e);
    assert forall j :: 0 <= j < |p.runs| && j != i ==> q.runs[j] == p.runs[j];
    assert q.runs[i] == n;
    if AllDone(p.runs) {
      hide React, AsksToReraise, Inv, AllDone;
      StaysRaised(p, q, base, s);
    } else if AllDone(q.runs) {
      OpeningReraisesExactly(p, i, e);
      OpenedByUndone(p, i, e);
      assert n.relay.registered ==> n.relay.signal.Some?;
      assert n.relay.signal.Some?;
      assert only ==> n.relay.signal == Some(s);
      hide React, AsksToReraise, Inv, AllDone;
      assert q.reraised[base..][|p.reraised| - base] == n.relay.signal.value;
    }
  }

  lemma {:induction false} NewSignal(r: Run, e: Event)
    requires Inv(r)
    ensures var n := React(r, e);
            n.relay.signal.Some? && r.relay.signal.None? ==>
              r.relay.registered && e.ParentSignals? && n.relay.signal.value == e.parentSignal
  {
    ReactAndBarrier(r, e);
    if !e.ParentSignals? {
      hide React, AsksToReraise, Inv;
    }
  }

  lemma {:induction false} OpenedByUndone(p: Parent, i: nat, e: Event)
    requires RunsInv(p) && i < |p.runs| && !AllDone(p.runs) && AllDone(Touch(p, i, e).runs)
    ensures p.runs[i].relay.registered && !p.runs[i].relay.done
  {
    ReactAndBarrier(p.runs[i], e);
    hide React, AsksToReraise, Inv;
    var n := Touch(p, i, e).runs;
    var j :| 0 <= j < |p.runs| && p.runs[j].relay.registered && !(p.runs[j].relay.signal.Some? && p.runs[j].relay.done);
    assert j != i ==> n[j] == p.runs[j];
  }

  lemma {:induction false} TouchKeepsDraining(p: Parent, i: nat, e: Event, base: nat, s: ParentSignal, only: bool)
    requires Draining(p, base, s, only) && i < |p.runs|
    ensures Draining(Touch(p, i, e), base, s, only)
  {
    hide Touch, Used, Inv;
    TouchKeepsRunsInv(p, i, e);
    TouchKeepsSignalled(p, i, e);
    UnregisteredHasNoSignal(p.runs[i]);
    TouchKeepsUse(p, i, e, base, s, only);
  }

  lemma {:induction false} UnregisteredHasNoSignal(r: Run)
    requires Inv(r)
    ensures r.relay.signal.Some? ==> r.relay.registered
  {
  }

  lemma {:induction false} DeliverKeepsDraining(p: Parent, t: ParentSignal, alive: seq<bool>, i: nat, base: nat,
                                                s: ParentSignal, only: bool)
    requires Draining(p, base, s, only)
    ensures Draining(Deliver(p, t, alive, i), base, s, only)
    decreases |p.runs| - i
  {
    hide Touch, Draining;
    if i < |p.runs| {
      var e := ParentSignals(t, i < |alive| && alive[i]);
      TouchKeepsDraining(p, i, e, base, s, only);
      DeliverKeepsDraining(Touch(p, i, e), t, alive, i + 1, base, s, only);
    }
  }

  predicate NoStart(later: seq<Action>) {
    forall a :: a in later ==> !a.Start?
  }

  lemma {:induction false} ExecKeepsDraining(p: Parent, later: seq<Action>, base: nat, s: ParentSignal, only: bool)
    requires Draining(p, base, s, only) && NoStart(later)
    ensures Draining(Exec(p, later), base, s, only)
  {
    hide Touch, Deliver, Draining;
    if later != [] {
      var q, a := Exec(p, later[..|later| - 1]), later[|later| - 1];
      ExecKeepsDraining(p, later[..|later| - 1], base, s, only);
      assert a in later;
      if a.SignalArrives? {
        DeliverKeepsDraining(q, a.signal, a.alive, 0, base, s, only);
      } else if a.run < |q.runs| {
        TouchKeepsDraining(q, a.run, a.event, base, s, only);
      }
    }
  }

  predicate SignalledUpTo(runs: seq<Run>, n: nat) {
    forall j :: 0 <= j < n && j < |runs| && runs[j].relay.registered ==> runs[j].relay.signal.Some?
  }

  lemma {:induction false} DeliverySignals(p: Parent, i: nat, s: ParentSignal, groupAlive: bool)
    requires RunsInv(p) && i < |p.runs| && SignalledUpTo(p.runs, i)
    ensures SignalledUpTo(Touch(p, i, ParentSignals(s, groupAlive)).runs, i + 1)
  {
    ReactAndBarrier(p.runs[i], ParentSignals(s, groupAlive));
    hide React, AsksToReraise, Inv, AllDone;
  }

  /** Delivering a signal starts the drain, when an open barrier would have been used already. */
  lemma {:induction false} DeliverStartsDraining(p: Parent, s: ParentSignal, alive: seq<bool>, i: nat, base: nat,
                                                 only: bool)
    requires RunsInv(p) && SignalledUpTo(p.runs, i) && Used(p, base, s, only)
    ensures Draining(Deliver(p, s, alive, i), base, s, only)
    decreases |p.runs| - i
  {
    hide Touch, Used, Inv;
    if i < |p.runs| {
      var e := ParentSignals(s, i < |alive| && alive[i]);
      TouchKeepsRunsInv(p, i, e);
      DeliverySignals(p, i, s, i < |alive| && alive[i]);
      TouchKeepsUse(p, i, e, base, s, only);
      DeliverStartsDraining(Touch(p, i, e), s, alive, i + 1, base, only);
    }
  }

  function FireAll(n: nat): seq<Action> {
    if n == 0 then [] else FireAll(n - 1) + [Happens(n - 1, KillTimerFires)]
  }

  lemma {:induction false} FiringFinishesRuns(p: Parent, n: nat, base: nat, s: ParentSignal, only: bool)
    requires Draining(p, base, s, only) && n <= |p.runs|
    ensures var q := Exec(p, FireAll(n));
            && |FireAll(n)| == n && |q.runs| == |p.runs| && Draining(q, base, s, only)
            && forall i :: 0 <= i < n && q.runs[i].relay.registered ==> q.runs[i].relay.done
  {
    hide Draining, Step;
    if n > 0 {
      FiringFinishesRuns(p, n - 1, base, s, only);
      ExecOne(p, FireAll(n - 1), Happens(n - 1, KillTimerFires), FireAll(n));
      FiringStep(Exec(p, FireAll(n - 1)), n - 1, base, s, only);
    }
  }

  lemma {:induction false} FiringStep(q: Parent, k: nat, base: nat, s: ParentSignal, only: bool)
    requires Draining(q, base, s, only) && k < |q.runs|
    requires forall i :: 0 <= i < k && q.runs[i].relay.registered ==> q.runs[i].relay.done
    ensures var n := Step(q, Happens(k, KillTimerFires));
            && |n.runs| == |q.runs| && Draining(n, base, s, only)
            && forall i :: 0 <= i <= k && n.runs[i].relay.registered ==> n.runs[i].relay.done
  {
    hide React, AsksToReraise, Inv, Used;
    TouchKeepsDraining(q, k, KillTimerFires, base, s, only);
    FiringFinishesRun(q, k);
  }

  lemma {:induction false} FiringFinishesRun(q: Parent, k: nat)
    requires RunsInv(q) && AllSignalled(q.runs) && k < |q.runs|
    requires forall i :: 0 <= i < k && q.runs[i].relay.registered ==> q.runs[i].relay.done
    ensures var n := Touch(q, k, KillTimerFires);
            |n.runs| == |q.runs| && forall i :: 0 <= i <= k && n.runs[i].relay.registered ==> n.runs[i].relay.done
  {
    ReactAndBarrier(q.runs[k], KillTimerFires);
    assert q.runs[k].relay.registered && !q.runs[k].relay.done ==> q.runs[k].timers.killTimer.ParentTimer?;
  }

  /** After a signal that found an unsignalled run, and as long as no run starts: everybody has got a
      signal, every run is done or has its kill timer armed, whichever run is the last to be done has
      signalled the parent, and once the armed kill timers fire that has happened.  What was signalled is
      this signal, unless a run that got another one before was not done. */
  lemma {:induction false} LastRunReraises(earlier: seq<Action>, s: ParentSignal, alive: seq<bool>,
                                           later: seq<Action>, j: nat)
    requires var before := Exec(INITIAL, earlier);
             j < |before.runs| && before.runs[j].relay.registered && before.runs[j].relay.signal.None?
    requires NoStart(later)
    ensures var before := Exec(INITIAL, earlier);
            var p := Exec(Step(before, SignalArrives(s, alive)), later);
            var fired := Exec(p, FireAll(|p.runs|));
            && AllSignalled(p.runs)
            && (forall i :: 0 <= i < |p.runs| && p.runs[i].relay.registered
                  ==> p.runs[i].relay.done || p.runs[i].timers.killTimer.ParentTimer?)
            && (AllDone(p.runs) ==> |p.reraised| > |before.reraised|)
            && |fired.reraised| > |before.reraised|
            && (OthersDone(before.runs, s) ==> (AllDone(p.runs) ==> Raises(before, p, s)) && Raises(before, fired, s))
  {
    var before := Exec(INITIAL, earlier);
    var base, only := |before.reraised|, OthersDone(before.runs, s);
    ExecKeepsRunsInv(INITIAL, earlier);
    hide Exec, Deliver, Touch, OthersDone;
    DeliverStartsDraining(before, s, alive, 0, base, only);
    var signalled := Step(before, SignalArrives(s, alive));
    ExecKeepsDraining(signalled, later, base, s, only);
    var p := Exec(signalled, later);
    FiringFinishesRuns(p, |p.runs|, base, s, only);
    assert AllDone(Exec(p, FireAll(|p.runs|)).runs);
  }

  // ---------------------------------------------------------------------------------------
  // When a signal can still be re-raised

  /** Nothing is left of signal t: every run that got it is done and its child has closed. */
  predicate Drained(runs: seq<Run>, t: ParentSignal) {
    forall i :: 0 <= i < |runs| && runs[i].relay.signal == Some(t) ==> runs[i].relay.done && runs[i].history.closed
  }

  /** Runs start and go on, and other signals may arrive, but not t. */
  predicate Without(later: seq<Action>, t: ParentSignal) {
    forall a :: a in later ==> !(a.SignalArrives? && a.signal == t)
  }

  /** No run would hear a signal. */
  predicate Deaf(runs: seq<Run>) {
    forall i :: 0 <= i < |runs| ==> !runs[i].relay.handlersInstalled
  }

  lemma {:induction false} DrainedRunStays(r: Run, e: Event, t: ParentSignal)
    requires Inv(r) && (e.ParentSignals? && r.relay.handlersInstalled ==> e.parentSignal != t)
    requires r.relay.signal == Some(t) ==> r.relay.done && r.history.closed
    ensures AsksToReraise(r, e) != Some(t)
    ensures var n := React(r, e); n.relay.signal == Some(t) ==> n.relay.done && n.history.closed
  {
    ReactAndBarrier(r, e);
  }

  lemma {:induction false} DrainedTouchStays(p: Parent, i: nat, e: Event, base: nat, t: ParentSignal)
    requires RunsInv(p) && i < |p.runs| && Drained(p.runs, t) && |p.reraised| >= base && t !in p.reraised[base..]
    requires e.ParentSignals? && p.runs[i].relay.handlersInstalled ==> e.parentSignal != t
    ensures var q := Touch(p, i, e); Drained(q.runs, t) && |q.reraised| >= base && t !in q.reraised[base..]
  {
    DrainedRunStays(p.runs[i], e, t);
    hide React, AsksToReraise, Inv, AllDone;
  }

  lemma {:induction false} DrainedDeliverStays(p: Parent, s: ParentSignal, alive: seq<bool>, i: nat, base: nat,
                                               t: ParentSignal)
    requires RunsInv(p) && Drained(p.runs, t) && |p.reraised| >= base && t !in p.reraised[base..]
    requires s != t
    ensures var q := Deliver(p, s, alive, i); Drained(q.runs, t) && |q.reraised| >= base && t !in q.reraised[base..]
    decreases |p.runs| - i
  {
    hide Touch, Drained, Inv;
    if i < |p.runs| {
      var e := ParentSignals(s, i < |alive| && alive[i]);
      TouchKeepsRunsInv(p, i, e);
      DrainedTouchStays(p, i, e, base, t);
      DrainedDeliverStays(Touch(p, i, e), s, alive, i + 1, base, t);
    }
  }

  lemma {:induction false} DrainedStepStays(p: Parent, a: Action, base: nat, t: ParentSignal)
    requires RunsInv(p) && Drained(p.runs, t) && |p.reraised| >= base && t !in p.reraised[base..]
    requires !(a.SignalArrives? && a.signal == t)
    ensures var q := Step(p, a); Drained(q.runs, t) && |q.reraised| >= base && t !in q.reraised[base..]
  {
    hide Touch, Deliver, Inv;
    match a {
      case Start(_) =>
      case Happens(i, e) =>
        hide Drained;
        if i < |p.runs| && !e.ParentSignals? {
          DrainedTouchStays(p, i, e, base, t);
        }
      case SignalArrives(s, alive) =>
        hide Drained;
        DrainedDeliverStays(p, s, alive, 0, base, t);
    }
  }

  /** A drained signal is not re-raised before it arrives again, whatever else starts, happens or arrives. */
  lemma {:induction false} DrainedNeverReraises(p: Parent, later: seq<Action>, t: ParentSignal)
    requires RunsInv(p) && Drained(p.runs, t) && Without(later, t)
    ensures var q := Exec(p, later);
            Drained(q.runs, t) && |q.reraised| >= |p.reraised| && t !in q.reraised[|p.reraised|..]
  {
    if later != [] {
      hide Step, Drained;
      var before, a := later[..|later| - 1], later[|later| - 1];
      DrainedNeverReraises(p, before, t);
      ExecKeepsRunsInv(p, before);
      assert a in later;
      DrainedStepStays(Exec(p, before), a, |p.reraised|, t);
    } else {
      assert p.reraised[|p.reraised|..] == [];
    }
  }

  /** Every signal the parent is signalled is one that arrived. */
  lemma {:induction false} ReraisedArrived(actions: seq<Action>, t: ParentSignal)
    ensures t in Exec(INITIAL, actions).reraised ==> exists alive :: SignalArrives(t, alive) in actions
  {
    if Without(actions, t) {
      DrainedNeverReraises(INITIAL, actions, t);
      var all := Exec(INITIAL, actions).reraised;
      assert all[0..] == all;
    } else {
      var a :| a in actions && a.SignalArrives? && a.signal == t;
      assert a == SignalArrives(t, a.alive);
    }
  }

  const CLOSES := CloseEvent(Some(0), false)

  predicate OutOfTheWay(r: Run) {
    r.relay.registered ==> r.relay.signal.Some? && r.relay.done
  }

  /** The child of run k closes with its group gone and its kill timer fires, as far as they still can. */
  function FinishRun(k: nat): seq<Action> {
    [Happens(k, CLOSES), Happens(k, KillTimerFires)]
  }

  lemma {:induction false} FinishedRun(r: Run)
    requires Inv(r)
    ensures OutOfTheWay(React(React(r, CLOSES), KillTimerFires))
  {
    hide OutcomeOf, KilledBeforeSettled, NeverResolves, SettledOnce, HasSettled;
  }

  lemma {:induction false} ExecOne(p: Parent, actions: seq<Action>, a: Action, longer: seq<Action>)
    requires longer == actions + [a]
    ensures Exec(p, longer) == Step(Exec(p, actions), a)
  {
    assert longer[..|actions|] == actions;
  }

  lemma {:induction false} ExecTwo(p: Parent, actions: seq<Action>, a: Action, b: Action)
    ensures Exec(p, actions + [a, b]) == Step(Step(Exec(p, actions), a), b)
  {
    hide Step;
    assert actions + [a, b] == (actions + [a]) + [b];
    ExecOne(p, actions, a, actions + [a]);
    ExecOne(p, actions + [a], b, actions + [a, b]);
  }

  /** Run k holds up the barrier. */
  predicate Undone(p: Parent, k: nat) {
    k < |p.runs| && p.runs[k].relay.registered && !p.runs[k].relay.done
  }

  lemma {:induction false} OtherTouch(p: Parent, i: nat, e: Event, k: nat)
    requires i < |p.runs| && k < |p.runs| && i != k
    ensures var q := Touch(p, i, e);
            q.runs[k] == p.runs[k] && p.reraised <= q.reraised && (Undone(p, k) ==> q.reraised == p.reraised)
  {
    hide React, AsksToReraise;
    assert Touch(p, i, e).runs[k] == p.runs[k];
  }

  lemma {:induction false} FinishedInPlace(q: Parent, i: nat, k: nat)
    requires RunsInv(q) && i < |q.runs| && k < |q.runs| && i != k
    ensures var n := Step(Step(q, Happens(i, CLOSES)), Happens(i, KillTimerFires));
            && OthersFinished(q, n, 0, k) && OutOfTheWay(n.runs[i])
            && forall j :: 0 <= j < |q.runs| && j != i ==> n.runs[j] == q.runs[j]
  {
    FinishedRun(q.runs[i]);
    TouchKeepsRunsInv(q, i, CLOSES);
    TouchKeepsRunsInv(Touch(q, i, CLOSES), i, KillTimerFires);
    OtherTouch(q, i, CLOSES, k);
    OtherTouch(Touch(q, i, CLOSES), i, KillTimerFires, k);
    hide React, AsksToReraise, Inv, OutOfTheWay, AllDone;
  }

  /** The first n runs are finished, except run k. */
  function FinishOthers(n: nat, k: nat): seq<Action> {
    if n == 0 then [] else FinishOthers(n - 1, k) + if n - 1 == k then [] else FinishRun(n - 1)
  }

  ghost predicate OthersFinished(p: Parent, q: Parent, n: nat, k: nat)
    requires k < |p.runs|
  {
    && RunsInv(q) && |q.runs| == |p.runs| && q.runs[k] == p.runs[k]
    && p.reraised <= q.reraised && (Undone(p, k) ==> q.reraised == p.reraised)
    && forall j :: 0 <= j < n && j < |q.runs| && j != k ==> OutOfTheWay(q.runs[j])
  }

  lemma {:induction false} OthersFinish(p: Parent, n: nat, k: nat)
    requires RunsInv(p) && n <= |p.runs| && k < |p.runs|
    ensures OthersFinished(p, Exec(p, FinishOthers(n, k)), n, k)
    ensures forall a :: a in FinishOthers(n, k) ==> a.Happens?
  {
    hide Step, OutOfTheWay, Inv;
    if n > 0 {
      OthersFinish(p, n - 1, k);
      var actions := FinishOthers(n - 1, k);
      if n - 1 == k {
        assert actions + [] == actions;
      } else {
        ExecTwo(p, actions, Happens(n - 1, CLOSES), Happens(n - 1, KillTimerFires));
        FinishedInPlace(Exec(p, actions), n - 1, k);
      }
    }
  }

  ghost predicate HoldsUndrained(r: Run, t: ParentSignal) {
    r.relay.signal == Some(t) && !(r.relay.done && r.history.closed)
  }

  /** A run that is not drained asks for its signal once while it is finished. */
  lemma {:induction false} UndrainedRunAsks(r: Run, t: ParentSignal)
    requires Inv(r) && HoldsUndrained(r, t)
    ensures var closed := React(r, CLOSES);
            if r.history.closed then
              closed == r && AsksToReraise(r, CLOSES).None? && AsksToReraise(r, KillTimerFires) == Some(t)
              && OutOfTheWay(React(r, KillTimerFires))
            else
              AsksToReraise(r, CLOSES) == Some(t) && React(closed, KillTimerFires) == closed
              && AsksToReraise(closed, KillTimerFires).None? && OutOfTheWay(closed)
  {
    hide KilledBeforeSettled, NeverResolves, SettledOnce, HasSettled;
  }

  lemma {:induction false} LastRunAsks(q: Parent, k: nat, t: ParentSignal)
    requires RunsInv(q) && k < |q.runs| && HoldsUndrained(q.runs[k], t)
    requires forall j :: 0 <= j < |q.runs| && j != k ==> OutOfTheWay(q.runs[j])
    ensures var n := Step(Step(q, Happens(k, CLOSES)), Happens(k, KillTimerFires));
            n.reraised == q.reraised + [t] && AllDone(n.runs)
  {
    hide React, AsksToReraise, Inv, HoldsUndrained;
    var r := q.runs[k];
    UndrainedRunAsks(r, t);
    assert q.runs[k := r] == q.runs;
    if r.history.closed {
      assert Touch(q, k, CLOSES) == q;
      assert AllDone(q.runs[k := React(r, KillTimerFires)]);
    } else {
      var n := q.runs[k := React(r, CLOSES)];
      assert AllDone(n);
      assert n[k := React(r, CLOSES)] == n;
    }
  }

  function FinishLast(p: Parent, k: nat): seq<Action> {
    FinishOthers(|p.runs|, k) + FinishRun(k)
  }

  /** As long as some run that got t is not done or has not closed, the parent can still be signalled t,
      by nothing but events of the runs there are; when the run is not done, it is signalled nothing else
      and the barrier is then open. */
  lemma {:induction false} UndrainedCanReraise(p: Parent, k: nat, t: ParentSignal)
    requires RunsInv(p) && k < |p.runs| && HoldsUndrained(p.runs[k], t)
    ensures var q := Exec(p, FinishLast(p, k));
            Raises(p, q, t) && AllDone(q.runs) && (Undone(p, k) ==> q.reraised == p.reraised + [t])
    ensures forall a :: a in FinishLast(p, k) ==> a.Happens?
  {
    hide Step, Inv, HoldsUndrained, AllDone;
    var others := FinishOthers(|p.runs|, k);
    OthersFinish(p, |p.runs|, k);
    LastRunAsks(Exec(p, others), k, t);
    ExecTwo(p, others, Happens(k, CLOSES), Happens(k, KillTimerFires));
    var q := Exec(p, FinishLast(p, k));
    assert q.reraised[|p.reraised|..][|q.reraised| - 1 - |p.reraised|] == t;
  }

  /** The exact condition, for every reachable state, before or after the barrier has opened: before t
      arrives again the parent can still be signalled t if and only if some run that got t is not done or
      has not closed.  Runs that start and other signals that arrive in between change nothing about it. */
  lemma {:induction false} LostExactlyWhenDrained(actions: seq<Action>, t: ParentSignal)
    ensures var p := Exec(INITIAL, actions);
            (exists later :: Without(later, t) && Raises(p, Exec(p, later), t)) <==> !Drained(p.runs, t)
  {
    hide Step, Inv, Exec, Raises;
    var p := Exec(INITIAL, actions);
    ExecKeepsRunsInv(INITIAL, actions);
    if Drained(p.runs, t) {
      forall later | Without(later, t)
        ensures !Raises(p, Exec(p, later), t)
      {
        DrainedNeverReraises(p, later, t);
        NotRaised(p, Exec(p, later), t);
      }
    } else {
      var k :| 0 <= k < |p.runs| && HoldsUndrained(p.runs[k], t);
      UndrainedCanReraise(p, k, t);
      assert Without(FinishLast(p, k), t);
    }
  }

  lemma {:induction false} NotRaised(p: Parent, q: Parent, t: ParentSignal)
    requires |q.reraised| >= |p.reraised| && t !in q.reraised[|p.reraised|..]
    ensures !Raises(p, q, t)
  {
  }

  // ---------------------------------------------------------------------------------------
  // Which signal the parent gets

  lemma {:induction false} DeliveryKeepsHolder(p: Parent, s: ParentSignal, alive: seq<bool>, i: nat, k: nat)
    requires RunsInv(p) && k < |p.runs| && p.runs[k].relay.signal.Some?
    ensures var q := Deliver(p, s, alive, i);
            && |q.runs| == |p.runs| && q.runs[k] == p.runs[k] && p.reraised <= q.reraised
            && (Undone(p, k) ==> q.reraised == p.reraised)
    decreases |p.runs| - i
  {
    hide React, AsksToReraise, Inv, AllDone;
    if i < |p.runs| {
      var e := ParentSignals(s, i < |alive| && alive[i]);
      TouchKeepsRunsInv(p, i, e);
      if i == k {
        HolderIsDeaf(p.runs[k], e);
        assert p.runs[k := p.runs[k]] == p.runs;
      } else {
        OtherTouch(p, i, e, k);
      }
      hide Touch, Inv;
      DeliveryKeepsHolder(Touch(p, i, e), s, alive, i + 1, k);
    }
  }

  lemma {:induction false} HolderIsDeaf(r: Run, e: Event)
    requires Inv(r) && e.ParentSignals? && (r.relay.signal.Some? || !r.relay.registered)
    ensures React(r, e) == r && AsksToReraise(r, e).None? && !r.relay.handlersInstalled
  {
  }

  lemma {:induction false} SignalledAreDeaf(p: Parent)
    requires RunsInv(p) && AllSignalled(p.runs)
    ensures Deaf(p.runs)
  {
    forall i | 0 <= i < |p.runs|
      ensures !p.runs[i].relay.handlersInstalled
    {
      HolderIsDeaf(p.runs[i], ParentSignals(SIGINT, true));
    }
  }

  lemma {:induction false} DeafDeliver(p: Parent, s: ParentSignal, alive: seq<bool>, i: nat)
    requires RunsInv(p) && AllSignalled(p.runs)
    ensures Deliver(p, s, alive, i) == p
    decreases |p.runs| - i
  {
    if i < |p.runs| {
      var e := ParentSignals(s, i < |alive| && alive[i]);
      HolderIsDeaf(p.runs[i], e);
      hide React, AsksToReraise, Inv;
      assert p.runs[i := p.runs[i]] == p.runs;
      DeafDeliver(p, s, alive, i + 1);
    }
  }

  /** When every run has got a signal and none starts, a drained signal is not re-raised even if it
      arrives again. */
  lemma {:induction false} DrainedStaysDrained(p: Parent, later: seq<Action>, t: ParentSignal)
    requires RunsInv(p) && AllSignalled(p.runs) && Drained(p.runs, t) && NoStart(later)
    ensures var q := Exec(p, later);
            && RunsInv(q) && AllSignalled(q.runs) && Drained(q.runs, t)
            && |q.reraised| >= |p.reraised| && t !in q.reraised[|p.reraised|..]
  {
    hide Touch, Deliver, Drained, Inv, AllSignalled;
    if later != [] {
      var before, a := later[..|later| - 1], later[|later| - 1];
      DrainedStaysDrained(p, before, t);
      var q := Exec(p, before);
      assert a in later;
      StepKeepsRunsInv(q, a);
      if a.SignalArrives? {
        DeafDeliver(q, a.signal, a.alive, 0);
      } else if a.run < |q.runs| && !a.event.ParentSignals? {
        TouchKeepsSignalled(q, a.run, a.event);
        DrainedTouchStays(q, a.run, a.event, |p.reraised|, t);
      }
    } else {
      assert p.reraised[|p.reraised|..] == [];
    }
  }

  /** A signal has reached the runs. */
  lemma {:induction false} DeliverySignalsAll(p: Parent, s: ParentSignal, alive: seq<bool>, i: nat)
    requires RunsInv(p) && SignalledUpTo(p.runs, i)
    ensures var q := Deliver(p, s, alive, i); RunsInv(q) && AllSignalled(q.runs)
    decreases |p.runs| - i
  {
    hide Touch, Inv;
    if i < |p.runs| {
      var groupAlive := i < |alive| && alive[i];
      TouchKeepsRunsInv(p, i, ParentSignals(s, groupAlive));
      DeliverySignals(p, i, s, groupAlive);
      DeliverySignalsAll(Touch(p, i, ParentSignals(s, groupAlive)), s, alive, i + 1);
    }
  }

  /** Every run that got another signal is done and its child has closed. */
  predicate OthersDrained(runs: seq<Run>, s: ParentSignal) {
    forall t: ParentSignal :: t != s ==> Drained(runs, t)
  }

  predicate RaisesOnly(p: Parent, q: Parent, s: ParentSignal) {
    forall t: ParentSignal :: Raises(p, q, t) ==> t == s
  }

  lemma {:induction false} OtherIsNotRaised(before: Parent, s: ParentSignal, alive: seq<bool>, later: seq<Action>,
                                            t: ParentSignal)
    requires RunsInv(before) && Drained(before.runs, t) && t != s && NoStart(later)
    ensures !Raises(before, Exec(Deliver(before, s, alive, 0), later), t)
  {
    hide Touch, Deliver, Drained, Inv, Exec, AllSignalled, Raises;
    var base, signalled := |before.reraised|, Deliver(before, s, alive, 0);
    assert before.reraised[base..] == [];
    DrainedDeliverStays(before, s, alive, 0, base, t);
    DeliverySignalsAll(before, s, alive, 0);
    DrainedStaysDrained(signalled, later, t);
    var q := Exec(signalled, later);
    InTwoStages(base, signalled.reraised, q.reraised, t);
    ExecGrows(signalled, later);
    NotRaised(before, q, t);
  }

  lemma {:induction false} InTwoStages(base: nat, middle: seq<ParentSignal>, all: seq<ParentSignal>, t: ParentSignal)
    requires base <= |middle| <= |all| && t !in middle[base..] && t !in all[|middle|..]
    ensures middle <= all ==> t !in all[base..]
  {
    if middle <= all {
      assert all[base..] == middle[base..] + all[|middle|..];
    }
  }

  lemma {:induction false} DeliverGrows(p: Parent, s: ParentSignal, alive: seq<bool>, i: nat)
    ensures p.reraised <= Deliver(p, s, alive, i).reraised
    decreases |p.runs| - i
  {
    hide React, AsksToReraise, AllDone;
    if i < |p.runs| {
      DeliverGrows(Touch(p, i, ParentSignals(s, i < |alive| && alive[i])), s, alive, i + 1);
    }
  }

  lemma {:induction false} ExecGrows(p: Parent, later: seq<Action>)
    ensures p.reraised <= Exec(p, later).reraised
  {
    hide React, AsksToReraise, AllDone, Deliver;
    if later != [] {
      var q, a := Exec(p, later[..|later| - 1]), later[|later| - 1];
      ExecGrows(p, later[..|later| - 1]);
      if a.SignalArrives? {
        DeliverGrows(q, a.signal, a.alive, 0);
      }
    }
  }

  lemma {:induction false} RaisedSince(p: Parent, q: Parent, r: Parent, t: ParentSignal)
    requires p.reraised <= q.reraised && Raises(q, r, t)
    ensures Raises(p, r, t)
  {
    assert r.reraised[|q.reraised|..] == r.reraised[|p.reraised|..][|q.reraised| - |p.reraised|..];
  }

  lemma {:induction false} OthersAreNotRaised(before: Parent, s: ParentSignal, alive: seq<bool>, later: seq<Action>)
    requires RunsInv(before) && OthersDrained(before.runs, s) && NoStart(later)
    ensures RaisesOnly(before, Exec(Deliver(before, s, alive, 0), later), s)
  {
    hide Exec, Deliver, Inv, Raises, Drained;
    var q := Exec(Deliver(before, s, alive, 0), later);
    forall t: ParentSignal | t != s
      ensures !Raises(before, q, t)
    {
      OtherIsNotRaised(before, s, alive, later, t);
    }
  }

  /** A run that got t and is not drained still makes the parent get t after s has been delivered; when
      it is not done, the parent gets t alone. */
  lemma {:induction false} HolderIsRaised(before: Parent, s: ParentSignal, alive: seq<bool>, k: nat, t: ParentSignal)
    requires RunsInv(before) && k < |before.runs| && HoldsUndrained(before.runs[k], t)
    ensures var signalled := Deliver(before, s, alive, 0);
            var q := Exec(signalled, FinishLast(signalled, k));
            && NoStart(FinishLast(signalled, k)) && Raises(before, q, t)
            && (!before.runs[k].relay.done ==> AllDone(q.runs) && q.reraised == before.reraised + [t])
  {
    hide Exec, Deliver, Inv, Raises, AllDone;
    var signalled := Deliver(before, s, alive, 0);
    DeliverySignalsAll(before, s, alive, 0);
    DeliveryKeepsHolder(before, s, alive, 0, k);
    UnregisteredHasNoSignal(before.runs[k]);
    UndrainedCanReraise(signalled, k, t);
    RaisedSince(before, signalled, Exec(signalled, FinishLast(signalled, k)), t);
  }

  /** The exact condition for safety: with no start after s, the parent is signalled s and nothing else,
      whatever happens, if and only if every run that got another signal before is done and has closed. */
  lemma {:induction false} OnlyThisSignalExactly(earlier: seq<Action>, s: ParentSignal, alive: seq<bool>)
    ensures var before := Exec(INITIAL, earlier);
            var signalled := Step(before, SignalArrives(s, alive));
            (forall later :: NoStart(later) ==> RaisesOnly(before, Exec(signalled, later), s))
            <==> OthersDrained(before.runs, s)
  {
    var before := Exec(INITIAL, earlier);
    ExecKeepsRunsInv(INITIAL, earlier);
    hide Exec, Deliver, Inv, Raises, NoStart;
    var signalled := Deliver(before, s, alive, 0);
    if OthersDrained(before.runs, s) {
      hide RaisesOnly, OthersDrained;
      forall later | NoStart(later)
        ensures RaisesOnly(before, Exec(signalled, later), s)
      {
        OthersAreNotRaised(before, s, alive, later);
      }
    } else {
      var t: ParentSignal :| t != s && !Drained(before.runs, t);
      var k :| 0 <= k < |before.runs| && HoldsUndrained(before.runs[k], t);
      HolderIsRaised(before, s, alive, k, t);
      assert !RaisesOnly(before, Exec(signalled, FinishLast(signalled, k)), s);
    }
  }

  /** The exact condition for progress: with no start after s, the parent has been signalled s whenever
      the barrier is open, whatever happens, if and only if every run that got another signal before is
      done. */
  lemma {:induction false} ThisSignalExactly(earlier: seq<Action>, s: ParentSignal, alive: seq<bool>, j: nat)
    requires var before := Exec(INITIAL, earlier);
             j < |before.runs| && before.runs[j].relay.registered && before.runs[j].relay.signal.None?
    ensures var before := Exec(INITIAL, earlier);
            var signalled := Step(before, SignalArrives(s, alive));
            (forall later :: NoStart(later) && AllDone(Exec(signalled, later).runs) ==>
                               Raises(before, Exec(signalled, later), s))
            <==> OthersDone(before.runs, s)
  {
    var before := Exec(INITIAL, earlier);
    ExecKeepsRunsInv(INITIAL, earlier);
    hide Exec, Deliver, Inv, Raises, AllDone, NoStart;
    var signalled := Deliver(before, s, alive, 0);
    if OthersDone(before.runs, s) {
      hide OthersDone;
      forall later | NoStart(later) && AllDone(Exec(signalled, later).runs)
        ensures Raises(before, Exec(signalled, later), s)
      {
        LastRunReraises(earlier, s, alive, later, j);
      }
    } else {
      var k :| 0 <= k < |before.runs| && before.runs[k].relay.signal.Some?
               && before.runs[k].relay.signal.value != s && !before.runs[k].relay.done;
      var t := before.runs[k].relay.signal.value;
      HolderIsRaised(before, s, alive, k, t);
      OnlyRaised(before, Exec(signalled, FinishLast(signalled, k)), s, t);
    }
  }

  lemma {:induction false} OnlyRaised(p: Parent, q: Parent, s: ParentSignal, t: ParentSignal)
    requires q.reraised == p.reraised + [t] && s != t
    ensures !Raises(p, q, s)
  {
    assert q.reraised[|p.reraised|..] == [t];
  }

  /** The parent is signalled a signal that a registered run never got, and not the one that reached them
      all: a run starts between two signals, and the run that got the first one is the last to be done. */
  lemma {:induction false} FirstSignalIsReraised(o: Options)
    ensures var p := Exec(INITIAL, [Start(o), SignalArrives(SIGINT, [true]), Start(o),
                                    SignalArrives(SIGTERM, [true, true]),
                                    Happens(1, KillTimerFires), Happens(0, KillTimerFires)]);
            && |p.runs| == 2 && AllDone(p.runs) && p.reraised == [SIGINT]
            && p.runs[1].relay.registered && p.runs[1].relay.signal == Some(SIGTERM)
  {
    hide Step, AllDone;
    var actions := [Start(o), SignalArrives(SIGINT, [true]), Start(o), SignalArrives(SIGTERM, [true, true]),
                    Happens(1, KillTimerFires), Happens(0, KillTimerFires)];
    ExecOne(INITIAL, [], Start(o), actions[..1]);
    ExecOne(INITIAL, actions[..1], SignalArrives(SIGINT, [true]), actions[..2]);
    ExecOne(INITIAL, actions[..2], Start(o), actions[..3]);
    ExecOne(INITIAL, actions[..3], SignalArrives(SIGTERM, [true, true]), actions[..4]);
    ExecOne(INITIAL, actions[..4], Happens(1, KillTimerFires), actions[..5]);
    ExecOne(INITIAL, actions[..5], Happens(0, KillTimerFires), actions);
    hide Exec;
    StartingLate(o, SIGINT);
    SecondSignal(o);
    FiringBoth(o);
  }

  function Waiting(o: Options, s: ParentSignal): Run {
    OnParentSignal(Fresh(o), s, true)
  }

  lemma {:induction false} SecondSignal(o: Options)
    ensures Step(Parent([Waiting(o, SIGINT), Fresh(o)], []), SignalArrives(SIGTERM, [true, true]))
            == Parent([Waiting(o, SIGINT), Waiting(o, SIGTERM)], [])
  {
    var first, second := Waiting(o, SIGINT), Waiting(o, SIGTERM);
    var e := ParentSignals(SIGTERM, true);
    assert React(first, e) == first && AsksToReraise(first, e).None?;
    assert React(Fresh(o), e) == second && AsksToReraise(Fresh(o), e).None?;
    hide OnParentSignal, React, AsksToReraise, Fresh, Waiting;
    assert [first, Fresh(o)][0 := first] == [first, Fresh(o)];
    assert [first, Fresh(o)][1 := second] == [first, second];
    assert Deliver(Parent([first, second], []), SIGTERM, [true, true], 2) == Parent([first, second], []);
    assert Deliver(Parent([first, Fresh(o)], []), SIGTERM, [true, true], 1) == Parent([first, second], []);
  }

  lemma {:induction false} FiringBoth(o: Options)
    ensures var one := Step(Parent([Waiting(o, SIGINT), Waiting(o, SIGTERM)], []), Happens(1, KillTimerFires));
            var p := Step(one, Happens(0, KillTimerFires));
            && |p.runs| == 2 && AllDone(p.runs) && p.reraised == [SIGINT]
            && p.runs[1].relay.registered && p.runs[1].relay.signal == Some(SIGTERM)
  {
    var first, second := Waiting(o, SIGINT), Waiting(o, SIGTERM);
    var firstDone, secondDone := KillChild(first), KillChild(second);
    assert [first, second][1 := secondDone] == [first, secondDone];
    assert !AllDone([first, secondDone]) by {
      assert [first, secondDone][0].relay.registered;
    }
    assert [first, secondDone][0 := firstDone] == [firstDone, secondDone];
  }

  /** Such a state is reached: a second run starts while the first is waiting for its group, the
      first is done while the second is still registered, and the second then closes normally. */
  lemma {:induction false} LateStartLosesSignal(o: Options)
    ensures var p := Exec(INITIAL, [Start(o), SignalArrives(SIGTERM, [true]), Start(o),
                                    Happens(0, CloseEvent(Some(0), false)), Happens(1, CloseEvent(Some(0), false))]);
            |p.runs| == 2 && p.runs[0].relay.registered && p.runs[0].relay.done
            && Drained(p.runs, SIGTERM) && p.reraised == []
  {
    hide Step, Fresh, Drained;
    var actions := [Start(o), SignalArrives(SIGTERM, [true]), Start(o),
                    Happens(0, CloseEvent(Some(0), false)), Happens(1, CloseEvent(Some(0), false))];
    ExecOne(INITIAL, [], Start(o), actions[..1]);
    ExecOne(INITIAL, actions[..1], SignalArrives(SIGTERM, [true]), actions[..2]);
    ExecOne(INITIAL, actions[..2], Start(o), actions[..3]);
    ExecOne(INITIAL, actions[..3], Happens(0, CloseEvent(Some(0), false)), actions[..4]);
    ExecOne(INITIAL, actions[..4], Happens(1, CloseEvent(Some(0), false)), actions);
    hide Exec;
    StartingLate(o, SIGTERM);
    ClosingBoth(o);
  }

  lemma {:induction false} StartingLate(o: Options, s: ParentSignal)
    ensures Step(INITIAL, Start(o)) == Parent([Fresh(o)], [])
    ensures Step(Parent([Fresh(o)], []), SignalArrives(s, [true])) == Parent([Waiting(o, s)], [])
    ensures Step(Parent([Waiting(o, s)], []), Start(o)) == Parent([Waiting(o, s), Fresh(o)], [])
  {
    var waiting, e := Waiting(o, s), ParentSignals(s, true);
    assert React(Fresh(o), e) == waiting && AsksToReraise(Fresh(o), e).None?;
    hide OnParentSignal, React, AsksToReraise, Fresh, Waiting;
    assert [Fresh(o)][0 := waiting] == [waiting];
    assert Touch(Parent([Fresh(o)], []), 0, e) == Parent([waiting], []);
    assert Deliver(Parent([waiting], []), s, [true], 1) == Parent([waiting], []);
    assert Deliver(Parent([Fresh(o)], []), s, [true], 0) == Parent([waiting], []);
  }

  lemma {:induction false} ClosingBoth(o: Options)
    ensures var one := Step(Parent([Waiting(o, SIGTERM), Fresh(o)], []), Happens(0, CloseEvent(Some(0), false)));
            var p := Step(one, Happens(1, CloseEvent(Some(0), false)));
            |p.runs| == 2 && p.runs[0].relay.registered && p.runs[0].relay.done
            && Drained(p.runs, SIGTERM) && p.reraised == []
  {
    var waiting := Waiting(o, SIGTERM);
    var done, left := OnClose(waiting, Some(0), false), OnClose(Fresh(o), Some(0), false);
    assert [waiting, Fresh(o)][0 := done] == [done, Fresh(o)];
    assert [done, Fresh(o)][1].relay.registered;
    assert Step(Parent([waiting, Fresh(o)], []), Happens(0, CloseEvent(Some(0), false)))
        == Parent([done, Fresh(o)], []);
    assert [done, Fresh(o)][1 := left] == [done, left];
  }
}
