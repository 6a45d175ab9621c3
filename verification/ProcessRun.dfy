/**
 One call of `runProcess` (scripts/control-ui-i18n.ts) as an event-driven state machine.

 A run reacts to six kinds of event: its timeout, its kill timer, a relayed parent signal, output,
 a spawn error and the close of the child.  The environment decides when each happens and whether
 the process group is alive when the run looks.  Everything the run does to the outside is
 recorded in `effects`, in order.
*/
module ProcessRun {
  import opened Wrappers
  import opened Sequences
  import opened OutputCapture

  datatype ParentSignal = SIGINT | SIGTERM | SIGHUP

  datatype ChildSignal = Relayed(signal: ParentSignal) | Terminate | Kill

  datatype Reason = TimedOut | Failed | Oversized | SpawnError

  datatype Outcome = Resolved(code: int, stdout: string) | Rejected(reason: Reason)

  datatype Effect = Sent(signal: ChildSignal) | Settled(outcome: Outcome)

  /** The callback a kill timer will run. */
  datatype Timer = NoTimer | GraceTimer | ParentTimer(signal: ParentSignal)

  datatype Options = Options(rejectOnFailure: bool, maxOutputChars: nat)

  datatype Run = Run(options: Options, stdout: Capture,
                     timers: Timers, promise: Promise, relay: Relay, history: History)

  datatype Timers = Timers(timedOut: bool, timeoutArmed: bool, waitingForKillGrace: bool, killTimer: Timer)

  datatype Promise = Promise(settled: bool, childClosedResult: Option<Option<int>>)

  /** The parent signal: what the run itself knows of it, and its entry in the shared set of active runs. */
  datatype Relay = Relay(
    parentSignalPending: Option<ParentSignal>,
    handlersInstalled: bool,
    registered: bool,
    signal: Option<ParentSignal>,
    done: bool)

  /** What has happened so far; the program keeps no record of it. */
  datatype History = History(
    chunks: seq<string>,                   // the output heard
    closed: bool,                          // the close event has happened
    exit: int,                             // and then the exit code, 1 when there was none
    failedToSpawn: bool,                   // the error event has happened
    groupGone: bool,                       // the group was seen dead while a signal was pending
    effects: seq<Effect>)                  // what the run did
  {
    function Did(x: Effect): History {
      this.(effects := effects + [x])
    }
  }

  const NO_HISTORY := History([], false, 1, false, false, [])

  function Fresh(options: Options): Run {
    Run(options, EMPTY, Timers(false, true, false, NoTimer), Promise(false, None),
        Relay(None, true, true, None, false), NO_HISTORY)
  }

  // ---------------------------------------------------------------------------------------
  // Reactions

  function ExitCode(code: Option<int>): int {
    if code.Some? then code.value else 1
  }

  function Closed(r: Run, code: Option<int>): Run {
    r.(history := r.history.(closed := true, exit := ExitCode(code)))
  }

  function Settle(r: Run, outcome: Outcome): Run {
    var pending := r.relay.parentSignalPending.Some?;
    if r.promise.settled then r else
      r.(promise := r.promise.(settled := true),
         timers := r.timers.(timeoutArmed := false, killTimer := if pending then r.timers.killTimer else NoTimer),
         relay := r.relay.(registered := pending && r.relay.registered, handlersInstalled := false),
         history := r.history.Did(Settled(outcome)))
  }

  function OutcomeOf(r: Run, exit: int): Outcome {
    if r.timers.timedOut then Rejected(TimedOut)
    else if exit != 0 && r.options.rejectOnFailure then Rejected(Failed)
    else if exit == 0 && r.stdout.truncatedChars > 0 then Rejected(Oversized)
    else Resolved(exit, r.stdout.text)
  }

  function CloseOutcome(r: Run, code: Option<int>): Outcome {
    OutcomeOf(r, ExitCode(code))
  }

  function FinishClose(r: Run, code: Option<int>): Run {
    Settle(r, CloseOutcome(r, code))
  }

  datatype Event =
    | TimeoutFires
    | KillTimerFires
    | ParentSignals(parentSignal: ParentSignal, groupAlive: bool)
    | Output(chunk: string)
    | ErrorEvent
    | CloseEvent(code: Option<int>, aliveAtClose: bool)

  /** The events the environment can still produce for this run. */
  predicate Enabled(r: Run, e: Event) {
    match e
    case TimeoutFires => r.timers.timeoutArmed
    case KillTimerFires => r.timers.killTimer != NoTimer
    case ParentSignals(_, _) => r.relay.handlersInstalled
    case Output(_) => !r.history.closed
    case ErrorEvent => !r.history.failedToSpawn
    case CloseEvent(_, _) => !r.history.closed
  }

  function OnTimeout(r: Run): Run {
    var killTimer := if r.timers.waitingForKillGrace then r.timers.killTimer else GraceTimer;
    r.(timers := Timers(true, false, true, killTimer), history := r.history.Did(Sent(Terminate)))
  }

  /** The group is sent SIGKILL; a run that is being relayed a parent signal is then done. */
  function KillChild(r: Run): Run {
    r.(timers := r.timers.(waitingForKillGrace := false, killTimer := NoTimer),
       relay := r.relay.(done := r.relay.done || r.timers.killTimer.ParentTimer?),
       history := r.history.Did(Sent(Kill)))
  }

  function OnKillTimer(r: Run): Run {
    if r.timers.killTimer.GraceTimer? && r.promise.childClosedResult.Some?
    then FinishClose(KillChild(r), r.promise.childClosedResult.value)
    else KillChild(r)
  }

  function OnParentSignal(r: Run, s: ParentSignal, groupAlive: bool): Run {
    r.(relay := r.relay.(parentSignalPending := Some(s), signal := Some(s), handlersInstalled := false,
                         done := r.relay.done || !groupAlive),
       timers := if groupAlive then r.timers.(waitingForKillGrace := true, killTimer := ParentTimer(s)) else r.timers,
       history := r.history.(groupGone := r.history.groupGone || !groupAlive).Did(Sent(Relayed(s))))
  }

  /** The process group of a signalled run is gone. */
  function GroupGone(r: Run): Run {
    r.(timers := r.timers.(killTimer := NoTimer), relay := r.relay.(done := true),
       history := r.history.(groupGone := true))
  }

  function Deferred(r: Run, code: Option<int>): Run {
    r.(promise := r.promise.(childClosedResult := Some(code)))
  }

  /** The close event has to wait for the process group. */
  predicate Defers(r: Run, groupAlive: bool) {
    groupAlive && (r.relay.parentSignalPending.Some? || r.timers.waitingForKillGrace)
  }

  function OnClose(r: Run, code: Option<int>, groupAlive: bool): Run {
    if Defers(r, groupAlive) then Deferred(Closed(r, code), code)
    else if r.relay.parentSignalPending.None? then FinishClose(Closed(r, code), code)
    else GroupGone(Closed(r, code))
  }

  function React(r: Run, e: Event): Run {
    if !Enabled(r, e) then r else
      match e
      case TimeoutFires => OnTimeout(r)
      case KillTimerFires => OnKillTimer(r)
      case ParentSignals(s, groupAlive) => OnParentSignal(r, s, groupAlive)
      case Output(chunk) =>
        r.(stdout := AppendBounded(r.stdout, chunk, r.options.maxOutputChars),
           history := r.history.(chunks := r.history.chunks + [chunk]))
      case ErrorEvent => Settle(r.(history := r.history.(failedToSpawn := true)), Rejected(SpawnError))
      case CloseEvent(code, groupAlive) => OnClose(r, code, groupAlive)
  }

  /** The signal this reaction hands to `maybeReraiseRunProcessParentSignal`, if it calls it. */
  function AsksToReraise(r: Run, e: Event): Option<ParentSignal> {
    if !Enabled(r, e) then None else
      match e
      case ParentSignals(s, groupAlive) => if groupAlive then None else Some(s)
      case KillTimerFires => if r.timers.killTimer.ParentTimer? then Some(r.timers.killTimer.signal) else None
      case CloseEvent(_, groupAlive) => if groupAlive then None else r.relay.parentSignalPending
      case _ => None
  }

  lemma {:induction false} SignalReaction(r: Run, s: ParentSignal, groupAlive: bool)
    requires r.relay.handlersInstalled
    ensures React(r, ParentSignals(s, groupAlive)) == OnParentSignal(r, s, groupAlive)
    ensures AsksToReraise(r, ParentSignals(s, groupAlive)) == if groupAlive then None else Some(s)
  {
  }

  lemma {:induction false} CloseReaction(r: Run, code: Option<int>, groupAlive: bool)
    requires !r.history.closed
    ensures React(r, CloseEvent(code, groupAlive)) == OnClose(r, code, groupAlive)
    ensures AsksToReraise(r, CloseEvent(code, groupAlive)) == if groupAlive then None else r.relay.parentSignalPending
  {
  }

  function After(r: Run, events: seq<Event>): Run {
    if events == [] then r else React(After(r, events[..|events| - 1]), events[|events| - 1])
  }

  // ---------------------------------------------------------------------------------------
  // What every reaction keeps

  predicate SettledOnce(effects: seq<Effect>) {
    forall i, j :: 0 <= i < j < |effects| && effects[i].Settled? ==> !effects[j].Settled?
  }

  predicate HasSettled(effects: seq<Effect>) {
    exists i :: 0 <= i < |effects| && effects[i].Settled?
  }

  /** Nothing is settled before the group was killed. */
  predicate KilledBeforeSettled(effects: seq<Effect>) {
    forall j :: 0 <= j < |effects| && effects[j].Settled? ==> Sent(Kill) in effects[..j]
  }

  predicate NeverResolves(effects: seq<Effect>) {
    forall e :: e in effects && e.Settled? ==> e.outcome.Rejected?
  }

  /** The promise side: what has been settled, and by whom. */
  ghost predicate Settlement(r: Run) {
    && SettledOnce(r.history.effects) && (r.promise.settled <==> HasSettled(r.history.effects))
    && (r.timers.timedOut ==> NeverResolves(r.history.effects))
    && (r.promise.settled ==>
          !r.timers.timeoutArmed && !r.relay.handlersInstalled && (r.history.closed || r.history.failedToSpawn))
    && (r.promise.childClosedResult.Some? ==> r.history.closed)
    && (r.promise.childClosedResult.Some? && !r.history.failedToSpawn ==> KilledBeforeSettled(r.history.effects))
  }

  /** The relay side: a signalled run is done or has its own kill timer armed; a done run's process
      group is gone or was killed. */
  ghost predicate Relaying(r: Run) {
    && r.relay.signal == r.relay.parentSignalPending
    && (r.relay.signal.Some? <==> !r.relay.handlersInstalled && r.relay.registered)
    && (r.relay.registered <==> !r.promise.settled || r.relay.signal.Some?)
    && (r.relay.done ==> r.relay.signal.Some? && (r.history.groupGone || Sent(Kill) in r.history.effects))
    && (r.relay.signal.Some? && !r.relay.done ==>
             r.timers.killTimer == ParentTimer(r.relay.signal.value) && r.timers.waitingForKillGrace)
    && (r.timers.killTimer.ParentTimer? ==> r.relay.signal.Some? && !r.relay.done)
  }

  /** The progress side: an unsignalled run that has not settled still has something to wait for. */
  ghost predicate Progress(r: Run) {
    && (r.timers.killTimer.GraceTimer? ==> r.timers.timedOut)
    && (r.timers.timedOut || r.timers.timeoutArmed || r.promise.settled)
    && (r.relay.signal.None? && !r.promise.settled ==>
          && (r.timers.waitingForKillGrace <==> r.timers.killTimer == GraceTimer)
          && (r.history.closed ==> r.timers.killTimer == GraceTimer && r.promise.childClosedResult.Some?))
  }

  /** The output side: what was captured, and what a resolution carries. */
  ghost predicate OutputKept(r: Run) {
    && r.stdout == Captured(r.history.chunks, r.options.maxOutputChars)
    && forall x :: x in r.history.effects && x.Settled? && x.outcome.Resolved? ==> CarriesOutput(r, x.outcome)
  }

  predicate CarriesOutput(r: Run, outcome: Outcome)
    requires outcome.Resolved?
  {
    r.history.closed && outcome.stdout == r.stdout.text && (outcome.code == 0 ==> r.stdout.truncatedChars == 0)
  }

  ghost predicate Inv(r: Run) {
    Settlement(r) && Relaying(r) && Progress(r)
  }

  lemma {:induction false} EffectAdded(effects: seq<Effect>, x: Effect)
    ensures HasSettled(effects + [x]) <==> HasSettled(effects) || x.Settled?
    ensures SettledOnce(effects) && (x.Settled? ==> !HasSettled(effects)) ==> SettledOnce(effects + [x])
    ensures KilledBeforeSettled(effects) && (x.Settled? ==> Sent(Kill) in effects) ==>
              KilledBeforeSettled(effects + [x])
    ensures !HasSettled(effects) && (x.Settled? ==> Sent(Kill) in effects) ==> KilledBeforeSettled(effects + [x])
    ensures NeverResolves(effects) && (x.Settled? ==> x.outcome.Rejected?) ==> NeverResolves(effects + [x])
    ensures !HasSettled(effects) ==> NeverResolves(effects)
  {
    var more := effects + [x];
    assert forall i :: 0 <= i < |effects| ==> more[i] == effects[i];
    assert forall j :: 0 <= j <= |effects| ==> more[..j] == effects[..j];
    assert more[|effects|] == x;
    if HasSettled(effects) {
      var i :| 0 <= i < |effects| && effects[i].Settled?;
      assert more[i].Settled?;
    }
  }

  lemma {:induction false} FreshInv(options: Options)
    ensures Inv(Fresh(options))
  {
  }

  lemma {:induction false} CloseKeepsInv(r: Run, code: Option<int>, groupAlive: bool)
    requires Inv(r) && !r.history.closed
    ensures Inv(OnClose(r, code, groupAlive))
  {
    EffectAdded(r.history.effects, Settled(CloseOutcome(Closed(r, code), code)));
  }

  lemma {:induction false} KillTimerKeepsInv(r: Run)
    requires Inv(r)
    ensures Inv(OnKillTimer(r))
  {
    EffectAdded(r.history.effects, Sent(Kill));
    if r.timers.killTimer.GraceTimer? && r.promise.childClosedResult.Some? {
      EffectAdded(KillChild(r).history.effects, Settled(CloseOutcome(KillChild(r), r.promise.childClosedResult.value)));
    }
  }

  lemma {:induction false} ReactKeepsInv(r: Run, e: Event)
    requires Inv(r)
    ensures Inv(React(r, e))
  {
    if Enabled(r, e) {
      match e {
        case TimeoutFires => EffectAdded(r.history.effects, Sent(Terminate));
        case KillTimerFires => KillTimerKeepsInv(r);
        case ParentSignals(s, groupAlive) => EffectAdded(r.history.effects, Sent(Relayed(s)));
        case Output(chunk) =>
        case ErrorEvent => EffectAdded(r.history.effects, Settled(Rejected(SpawnError)));
        case CloseEvent(code, groupAlive) => CloseKeepsInv(r, code, groupAlive);
      }
    }
  }

  lemma {:induction false} AfterKeepsInv(r: Run, events: seq<Event>)
    requires Inv(r)
    ensures Inv(After(r, events))
  {
    if events != [] {
      AfterKeepsInv(r, events[..|events| - 1]);
      ReactKeepsInv(After(r, events[..|events| - 1]), events[|events| - 1]);
    }
  }

  // ---------------------------------------------------------------------------------------
  // Safety over every run

  /** The promise settles at most once; a run whose timeout fired never resolves; and a run whose close
      was deferred, without a spawn error, settles only after its group was sent SIGKILL. */
  ghost predicate Safe(r: Run) {
    && SettledOnce(r.history.effects)
    && (r.timers.timedOut ==> NeverResolves(r.history.effects))
    && (r.promise.childClosedResult.Some? && !r.history.failedToSpawn ==> KilledBeforeSettled(r.history.effects))
  }

  /** Every sequence of events leaves a run safe. */
  lemma {:induction false} RunIsSafe(options: Options, events: seq<Event>)
    ensures Safe(After(Fresh(options), events))
  {
    FreshInv(options);
    AfterKeepsInv(Fresh(options), events);
  }

  lemma {:induction false} AfterOne(r: Run, events: seq<Event>, e: Event)
    ensures After(r, events + [e]) == React(After(r, events), e)
  {
    assert (events + [e])[..|events|] == events;
  }

  lemma {:induction false} AfterConcat(r: Run, earlier: seq<Event>, later: seq<Event>)
    ensures After(r, earlier + later) == After(After(r, earlier), later)
    decreases |later|
  {
    hide React;
    if later == [] {
      assert earlier + later == earlier;
    } else {
      var n := |later| - 1;
      assert (earlier + later)[..|earlier| + n] == earlier + later[..n];
      AfterConcat(r, earlier, later[..n]);
    }
  }

  lemma {:induction false} ReactKeepsDeferral(r: Run, e: Event)
    ensures r.promise.childClosedResult.Some? ==> React(r, e).promise.childClosedResult.Some?
    ensures r.timers.waitingForKillGrace && !r.history.closed && e.CloseEvent? && e.aliveAtClose ==>
                  React(r, e).promise.childClosedResult.Some?
  {
    hide OutcomeOf, AppendBounded;
  }

  lemma {:induction false} DeferralStays(r: Run, events: seq<Event>)
    requires r.promise.childClosedResult.Some?
    ensures After(r, events).promise.childClosedResult.Some?
  {
    hide React;
    if events != [] {
      var n := |events| - 1;
      DeferralStays(r, events[..n]);
      ReactKeepsDeferral(After(r, events[..n]), events[n]);
    }
  }

  /** When the child closes inside the kill grace with its group alive, then whatever happens before and
      after, the run settles, without a spawn error, only after SIGKILL was sent. */
  lemma {:induction false} CloseInGraceWaitsForKill(options: Options, earlier: seq<Event>, code: Option<int>,
                                                    later: seq<Event>)
    requires var r := After(Fresh(options), earlier); !r.history.closed && r.timers.waitingForKillGrace
    ensures var r := After(Fresh(options), earlier + ([CloseEvent(code, true)] + later));
            !r.history.failedToSpawn ==> KilledBeforeSettled(r.history.effects)
  {
    hide React, KilledBeforeSettled, SettledOnce, NeverResolves;
    var r, e := After(Fresh(options), earlier), CloseEvent(code, true);
    assert After(r, [e]) == React(r, e) by {
      assert [e][..0] == [];
      assert After(r, []) == r;
    }
    hide After;
    RunIsSafe(options, earlier + ([e] + later));
    AfterConcat(Fresh(options), earlier, [e] + later);
    AfterConcat(r, [e], later);
    ReactKeepsDeferral(r, e);
    DeferralStays(React(r, e), later);
  }

  /** No run that got no parent signal is left hanging: once its child has closed it has settled, or
      the kill timer is armed and settles it when it fires. */
  lemma {:induction false} UnsignalledRunSettles(options: Options, events: seq<Event>)
    ensures var r := After(Fresh(options), events);
            r.history.closed && r.relay.signal.None? && !r.promise.settled ==>
              Enabled(r, KillTimerFires) && React(r, KillTimerFires).promise.settled
  {
    FreshInv(options);
    AfterKeepsInv(Fresh(options), events);
  }

  /** Changes that leave the captured output alone. */
  ghost predicate SameOutput(r: Run, next: Run, added: seq<Effect>) {
    && next.options == r.options && next.stdout == r.stdout && next.history.chunks == r.history.chunks
    && (r.history.closed ==> next.history.closed)
    && next.history.effects == r.history.effects + added
    && forall x :: x in added && x.Settled? && x.outcome.Resolved? ==> CarriesOutput(next, x.outcome)
  }

  lemma {:induction false} SameOutputKeepsOutput(r: Run, next: Run, added: seq<Effect>)
    requires OutputKept(r) && SameOutput(r, next, added)
    ensures OutputKept(next)
  {
  }

  lemma {:induction false} FinishCloseKeepsOutput(r: Run, code: Option<int>)
    requires OutputKept(r) && r.history.closed
    ensures OutputKept(FinishClose(r, code))
  {
    if !r.promise.settled {
      SameOutputKeepsOutput(r, FinishClose(r, code), [Settled(CloseOutcome(r, code))]);
    }
  }

  lemma {:induction false} OutputEventKeepsOutput(r: Run, chunk: string)
    requires OutputKept(r) && !r.history.closed
    ensures OutputKept(React(r, Output(chunk)))
  {
    assert (r.history.chunks + [chunk])[..|r.history.chunks|] == r.history.chunks;
  }

  lemma {:induction false} KillTimerKeepsOutput(r: Run)
    requires Inv(r) && OutputKept(r)
    ensures OutputKept(OnKillTimer(r))
  {
    SameOutputKeepsOutput(r, KillChild(r), [Sent(Kill)]);
    if r.timers.killTimer.GraceTimer? && r.promise.childClosedResult.Some? {
      FinishCloseKeepsOutput(KillChild(r), r.promise.childClosedResult.value);
    }
  }

  lemma {:induction false} CloseKeepsOutput(r: Run, code: Option<int>, groupAlive: bool)
    requires OutputKept(r)
    ensures OutputKept(OnClose(r, code, groupAlive))
  {
    SameOutputKeepsOutput(r, Closed(r, code), []);
    if !Defers(r, groupAlive) && r.relay.parentSignalPending.None? {
      FinishCloseKeepsOutput(Closed(r, code), code);
    } else {
      SameOutputKeepsOutput(r, OnClose(r, code, groupAlive), []);
    }
  }

  lemma {:induction false} ReactKeepsOutput(r: Run, e: Event)
    requires Inv(r) && OutputKept(r)
    ensures OutputKept(React(r, e))
  {
    if Enabled(r, e) {
      match e {
        case TimeoutFires => SameOutputKeepsOutput(r, React(r, e), [Sent(Terminate)]);
        case KillTimerFires => KillTimerKeepsOutput(r);
        case ParentSignals(s, groupAlive) => SameOutputKeepsOutput(r, React(r, e), [Sent(Relayed(s))]);
        case Output(chunk) => OutputEventKeepsOutput(r, chunk);
        case ErrorEvent =>
          if r.promise.settled {
            assert r.history.effects + [] == r.history.effects;
            SameOutputKeepsOutput(r, React(r, e), []);
          } else {
            SameOutputKeepsOutput(r, React(r, e), [Settled(Rejected(SpawnError))]);
          }
        case CloseEvent(code, groupAlive) => CloseKeepsOutput(r, code, groupAlive);
      }
    }
  }

  lemma {:induction false} ReactKeepsOptions(r: Run, e: Event)
    ensures React(r, e).options == r.options
  {
  }

  lemma {:induction false} AfterKeepsOutput(options: Options, events: seq<Event>)
    ensures After(Fresh(options), events).options == options
    ensures OutputKept(After(Fresh(options), events))
  {
    if events != [] {
      var before := After(Fresh(options), events[..|events| - 1]);
      FreshInv(options);
      AfterKeepsInv(Fresh(options), events[..|events| - 1]);
      AfterKeepsOutput(options, events[..|events| - 1]);
      ReactKeepsOutput(before, events[|events| - 1]);
      ReactKeepsOptions(before, events[|events| - 1]);
    }
  }

  lemma {:induction false} CaptureIsKept(options: Options, events: seq<Event>)
    ensures var r := After(Fresh(options), events);
            r.stdout == Captured(r.history.chunks, options.maxOutputChars)
  {
    hide React;
    AfterKeepsOutput(options, events);
  }

  /** A run that resolves with exit code zero hands over the whole output of the child; with another
      code, the end of it. */
  lemma {:induction false} ResolvedOutputIsComplete(options: Options, events: seq<Event>, outcome: Outcome)
    requires options.maxOutputChars >= 1
    ensures var r := After(Fresh(options), events);
            var heard := Flatten(r.history.chunks);
            outcome.Resolved? && Settled(outcome) in r.history.effects ==>
              && outcome.stdout == Tail(heard, options.maxOutputChars)
              && (outcome.code == 0 ==> outcome.stdout == heard)
  {
    AfterKeepsOutput(options, events);
    var r := After(Fresh(options), events);
    hide After, Flatten;
    CaptureIsTailOfOutput(r.history.chunks, options.maxOutputChars);
    if outcome.Resolved? && Settled(outcome) in r.history.effects {
      assert CarriesOutput(r, outcome);
    }
  }

  // ---------------------------------------------------------------------------------------
  // What a run sends, and what it no longer sends

  predicate HasRelayed(effects: seq<Effect>) {
    exists k :: 0 <= k < |effects| && effects[k].Sent? && effects[k].signal.Relayed?
  }

  ghost predicate RelayedBeforeSettled(effects: seq<Effect>) {
    forall i :: 0 <= i < |effects| && effects[i].Settled? ==> HasRelayed(effects[..i])
  }

  /** Behind the settlement there is nothing but SIGKILL, and that only when a parent signal was relayed
      before. */
  ghost predicate QuietAfterSettled(effects: seq<Effect>) {
    forall i, j :: 0 <= i < j < |effects| && effects[i].Settled? ==>
      effects[j] == Sent(Kill) && HasRelayed(effects[..i])
  }

  ghost predicate Quiet(r: Run) {
    && QuietAfterSettled(r.history.effects)
    && (r.relay.signal.Some? ==> HasRelayed(r.history.effects) && RelayedBeforeSettled(r.history.effects))
    && (r.promise.settled && r.relay.signal.None? ==> r.timers.killTimer == NoTimer)
    && (r.history.failedToSpawn ==> r.promise.settled)
  }

  /** A timeout that fired has sent SIGTERM; unless the run has settled, SIGKILL follows or was sent. */
  ghost predicate Escalates(r: Run) {
    r.timers.timedOut ==>
      && Sent(Terminate) in r.history.effects
      && (r.relay.signal.None? && !r.promise.settled ==>
            r.timers.killTimer == GraceTimer || Sent(Kill) in r.history.effects)
  }

  lemma {:induction false} QuietAdded(effects: seq<Effect>, x: Effect)
    requires QuietAfterSettled(effects)
    requires HasSettled(effects) ==> x == Sent(Kill) && RelayedBeforeSettled(effects)
    ensures QuietAfterSettled(effects + [x])
    ensures HasRelayed(effects) ==> HasRelayed(effects + [x])
    ensures x.Sent? && x.signal.Relayed? ==> HasRelayed(effects + [x])
    ensures !HasSettled(effects) || RelayedBeforeSettled(effects) ==>
              (x.Settled? ==> HasRelayed(effects)) ==> RelayedBeforeSettled(effects + [x])
  {
    var more := effects + [x];
    assert more[|effects|] == x;
    assert forall i :: 0 <= i < |effects| ==> more[i] == effects[i];
    assert forall i :: 0 <= i <= |effects| ==> more[..i] == effects[..i];
    if HasRelayed(effects) {
      var k :| 0 <= k < |effects| && effects[k].Sent? && effects[k].signal.Relayed?;
      assert more[k] == effects[k];
    }
    hide HasRelayed;
  }

  lemma {:induction false} SettleKeepsQuiet(r: Run, outcome: Outcome)
    requires r.promise.settled <==> HasSettled(r.history.effects)
    requires r.relay.signal == r.relay.parentSignalPending
    requires Quiet(r.(history := r.history.(failedToSpawn := false)))
    ensures Quiet(Settle(r, outcome))
  {
    if !r.promise.settled {
      QuietAdded(r.history.effects, Settled(outcome));
      hide HasRelayed, RelayedBeforeSettled, QuietAfterSettled;
    }
  }

  lemma {:induction false} KillKeepsQuiet(r: Run)
    requires Inv(r) && Quiet(r) && r.timers.killTimer != NoTimer
    ensures Quiet(KillChild(r))
  {
    QuietAdded(r.history.effects, Sent(Kill));
    hide HasRelayed, RelayedBeforeSettled, QuietAfterSettled, SettledOnce, NeverResolves, KilledBeforeSettled;
  }

  lemma {:induction false} KillTimerKeepsQuiet(r: Run)
    requires Inv(r) && Quiet(r) && r.timers.killTimer != NoTimer
    ensures Quiet(OnKillTimer(r))
  {
    var n := KillChild(r);
    KillKeepsQuiet(r);
    EffectAdded(r.history.effects, Sent(Kill));
    if r.timers.killTimer.GraceTimer? && r.promise.childClosedResult.Some? {
      hide OutcomeOf, HasRelayed, RelayedBeforeSettled, QuietAfterSettled, HasSettled;
      SettleKeepsQuiet(n, CloseOutcome(n, r.promise.childClosedResult.value));
    }
  }

  lemma {:induction false} CloseKeepsQuiet(r: Run, code: Option<int>, groupAlive: bool)
    requires Inv(r) && Quiet(r) && !r.history.closed
    ensures Quiet(OnClose(r, code, groupAlive))
  {
    hide OutcomeOf, HasRelayed, RelayedBeforeSettled, QuietAfterSettled;
    if !Defers(r, groupAlive) && r.relay.parentSignalPending.None? {
      SettleKeepsQuiet(Closed(r, code), CloseOutcome(Closed(r, code), code));
    }
  }

  lemma {:induction false} ReactKeepsQuiet(r: Run, e: Event)
    requires Inv(r) && Quiet(r)
    ensures Quiet(React(r, e))
  {
    if Enabled(r, e) {
      match e {
        case TimeoutFires =>
          QuietAdded(r.history.effects, Sent(Terminate));
        case KillTimerFires => KillTimerKeepsQuiet(r);
        case ParentSignals(s, groupAlive) =>
          QuietAdded(r.history.effects, Sent(Relayed(s)));
        case Output(chunk) =>
        case ErrorEvent =>
          SettleKeepsQuiet(r.(history := r.history.(failedToSpawn := true)), Rejected(SpawnError));
        case CloseEvent(code, groupAlive) => CloseKeepsQuiet(r, code, groupAlive);
      }
    }
  }

  lemma {:induction false} ReactKeepsEscalates(r: Run, e: Event)
    requires Inv(r) && Escalates(r)
    ensures Escalates(React(r, e))
  {
    hide OutcomeOf, AppendBounded, SettledOnce, NeverResolves, KilledBeforeSettled, HasSettled;
  }

  lemma {:induction false} AfterKeepsQuiet(options: Options, events: seq<Event>)
    ensures var r := After(Fresh(options), events); Inv(r) && Quiet(r) && Escalates(r)
  {
    FreshInv(options);
    AfterKeepsInv(Fresh(options), events);
    if events != [] {
      hide React, Inv, Quiet, Escalates;
      var before := events[..|events| - 1];
      AfterKeepsQuiet(options, before);
      ReactKeepsQuiet(After(Fresh(options), before), events[|events| - 1]);
      ReactKeepsEscalates(After(Fresh(options), before), events[|events| - 1]);
    }
  }

  predicate RelayedOnce(effects: seq<Effect>) {
    forall i, j :: 0 <= i < j < |effects| && effects[i].Sent? && effects[j].Sent? ==>
      !(effects[i].signal.Relayed? && effects[j].signal.Relayed?)
  }

  /** Every timer that is armed, and every SIGKILL sent, is owed to the timeout or to a parent signal. */
  ghost predicate Balanced(r: Run) {
    var sent := r.history.effects;
    && RelayedOnce(sent)
    && (HasRelayed(sent) <==> r.relay.signal.Some?)
    && Occurrences(sent, Sent(Terminate)) == (if r.timers.timedOut then 1 else 0)
    && (r.timers.timedOut ==> !r.timers.timeoutArmed)
    && Occurrences(sent, Sent(Kill)) + (if r.timers.killTimer != NoTimer then 1 else 0)
       <= (if r.timers.timedOut then 1 else 0) + (if r.relay.signal.Some? then 1 else 0)
  }

  lemma {:induction false} OneMoreEffect(effects: seq<Effect>, x: Effect)
    ensures HasRelayed(effects + [x]) <==> HasRelayed(effects) || (x.Sent? && x.signal.Relayed?)
    ensures RelayedOnce(effects) && !(HasRelayed(effects) && x.Sent? && x.signal.Relayed?) ==>
              RelayedOnce(effects + [x])
    ensures forall y :: Occurrences(effects + [x], y) == Occurrences(effects, y) + if x == y then 1 else 0
  {
    var more := effects + [x];
    assert more[|effects|] == x;
    assert forall i :: 0 <= i < |effects| ==> more[i] == effects[i];
    if HasRelayed(effects) {
      var k :| 0 <= k < |effects| && effects[k].Sent? && effects[k].signal.Relayed?;
      assert more[k] == effects[k];
    }
  }

  lemma {:induction false} SettleStaysBalanced(r: Run, outcome: Outcome)
    requires Balanced(r)
    ensures Balanced(Settle(r, outcome))
  {
    OneMoreEffect(r.history.effects, Settled(outcome));
    hide HasRelayed, RelayedOnce, Occurrences;
  }

  lemma {:induction false} KillTimerStaysBalanced(r: Run)
    requires Balanced(r) && r.timers.killTimer != NoTimer
    ensures Balanced(OnKillTimer(r))
  {
    OneMoreEffect(r.history.effects, Sent(Kill));
    hide HasRelayed, RelayedOnce, Occurrences, OutcomeOf;
    var n := KillChild(r);
    assert Balanced(n);
    if r.timers.killTimer.GraceTimer? && r.promise.childClosedResult.Some? {
      SettleStaysBalanced(n, CloseOutcome(n, r.promise.childClosedResult.value));
    }
  }

  lemma {:induction false} CloseStaysBalanced(r: Run, code: Option<int>, groupAlive: bool)
    requires Balanced(r)
    ensures Balanced(OnClose(r, code, groupAlive))
  {
    hide HasRelayed, RelayedOnce, Occurrences, OutcomeOf;
    if !Defers(r, groupAlive) && r.relay.parentSignalPending.None? {
      SettleStaysBalanced(Closed(r, code), CloseOutcome(Closed(r, code), code));
    }
  }

  lemma {:induction false} ReactStaysBalanced(r: Run, e: Event)
    requires Inv(r) && Balanced(r)
    ensures Balanced(React(r, e))
  {
    if Enabled(r, e) {
      hide HasRelayed, RelayedOnce, Occurrences;
      match e {
        case TimeoutFires => OneMoreEffect(r.history.effects, Sent(Terminate));
        case KillTimerFires => KillTimerStaysBalanced(r);
        case ParentSignals(s, groupAlive) => OneMoreEffect(r.history.effects, Sent(Relayed(s)));
        case Output(chunk) =>
        case ErrorEvent =>
          SettleStaysBalanced(r.(history := r.history.(failedToSpawn := true)), Rejected(SpawnError));
        case CloseEvent(code, groupAlive) => CloseStaysBalanced(r, code, groupAlive);
      }
    }
  }

  /** However its events are ordered, a run relays at most one parent signal, sends SIGTERM at most once, and
      sends at most one SIGKILL for each of these. */
  lemma {:induction false} SignalsAreBalanced(options: Options, events: seq<Event>)
    ensures Balanced(After(Fresh(options), events))
    ensures var sent := After(Fresh(options), events).history.effects;
            && RelayedOnce(sent) && Occurrences(sent, Sent(Terminate)) <= 1
            && Occurrences(sent, Sent(Kill)) <= Occurrences(sent, Sent(Terminate)) + if HasRelayed(sent) then 1 else 0
  {
    FreshInv(options);
    AfterKeepsInv(Fresh(options), events);
    if events != [] {
      hide React, Inv, Balanced;
      var before := events[..|events| - 1];
      AfterKeepsInv(Fresh(options), before);
      SignalsAreBalanced(options, before);
      ReactStaysBalanced(After(Fresh(options), before), events[|events| - 1]);
    }
    assert Balanced(After(Fresh(options), events));
  }

  /** A settled run is over: it has no timeout armed and listens for no signal, and without a parent
      signal it has no kill timer either.  Whatever happens, the only thing it can still do is the
      SIGKILL of a parent signal relayed before it settled. */
  lemma {:induction false} SettledIsOver(options: Options, events: seq<Event>)
    ensures var r := After(Fresh(options), events);
            && QuietAfterSettled(r.history.effects)
            && (r.promise.settled ==>
                  !Enabled(r, TimeoutFires) && forall s, alive :: !Enabled(r, ParentSignals(s, alive)))
            && (r.promise.settled && r.relay.signal.None? ==> !Enabled(r, KillTimerFires))
  {
    AfterKeepsQuiet(options, events);
  }

  /** A timeout always sends SIGTERM, and then, unless the run settles first or its group is gone,
      SIGKILL has been sent or its timer is armed. */
  lemma {:induction false} TimeoutEscalates(options: Options, events: seq<Event>)
    ensures var r := After(Fresh(options), events);
            var sent := r.history.effects;
            && (r.timers.timedOut ==>
                  && Sent(Terminate) in sent
                  && (r.promise.settled || r.history.groupGone || Sent(Kill) in sent || Enabled(r, KillTimerFires)))
            && (Enabled(r, KillTimerFires) ==> sent + [Sent(Kill)] <= React(r, KillTimerFires).history.effects)
  {
    AfterKeepsQuiet(options, events);
    hide OutcomeOf, SettledOnce, NeverResolves, KilledBeforeSettled, HasSettled, QuietAfterSettled;
  }

  /** A spawn error rejects a run that has not settled, for that reason, and changes nothing else outside. */
  lemma {:induction false} SpawnErrorRejects(options: Options, events: seq<Event>)
    ensures var r := After(Fresh(options), events);
            var n := React(r, ErrorEvent);
            && n.promise.settled
            && n.history.effects
               == r.history.effects + if r.promise.settled then [] else [Settled(Rejected(SpawnError))]
  {
    AfterKeepsQuiet(options, events);
  }

  // ---------------------------------------------------------------------------------------
  // The history records what happened

  predicate ClosedWith(e: Event, exit: int) {
    e.CloseEvent? && (e.code == Some(exit) || (e.code == None && exit == 1))
  }

  /** The run looked for its process group and did not find it. */
  predicate SawGroupGone(e: Event) {
    (e.ParentSignals? && !e.groupAlive) || (e.CloseEvent? && !e.aliveAtClose)
  }

  ghost predicate Witnessed(h: History, events: seq<Event>) {
    && (h.closed ==> exists e :: e in events && ClosedWith(e, h.exit))
    && (h.failedToSpawn ==> ErrorEvent in events)
    && (h.groupGone ==> exists e :: e in events && SawGroupGone(e))
  }

  lemma {:induction false} ReactIsWitnessed(r: Run, events: seq<Event>, e: Event)
    requires Witnessed(r.history, events)
    ensures Witnessed(React(r, e).history, events + [e])
  {
    hide OutcomeOf, AppendBounded;
    var more := events + [e];
    assert e in more && forall x :: x in events ==> x in more;
  }

  /** A close, its exit code, a spawn error and a group that is gone are only recorded when an event said so. */
  lemma {:induction false} HistoryIsWitnessed(options: Options, events: seq<Event>)
    ensures Witnessed(After(Fresh(options), events).history, events)
  {
    if events != [] {
      hide React, Witnessed;
      var n := |events| - 1;
      HistoryIsWitnessed(options, events[..n]);
      ReactIsWitnessed(After(Fresh(options), events[..n]), events[..n], events[n]);
      assert events[..n] + [events[n]] == events;
    }
  }

  // ---------------------------------------------------------------------------------------
  // The outcome

  /** An outcome is that of a spawn error, or that of the exit code. */
  predicate Explained(r: Run, outcome: Outcome) {
    (r.history.failedToSpawn && outcome == Rejected(SpawnError))
    || (r.history.closed && outcome == OutcomeOf(r, r.history.exit))
  }

  /** What is settled is explained, and a remembered close has the exit code. */
  ghost predicate OutcomeKept(r: Run) {
    && (r.promise.childClosedResult.Some? ==> ExitCode(r.promise.childClosedResult.value) == r.history.exit)
    && forall x :: x in r.history.effects && x.Settled? ==> Explained(r, x.outcome)
  }

  lemma {:induction false} NotSettledYet(r: Run)
    requires Inv(r) && !r.promise.settled
    ensures forall x :: x in r.history.effects ==> !x.Settled?
  {
    forall x | x in r.history.effects
      ensures !x.Settled?
    {
      var i :| 0 <= i < |r.history.effects| && r.history.effects[i] == x;
    }
  }

  lemma {:induction false} SettleKeepsOutcome(r: Run, outcome: Outcome)
    requires OutcomeKept(r) && Explained(r, outcome)
    ensures OutcomeKept(Settle(r, outcome))
  {
    if !r.promise.settled {
      StaysExplained(r, Settle(r, outcome), [Settled(outcome)]);
    }
  }

  /** What keeps everything an outcome depends on keeps the outcomes. */
  lemma {:induction false} StaysExplained(r: Run, n: Run, added: seq<Effect>)
    requires OutcomeKept(r)
    requires n.history.effects == r.history.effects + added
    requires forall x :: x in added && x.Settled? ==> Explained(r, x.outcome)
    requires n.promise.childClosedResult.Some? ==> ExitCode(n.promise.childClosedResult.value) == n.history.exit
    requires r.history.failedToSpawn ==> n.history.failedToSpawn
    requires n.timers.timedOut != r.timers.timedOut ==> forall x :: x in n.history.effects ==> !x.Settled?
    requires r.history.closed ==> n.history.closed && n.history.exit == r.history.exit
                                  && n.options == r.options && n.stdout == r.stdout
    ensures OutcomeKept(n)
  {
    forall x | x in n.history.effects && x.Settled?
      ensures Explained(n, x.outcome)
    {
      assert x in r.history.effects || x in added;
    }
  }

  lemma {:induction false} KillTimerKeepsOutcome(r: Run)
    requires Inv(r) && OutcomeKept(r)
    ensures OutcomeKept(OnKillTimer(r))
  {
    var n := KillChild(r);
    StaysExplained(r, n, [Sent(Kill)]);
    if r.timers.killTimer.GraceTimer? && r.promise.childClosedResult.Some? {
      hide OutcomeOf;
      SettleKeepsOutcome(n, CloseOutcome(n, r.promise.childClosedResult.value));
    }
  }

  lemma {:induction false} CloseKeepsOutcome(r: Run, code: Option<int>, groupAlive: bool)
    requires Inv(r) && OutcomeKept(r) && !r.history.closed
    ensures OutcomeKept(OnClose(r, code, groupAlive))
  {
    hide OutcomeOf;
    assert r.promise.childClosedResult.None?;
    hide Inv;
    var n := Closed(r, code);
    if !Defers(r, groupAlive) && r.relay.parentSignalPending.None? {
      StaysExplained(r, n, []);
      SettleKeepsOutcome(n, CloseOutcome(n, code));
    } else {
      StaysExplained(r, OnClose(r, code, groupAlive), []);
    }
  }

  lemma {:induction false} ErrorKeepsOutcome(r: Run)
    requires OutcomeKept(r)
    ensures OutcomeKept(React(r, ErrorEvent))
  {
    hide OutcomeOf;
    var n := r.(history := r.history.(failedToSpawn := true));
    StaysExplained(r, n, []);
    SettleKeepsOutcome(n, Rejected(SpawnError));
  }

  lemma {:induction false} ReactKeepsOutcome(r: Run, e: Event)
    requires Inv(r) && OutcomeKept(r)
    ensures OutcomeKept(React(r, e))
  {
    if Enabled(r, e) {
      match e {
        case TimeoutFires =>
          NotSettledYet(r);
          StaysExplained(r, OnTimeout(r), [Sent(Terminate)]);
        case KillTimerFires => KillTimerKeepsOutcome(r);
        case ParentSignals(s, groupAlive) =>
          StaysExplained(r, OnParentSignal(r, s, groupAlive), [Sent(Relayed(s))]);
        case Output(chunk) =>
          hide OutcomeOf, AppendBounded;
          StaysExplained(r, React(r, e), []);
        case ErrorEvent => ErrorKeepsOutcome(r);
        case CloseEvent(code, groupAlive) => CloseKeepsOutcome(r, code, groupAlive);
      }
    }
  }

  lemma {:induction false} AfterKeepsOutcome(options: Options, events: seq<Event>)
    ensures OutcomeKept(After(Fresh(options), events))
  {
    if events != [] {
      hide React, OutcomeKept;
      var before := events[..|events| - 1];
      AfterKeepsOutcome(options, before);
      FreshInv(options);
      AfterKeepsInv(Fresh(options), before);
      ReactKeepsOutcome(After(Fresh(options), before), events[|events| - 1]);
    }
  }

  /** Why a run ended as it did: a spawn error, the timeout, a failure the caller wants rejected, too
      much output, and if it is none of these the run resolves with the child's exit code. */
  predicate Describes(outcome: Outcome, history: History, options: Options, timedOut: bool) {
    var exit, heard := history.exit, Flatten(history.chunks);
    && (outcome == Rejected(SpawnError) ==> history.failedToSpawn)
    && (outcome != Rejected(SpawnError) ==>
          && history.closed
          && (outcome == Rejected(TimedOut) <==> timedOut)
          && (outcome == Rejected(Failed) <==> !timedOut && exit != 0 && options.rejectOnFailure)
          && (outcome == Rejected(Oversized) <==> !timedOut && exit == 0 && |heard| > options.maxOutputChars)
          && (outcome.Resolved? ==> outcome.code == exit))
  }

  lemma {:induction false} ExplainedDescribes(r: Run, outcome: Outcome)
    requires Explained(r, outcome) && Holds(r.stdout, Flatten(r.history.chunks), r.options.maxOutputChars)
    ensures Describes(outcome, r.history, r.options, r.timers.timedOut)
  {
  }

  /** How a run settles, over every sequence of events. */
  lemma {:induction false} SettlesExactly(options: Options, events: seq<Event>)
    requires options.maxOutputChars >= 1
    ensures var r := After(Fresh(options), events);
            && (r.promise.settled <==> exists outcome :: Settled(outcome) in r.history.effects)
            && forall outcome :: Settled(outcome) in r.history.effects ==>
                 Describes(outcome, r.history, options, r.timers.timedOut)
  {
    FreshInv(options);
    AfterKeepsInv(Fresh(options), events);
    AfterKeepsOutput(options, events);
    AfterKeepsOutcome(options, events);
    var r := After(Fresh(options), events);
    CaptureIsTailOfOutput(r.history.chunks, options.maxOutputChars);
    hide After, Flatten, Captured;
    if r.promise.settled {
      var i :| 0 <= i < |r.history.effects| && r.history.effects[i].Settled?;
      assert Settled(r.history.effects[i].outcome) in r.history.effects;
    } else {
      NotSettledYet(r);
    }
    forall outcome | Settled(outcome) in r.history.effects
      ensures Describes(outcome, r.history, options, r.timers.timedOut)
    {
      assert Explained(r, outcome) by {
        hide Explained;
      }
      ExplainedDescribes(r, outcome);
    }
  }
}
