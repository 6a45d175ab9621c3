/**
 The closures of `runProcess` (scripts/control-ui-i18n.ts) over their shared variables, statement
 by statement.  An object is valid when it is in the state that module ProcessRun reaches with the
 events it has handled; every handler keeps that and leaves the run safe.
*/
module RunProcess {
  import opened Wrappers
  import opened OutputCapture
  import P = ProcessRun

  class Runner {
    const options: P.Options
    var stdout: Capture
    var timedOut: bool
    var timeoutArmed: bool
    var settled: bool
    var waitingForKillGrace: bool
    var childClosedResult: Option<Option<int>>
    var killTimer: P.Timer
    var parentSignalPending: Option<P.ParentSignal>
    var handlersInstalled: bool
    var registered: bool
    var signal: Option<P.ParentSignal>
    var done: bool
    ghost var history: P.History
    ghost var events: seq<P.Event>

    ghost function View(): P.Run
      reads this
    {
      P.Run(options, stdout, P.Timers(timedOut, timeoutArmed, waitingForKillGrace, killTimer),
            P.Promise(settled, childClosedResult),
            P.Relay(parentSignalPending, handlersInstalled, registered, signal, done), history)
    }

    /** The state is the one the events handled so far lead to. */
    ghost predicate Valid()
      reads this
    {
      View() == P.After(P.Fresh(options), events)
    }

    /** The event has been handled, and the run is still safe. */
    twostate predicate Handles(e: P.Event)
      reads this
    {
      Valid() && events == old(events) + [e] && P.Safe(View())
    }

    constructor (options: P.Options)
      ensures Valid() && events == [] && this.options == options
    {
      this.options := options;
      stdout := EMPTY;
      timedOut, timeoutArmed, settled := false, true, false;
      waitingForKillGrace, childClosedResult, killTimer := false, None, P.NoTimer;
      parentSignalPending, handlersInstalled := None, true;
      registered, signal, done := true, None, false;
      history, events := P.NO_HISTORY, [];
    }

    /** The event has been handled: the state after it is the reaction to it. */
    ghost method Handled(before: P.Run, e: P.Event)
      requires before == P.After(P.Fresh(options), events) && View() == P.React(before, e)
      modifies `events
      ensures Handles(e)
    {
      hide P.React, P.Safe, P.After;
      P.AfterOne(P.Fresh(options), events, e);
      P.RunIsSafe(options, events + [e]);
      events := events + [e];
    }

    // -------------------------------------------------------------------------------------
    // Helper closures

    method Settle(outcome: P.Outcome)
      modifies `settled, `timeoutArmed, `killTimer, `registered, `handlersInstalled, `history
      ensures View() == P.Settle(old(View()), outcome)
    {
      if settled {
        return;
      }
      settled := true;
      timeoutArmed := false;
      if parentSignalPending.None? {
        killTimer := P.NoTimer;
      }
      if parentSignalPending.None? {
        registered := false;
      }
      handlersInstalled := false;
      history := history.Did(P.Settled(outcome));
    }

    method FinishClose(code: Option<int>)
      modifies `settled, `timeoutArmed, `killTimer, `registered, `handlersInstalled, `history
      ensures View() == P.FinishClose(old(View()), code)
    {
      var exit := if code.Some? then code.value else 1;
      var outcome;
      if timedOut {
        outcome := P.Rejected(P.TimedOut);
      } else if exit != 0 && options.rejectOnFailure {
        outcome := P.Rejected(P.Failed);
      } else if exit == 0 && stdout.truncatedChars > 0 {
        outcome := P.Rejected(P.Oversized);
      } else {
        outcome := P.Resolved(exit, stdout.text);
      }
      Settle(outcome);
    }

    method ScheduleKill()
      modifies `waitingForKillGrace, `killTimer
      ensures waitingForKillGrace
      ensures killTimer == if old(waitingForKillGrace) then old(killTimer) else P.GraceTimer
    {
      if waitingForKillGrace {
        return;
      }
      waitingForKillGrace := true;
      killTimer := P.GraceTimer;
    }

    // -------------------------------------------------------------------------------------
    // Handlers

    method OnTimeout()
      requires Valid() && timeoutArmed
      modifies this
      ensures Handles(P.TimeoutFires)
      ensures timedOut && history.effects == old(history.effects) + [P.Sent(P.Terminate)]
    {
      hide P.After, P.Safe;
      timeoutArmed := false;
      timedOut := true;
      history := history.Did(P.Sent(P.Terminate));
      ScheduleKill();
      Handled(old(View()), P.TimeoutFires);
    }

    /** The callback of `scheduleKill`. */
    method OnGraceExpired()
      requires Valid() && killTimer == P.GraceTimer
      modifies this
      ensures Handles(P.KillTimerFires)
      ensures old(history.effects) + [P.Sent(P.Kill)] <= history.effects
      ensures childClosedResult.Some? ==> settled
    {
      hide P.After, P.Safe;
      waitingForKillGrace := false;
      killTimer := P.NoTimer;
      history := history.Did(P.Sent(P.Kill));
      if childClosedResult.Some? {
        FinishClose(childClosedResult.value);
      }
      Handled(old(View()), P.KillTimerFires);
    }

    /** The callback a relayed parent signal arms. */
    method OnParentGraceExpired(s: P.ParentSignal) returns (reraise: Option<P.ParentSignal>)
      requires Valid() && killTimer == P.ParentTimer(s)
      modifies this
      ensures Handles(P.KillTimerFires)
      ensures reraise == P.AsksToReraise(old(View()), P.KillTimerFires) == Some(s)
      ensures done && history.effects == old(history.effects) + [P.Sent(P.Kill)]
    {
      hide P.After, P.Safe;
      waitingForKillGrace := false;
      killTimer := P.NoTimer;
      history := history.Did(P.Sent(P.Kill));
      done := true;
      reraise := Some(s);
      Handled(old(View()), P.KillTimerFires);
    }

    method OnParentSignal(s: P.ParentSignal, groupAlive: bool) returns (reraise: Option<P.ParentSignal>)
      requires Valid() && handlersInstalled
      modifies this
      ensures Handles(P.ParentSignals(s, groupAlive))
      ensures reraise == P.AsksToReraise(old(View()), P.ParentSignals(s, groupAlive))
      ensures if groupAlive then killTimer == P.ParentTimer(s) else done && reraise == Some(s)
      ensures history.effects == old(history.effects) + [P.Sent(P.Relayed(s))]
    {
      hide P.After, P.Safe, P.React, P.AsksToReraise;
      P.SignalReaction(View(), s, groupAlive);
      parentSignalPending := Some(s);
      signal := Some(s);
      history := history.Did(P.Sent(P.Relayed(s)));
      handlersInstalled := false;
      if !groupAlive {
        done := true;
        history := history.(groupGone := true);
        reraise := Some(s);
      } else {
        waitingForKillGrace := true;
        killTimer := P.ParentTimer(s);
        reraise := None;
      }
      Handled(old(View()), P.ParentSignals(s, groupAlive));
    }

    method OnStdout(chunk: string)
      requires Valid() && !history.closed
      modifies this
      ensures Handles(P.Output(chunk))
      ensures stdout == Captured(history.chunks, options.maxOutputChars)
      ensures history.chunks == old(history.chunks) + [chunk] && history.effects == old(history.effects)
    {
      hide P.After, P.Safe;
      stdout := AppendBounded(stdout, chunk, options.maxOutputChars);
      history := history.(chunks := history.chunks + [chunk]);
      Handled(old(View()), P.Output(chunk));
      P.CaptureIsKept(options, events);
    }

    method OnError()
      requires Valid() && !history.failedToSpawn
      modifies this
      ensures Handles(P.ErrorEvent)
      ensures settled
    {
      hide P.After, P.Safe;
      history := history.(failedToSpawn := true);
      Settle(P.Rejected(P.SpawnError));
      Handled(old(View()), P.ErrorEvent);
    }

    method OnClose(code: Option<int>, groupAlive: bool) returns (reraise: Option<P.ParentSignal>)
      requires Valid() && !history.closed
      modifies this
      ensures Handles(P.CloseEvent(code, groupAlive))
      ensures reraise == P.AsksToReraise(old(View()), P.CloseEvent(code, groupAlive))
      ensures P.Defers(old(View()), groupAlive) ==>
                      childClosedResult == Some(code) && history.effects == old(history.effects)
      ensures !P.Defers(old(View()), groupAlive) ==> settled || done
    {
      hide P.After, P.Safe, P.React, P.AsksToReraise;
      P.CloseReaction(View(), code, groupAlive);
      history := history.(closed := true, exit := P.ExitCode(code));
      reraise := None;
      if parentSignalPending.Some? {
        if groupAlive {
          childClosedResult := Some(code);
        } else {
          killTimer := P.NoTimer;
          done := true;
          history := history.(groupGone := true);
          reraise := parentSignalPending;
        }
      } else if waitingForKillGrace && groupAlive {
        childClosedResult := Some(code);
      } else {
        FinishClose(code);
      }
      Handled(old(View()), P.CloseEvent(code, groupAlive));
    }
  }

  /** The loop of `maybeReraiseRunProcessParentSignal` over the shared set; true when it goes on to
      send the signal to the parent itself. */
  method MayReraise(states: seq<P.Relay>) returns (reraise: bool)
    ensures reraise <==>
              forall i :: 0 <= i < |states| && states[i].registered ==> states[i].signal.Some? && states[i].done
  {
    for i := 0 to |states|
      invariant forall j :: 0 <= j < i && states[j].registered ==> states[j].signal.Some? && states[j].done
    {
      var state := states[i];
      if state.registered && (state.signal.None? || !state.done) {
        return false;
      }
    }
    return true;
  }
}
