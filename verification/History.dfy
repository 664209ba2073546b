/**
 Workflow history events and the projections computed by scanning them
 (crates/aion-core/src/event.rs, status.rs and filter.rs).
 */
module History {
  import opened Wrappers

  /** Whether the engine may retry a failed activity. */
  datatype ActivityErrorKind = Retryable | Terminal

  datatype Envelope = Envelope(sequence: nat, recordedAt: int, workflowId: string)

  /** `Unrelated` stands for the timer, signal, child, schedule and search-attribute events. */
  datatype Event =
    | WorkflowStarted(envelope: Envelope, workflowType: string, runId: string)
    | WorkflowCompleted(envelope: Envelope)
    | WorkflowFailed(envelope: Envelope, message: string)
    | WorkflowCancelled(envelope: Envelope)
    | WorkflowTimedOut(envelope: Envelope)
    | WorkflowContinuedAsNew(envelope: Envelope)
    | WorkflowReopened(envelope: Envelope, runId: string)
    | WorkflowPaused(envelope: Envelope, runId: string)
    | WorkflowResumed(envelope: Envelope, runId: string)
    | ActivityScheduled(envelope: Envelope, activityId: nat, activityType: string)
    | ActivityStarted(envelope: Envelope, activityId: nat)
    | ActivityCompleted(envelope: Envelope, activityId: nat)
    | ActivityFailed(envelope: Envelope, activityId: nat, errorKind: ActivityErrorKind)
    | ActivityCancelled(envelope: Envelope, activityId: nat)
    | Unrelated(envelope: Envelope, kind: string)

  datatype WorkflowStatus = Running | Completed | Failed | Cancelled | TimedOut | ContinuedAsNew | Paused

  predicate IsTerminal(status: WorkflowStatus) {
    !status.Running? && !status.Paused?
  }

  predicate EndsRun(e: Event) {
    || e.WorkflowCompleted? || e.WorkflowFailed? || e.WorkflowCancelled?
    || e.WorkflowTimedOut? || e.WorkflowContinuedAsNew?
  }

  /** A run start or a reopen: the events that begin a lease. */
  predicate Reset(e: Event) {
    e.WorkflowStarted? || e.WorkflowReopened?
  }

  predicate Marker(e: Event) {
    e.WorkflowPaused? || e.WorkflowResumed?
  }

  /** The status a lifecycle event projects, if it is one. */
  function Projects(e: Event): Option<WorkflowStatus> {
    match e
    case WorkflowStarted(_, _, _) => Some(Running)
    case WorkflowReopened(_, _) => Some(Running)
    case WorkflowResumed(_, _) => Some(Running)
    case WorkflowCompleted(_) => Some(Completed)
    case WorkflowFailed(_, _) => Some(Failed)
    case WorkflowCancelled(_) => Some(Cancelled)
    case WorkflowTimedOut(_) => Some(TimedOut)
    case WorkflowContinuedAsNew(_) => Some(ContinuedAsNew)
    case WorkflowPaused(_, _) => Some(Paused)
    case _ => None
  }

  /** Scans from the end: the last lifecycle event wins; without one the workflow is running. */
  function StatusFromEvents(events: seq<Event>): WorkflowStatus {
    if events == [] then Running
    else
      var last := events[|events| - 1];
      if Projects(last).Some? then Projects(last).value else StatusFromEvents(events[..|events| - 1])
  }

  /** Scans from the end to the first terminal event or reset. */
  function CurrentLeaseTerminal(events: seq<Event>): Option<Event> {
    if events == [] then None
    else
      var last := events[|events| - 1];
      if EndsRun(last) then Some(last)
      else if Reset(last) then None
      else CurrentLeaseTerminal(events[..|events| - 1])
  }

  // ----- the lifecycle machine -----

  datatype Machine = Unstarted | At(status: WorkflowStatus)

  /**
   The guarded lifecycle: start once or after continue-as-new, pause a running run, resume a
   paused one, reopen a failed or cancelled one, end a running or paused one. Every other
   event may be recorded at any time and changes nothing.
   */
  function After(m: Machine, e: Event): Option<Machine> {
    if Projects(e).None? then Some(m)
    else if
      if e.WorkflowStarted? then m.Unstarted? || m == At(ContinuedAsNew)
      else if e.WorkflowReopened? then m == At(Failed) || m == At(Cancelled)
      else if e.WorkflowResumed? then m == At(Paused)
      else if e.WorkflowPaused? then m == At(Running)
      else m == At(Running) || m == At(Paused)
    then Some(At(Projects(e).value))
    else None
  }

  /** The machine after a history, or none if some event was not allowed when it was recorded. */
  function Replay(events: seq<Event>): Option<Machine> {
    if events == [] then Some(Unstarted)
    else
      var before := Replay(events[..|events| - 1]);
      if before.None? then None else After(before.value, events[|events| - 1])
  }

  function StatusOf(m: Machine): WorkflowStatus {
    if m.Unstarted? then Running else m.status
  }

  /** Two terminal events always have a reset between them. */
  ghost predicate OneTerminalPerLease(events: seq<Event>) {
    forall i, j :: 0 <= i < j < |events| && EndsRun(events[i]) && EndsRun(events[j]) ==>
      exists k :: i < k < j && Reset(events[k])
  }

  /** No terminal event has been recorded since the last reset. */
  ghost predicate LeaseOpen(events: seq<Event>) {
    forall i :: 0 <= i < |events| && EndsRun(events[i]) ==> exists k :: i < k < |events| && Reset(events[k])
  }

  /** What the two scans say about a history that led to `m`. */
  ghost predicate ScansGive(events: seq<Event>, m: Machine) {
    && StatusFromEvents(events) == StatusOf(m)
    && (IsTerminal(StatusOf(m)) <==> CurrentLeaseTerminal(events).Some?)
    && (CurrentLeaseTerminal(events).Some? ==> OfKind(CurrentLeaseTerminal(events).value, StatusOf(m)))
  }

  /** The event is the one that ends a run in this status. */
  ghost predicate OfKind(e: Event, status: WorkflowStatus) {
    match status
    case Completed => e.WorkflowCompleted?
    case Failed => e.WorkflowFailed?
    case Cancelled => e.WorkflowCancelled?
    case TimedOut => e.WorkflowTimedOut?
    case ContinuedAsNew => e.WorkflowContinuedAsNew?
    case Running => false
    case Paused => false
  }

  lemma {:induction false} ScansFollowOneEvent(front: seq<Event>, m: Machine, last: Event)
    requires ScansGive(front, m) && After(m, last).Some?
    ensures ScansGive(front + [last], After(m, last).value)
  {
    assert (front + [last])[..|front|] == front;
  }

  /**
   On every history the guards allow, scanning recovers the machine: the projected status is
   its state, a current-lease terminal exists exactly in terminal states and is of that kind,
   and no lease holds two terminal events.
   */
  lemma {:induction false} ScansRecoverTheMachine(events: seq<Event>)
    requires Replay(events).Some?
    ensures ScansGive(events, Replay(events).value)
    ensures OneTerminalPerLease(events)
    ensures !IsTerminal(StatusOf(Replay(events).value)) ==> LeaseOpen(events)
  {
    if events != [] {
      var front, last := events[..|events| - 1], events[|events| - 1];
      ScansRecoverTheMachine(front);
      ScansFollowOneEvent(front, Replay(front).value, last);
      LeasesExtend(front, last);
      assert front + [last] == events;
    }
  }

  lemma {:induction false} LeasesExtend(front: seq<Event>, last: Event)
    requires OneTerminalPerLease(front)
    ensures !EndsRun(last) || LeaseOpen(front) ==> OneTerminalPerLease(front + [last])
    ensures Reset(last) || (!EndsRun(last) && LeaseOpen(front)) ==> LeaseOpen(front + [last])
  {
    var events := front + [last];
    if !EndsRun(last) || LeaseOpen(front) {
      forall i, j | 0 <= i < j < |events| && EndsRun(events[i]) && EndsRun(events[j])
        ensures exists k :: i < k < j && Reset(events[k])
      {
        assert events[i] == front[i];
        if j < |front| {
          assert events[j] == front[j];
          var k :| i < k < j && Reset(front[k]);
          assert Reset(events[k]);
        } else {
          var k :| i < k < |front| && Reset(front[k]);
          assert Reset(events[k]);
        }
      }
    }
    if Reset(last) {
      assert Reset(events[|front|]);
    } else if !EndsRun(last) && LeaseOpen(front) {
      forall i | 0 <= i < |events| && EndsRun(events[i])
        ensures exists k :: i < k < |events| && Reset(events[k])
      {
        assert events[i] == front[i];
        var k :| i < k < |front| && Reset(front[k]);
        assert Reset(events[k]);
      }
    }
  }

  // ----- histories outside the guards -----

  /** The current lease is over, yet a pause or resume marker was recorded after its terminal event. */
  ghost predicate MarkerAfterTerminal(events: seq<Event>) {
    exists i, j :: 0 <= i < j < |events| && EndsRun(events[i]) && Marker(events[j])
      && forall k :: i < k < |events| ==> !EndsRun(events[k]) && !Reset(events[k])
  }

  /** On arbitrary histories the two scans agree about terminality exactly without such a marker. */
  lemma {:induction false} ScansAgreeIff(events: seq<Event>)
    ensures (IsTerminal(StatusFromEvents(events)) <==> CurrentLeaseTerminal(events).Some?)
       <==> !MarkerAfterTerminal(events)
  {
    if events != [] {
      var front, last := events[..|events| - 1], events[|events| - 1];
      ScansAgreeIff(front);
      if EndsRun(last) || Reset(last) {
        assert EndsRun(events[|front|]) || Reset(events[|front|]);
      } else if Marker(last) {
        MarkerDecides(front, last);
        assert front + [last] == events;
      } else {
        MarkerAfterTerminalIgnores(front, last);
        assert front + [last] == events;
      }
    }
  }

  lemma {:induction false} LastTerminalIndex(events: seq<Event>)
    ensures CurrentLeaseTerminal(events).Some?
       <==> exists i :: 0 <= i < |events| && EndsRun(events[i])
                && forall k :: i < k < |events| ==> !EndsRun(events[k]) && !Reset(events[k])
  {
    if events != [] {
      var front, last := events[..|events| - 1], events[|events| - 1];
      LastTerminalIndex(front);
      if EndsRun(last) {
        assert EndsRun(events[|front|]);
      } else if !Reset(last) {
        if CurrentLeaseTerminal(front).Some? {
          var i :| 0 <= i < |front| && EndsRun(front[i])
                && forall k :: i < k < |front| ==> !EndsRun(front[k]) && !Reset(front[k]);
          assert EndsRun(events[i]);
          assert forall k :: i < k < |events| ==> events[k] == if k < |front| then front[k] else last;
        } else {
          forall i | 0 <= i < |events| && EndsRun(events[i])
            ensures exists k :: i < k < |events| && (EndsRun(events[k]) || Reset(events[k]))
          {
            assert events[i] == front[i];
            var k :| i < k < |front| && (EndsRun(front[k]) || Reset(front[k]));
            assert events[k] == front[k];
          }
        }
      } else {
        assert Reset(events[|front|]);
      }
    }
  }

  lemma {:induction false} MarkerDecides(front: seq<Event>, last: Event)
    requires Marker(last)
    ensures MarkerAfterTerminal(front + [last]) <==> CurrentLeaseTerminal(front).Some?
  {
    var events := front + [last];
    LastTerminalIndex(front);
    if CurrentLeaseTerminal(front).Some? {
      var i :| 0 <= i < |front| && EndsRun(front[i])
            && forall k :: i < k < |front| ==> !EndsRun(front[k]) && !Reset(front[k]);
      assert EndsRun(events[i]) && Marker(events[|front|]);
      assert forall k :: i < k < |events| ==> events[k] == if k < |front| then front[k] else last;
    }
    if MarkerAfterTerminal(events) {
      var i, j :| 0 <= i < j < |events| && EndsRun(events[i]) && Marker(events[j])
               && forall k :: i < k < |events| ==> !EndsRun(events[k]) && !Reset(events[k]);
      assert EndsRun(front[i]) && forall k :: i < k < |front| ==> front[k] == events[k];
    }
  }

  lemma {:induction false} MarkerAfterTerminalIgnores(front: seq<Event>, last: Event)
    requires !EndsRun(last) && !Reset(last) && !Marker(last)
    ensures MarkerAfterTerminal(front + [last]) <==> MarkerAfterTerminal(front)
  {
    var events := front + [last];
    if MarkerAfterTerminal(front) {
      var i, j :| 0 <= i < j < |front| && EndsRun(front[i]) && Marker(front[j])
               && forall k :: i < k < |front| ==> !EndsRun(front[k]) && !Reset(front[k]);
      assert EndsRun(events[i]) && Marker(events[j]);
      assert forall k :: i < k < |events| ==> events[k] == if k < |front| then front[k] else last;
    }
    if MarkerAfterTerminal(events) {
      var i, j :| 0 <= i < j < |events| && EndsRun(events[i]) && Marker(events[j])
               && forall k :: i < k < |events| ==> !EndsRun(events[k]) && !Reset(events[k]);
      assert EndsRun(front[i]) && Marker(front[j]);
      assert forall k :: i < k < |front| ==> front[k] == events[k];
    }
  }
}
