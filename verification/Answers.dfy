/**
 What the projections answer, said of the events of a history and their places alone
 (crates/aion-core/src/status.rs and filter.rs).
 */
module Answers {
  import opened Wrappers
  import opened History
  import opened Projections

  // ----- status -----

  /** The events that say something about a run's status. */
  ghost predicate Lifecycle(e: Event) {
    || e.WorkflowStarted? || e.WorkflowReopened? || e.WorkflowResumed? || e.WorkflowPaused?
    || e.WorkflowCompleted? || e.WorkflowFailed? || e.WorkflowCancelled? || e.WorkflowTimedOut?
    || e.WorkflowContinuedAsNew?
  }

  /** `events[i]` is the last lifecycle event. */
  ghost predicate Latest(events: seq<Event>, i: nat) {
    i < |events| && Lifecycle(events[i]) && forall k :: i < k < |events| ==> !Lifecycle(events[k])
  }

  lemma {:induction false} LatestDecides(events: seq<Event>, i: nat)
    requires Latest(events, i)
    ensures var e := events[i];
            StatusFromEvents(events)
            == if e.WorkflowCompleted? then Completed
               else if e.WorkflowFailed? then Failed
               else if e.WorkflowCancelled? then Cancelled
               else if e.WorkflowTimedOut? then TimedOut
               else if e.WorkflowContinuedAsNew? then ContinuedAsNew
               else if e.WorkflowPaused? then Paused
               else Running
    decreases |events|
  {
    var front := events[..|events| - 1];
    if i < |front| {
      assert Latest(front, i);
      assert !Lifecycle(events[|front|]);
      LatestDecides(front, i);
    }
  }

  lemma {:induction false} LatestExists(events: seq<Event>)
    ensures (exists i: nat :: Latest(events, i)) || (forall k :: 0 <= k < |events| ==> !Lifecycle(events[k]))
  {
    if events != [] {
      var front, last := events[..|events| - 1], events[|events| - 1];
      LatestExists(front);
      if Lifecycle(last) {
        assert Latest(events, |front|);
      } else if i: nat :| Latest(front, i) {
        assert Latest(events, i);
      }
    }
  }

  lemma {:induction false} NoLifecycleIsRunning(events: seq<Event>)
    requires forall k :: 0 <= k < |events| ==> !Lifecycle(events[k])
    ensures StatusFromEvents(events) == Running
  {
    if events != [] {
      assert !Lifecycle(events[|events| - 1]);
      NoLifecycleIsRunning(events[..|events| - 1]);
    }
  }


  /** Each status is projected exactly if the last lifecycle event is the one for it. */
  lemma {:induction false} StatusIff(events: seq<Event>)
    ensures StatusFromEvents(events) == Completed <==> exists i: nat :: Latest(events, i) && events[i].WorkflowCompleted?
    ensures StatusFromEvents(events) == Failed <==> exists i: nat :: Latest(events, i) && events[i].WorkflowFailed?
    ensures StatusFromEvents(events) == Cancelled <==> exists i: nat :: Latest(events, i) && events[i].WorkflowCancelled?
    ensures StatusFromEvents(events) == TimedOut <==> exists i: nat :: Latest(events, i) && events[i].WorkflowTimedOut?
    ensures StatusFromEvents(events) == ContinuedAsNew
       <==> exists i: nat :: Latest(events, i) && events[i].WorkflowContinuedAsNew?
    ensures StatusFromEvents(events) == Paused <==> exists i: nat :: Latest(events, i) && events[i].WorkflowPaused?
    ensures StatusFromEvents(events) == Running
       <==> || (exists i: nat :: Latest(events, i) && RunsOn(events[i]))
            || (forall k :: 0 <= k < |events| ==> !Lifecycle(events[k]))
  {
    LatestExists(events);
    if i: nat :| Latest(events, i) {
      LatestDecides(events, i);
      forall j: nat | Latest(events, j) ensures j == i {
        LatestIsUnique(events, i, j);
      }
    } else {
      NoLifecycleIsRunning(events);
    }
  }

  ghost predicate RunsOn(e: Event) {
    e.WorkflowStarted? || e.WorkflowReopened? || e.WorkflowResumed?
  }

  lemma LatestIsUnique(events: seq<Event>, i: nat, j: nat)
    requires Latest(events, i) && Latest(events, j)
    ensures i == j
  {
  }

  // ----- which histories the lifecycle allows -----

  /** What may be recorded where no lifecycle event was, and behind one. */
  ghost predicate MayBegin(e: Event) {
    e.WorkflowStarted?
  }

  ghost predicate MayFollow(before: Event, e: Event) {
    if e.WorkflowStarted? then before.WorkflowContinuedAsNew?
    else if e.WorkflowReopened? then before.WorkflowFailed? || before.WorkflowCancelled?
    else if e.WorkflowPaused? then RunsOn(before)
    else if e.WorkflowResumed? then before.WorkflowPaused?
    else RunsOn(before) || before.WorkflowPaused?
  }

  /** `events[i]` fits behind the last lifecycle event before it, or begins the history. */
  ghost predicate Fits(events: seq<Event>, i: nat)
    requires i < |events|
  {
    Lifecycle(events[i]) ==>
      if exists j: nat :: Latest(events[..i], j)
      then exists j: nat :: Latest(events[..i], j) && MayFollow(events[j], events[i])
      else MayBegin(events[i])
  }

  ghost predicate AllFit(events: seq<Event>) {
    forall i: nat :: i < |events| ==> Fits(events, i)
  }

  lemma {:induction false} FitsAfter(events: seq<Event>, e: Event)
    requires Replay(events).Some?
    ensures After(Replay(events).value, e).Some?
       <==> (Lifecycle(e) ==>
               if exists j: nat :: Latest(events, j) then exists j: nat :: Latest(events, j) && MayFollow(events[j], e)
               else MayBegin(e))
  {
    LatestExists(events);
    if j: nat :| Latest(events, j) {
      MachineIsAt(events, j);
      LatestDecides(events, j);
      forall k: nat | Latest(events, k) ensures k == j {
        LatestIsUnique(events, k, j);
      }
    } else {
      NothingStarted(events);
    }
  }

  lemma {:induction false} MachineIsAt(events: seq<Event>, j: nat)
    requires Replay(events).Some? && Latest(events, j)
    ensures Replay(events).value == At(StatusFromEvents(events))
    decreases |events|
  {
    var front, last := events[..|events| - 1], events[|events| - 1];
    assert front + [last] == events;
    if j < |front| {
      assert Latest(front, j) && !Lifecycle(last);
      MachineIsAt(front, j);
    }
  }

  lemma {:induction false} NothingStarted(events: seq<Event>)
    requires Replay(events).Some? && forall k :: 0 <= k < |events| ==> !Lifecycle(events[k])
    ensures Replay(events).value == Unstarted
  {
    if events != [] {
      assert !Lifecycle(events[|events| - 1]);
      NothingStarted(events[..|events| - 1]);
    }
  }

  /** The lifecycle allows a history exactly if every lifecycle event fits behind the one before it. */
  lemma {:induction false} AllowedIff(events: seq<Event>)
    ensures Replay(events).Some? <==> AllFit(events)
  {
    if events != [] {
      var front, last := events[..|events| - 1], events[|events| - 1];
      AllowedIff(front);
      FitsExtend(front, last);
      assert front + [last] == events;
      if Replay(front).Some? {
        FitsAfter(front, last);
      }
    }
  }

  lemma FitsExtend(front: seq<Event>, last: Event)
    ensures AllFit(front + [last])
       <==> AllFit(front) && (Lifecycle(last) ==>
              if exists j: nat :: Latest(front, j) then exists j: nat :: Latest(front, j) && MayFollow(front[j], last)
              else MayBegin(last))
  {
    var events := front + [last];
    assert events[..|front|] == front;
    forall i: nat | i < |front| ensures Fits(events, i) <==> Fits(front, i) {
      assert events[..i] == front[..i];
    }
    assert Fits(events, |front|) <==> (Lifecycle(last) ==>
              if exists j: nat :: Latest(front, j) then exists j: nat :: Latest(front, j) && MayFollow(front[j], last)
              else MayBegin(last));
  }

  // ----- the current lease's terminal event -----

  ghost predicate EndsLease(e: Event) {
    || e.WorkflowCompleted? || e.WorkflowFailed? || e.WorkflowCancelled? || e.WorkflowTimedOut?
    || e.WorkflowContinuedAsNew?
  }

  /** `events[i]` ended the lease, and nothing has ended or begun one since. */
  ghost predicate LeaseEndedAt(events: seq<Event>, i: nat) {
    && i < |events| && EndsLease(events[i])
    && forall k :: i < k < |events| ==>
         !EndsLease(events[k]) && !events[k].WorkflowStarted? && !events[k].WorkflowReopened?
  }

  /** That event is the current-lease terminal, and without one there is none. */
  lemma {:induction false} TerminalIff(events: seq<Event>)
    ensures forall i: nat :: LeaseEndedAt(events, i) ==> CurrentLeaseTerminal(events) == Some(events[i])
    ensures CurrentLeaseTerminal(events).Some? ==> exists i: nat :: LeaseEndedAt(events, i)
  {
    if events != [] {
      var front, last := events[..|events| - 1], events[|events| - 1];
      TerminalIff(front);
      if EndsLease(last) {
        assert LeaseEndedAt(events, |front|);
      } else {
        forall i: nat | LeaseEndedAt(events, i) ensures CurrentLeaseTerminal(events) == Some(events[i]) {
          assert events[|front|] == last;
          assert LeaseEndedAt(front, i);
        }
        if CurrentLeaseTerminal(events).Some? {
          var i: nat :| LeaseEndedAt(front, i);
          assert LeaseEndedAt(events, i);
        }
      }
    }
  }

  // ----- failures -----

  /** The current lease ended by this failure. */
  ghost predicate FailedAt(events: seq<Event>, i: nat) {
    LeaseEndedAt(events, i) && events[i].WorkflowFailed?
  }

  /**
   A reason is projected exactly if the current lease ended by a failure, and it is that failure's
   message; the step is then the loop's answer. Otherwise neither is projected.
   */
  lemma {:induction false} FailureIff(events: seq<Event>)
    ensures forall i: nat :: FailedAt(events, i) ==>
              FailureProjection(events) == Failure(FailedStep(Lease(events)), Some(events[i].message))
    ensures (forall i: nat :: !FailedAt(events, i)) ==> FailureProjection(events) == Failure(None, None)
    ensures FailureProjection(events).reason.Some? <==> exists i: nat :: FailedAt(events, i)
  {
    TerminalIff(events);
    if CurrentLeaseTerminal(events).Some? {
      var i: nat :| LeaseEndedAt(events, i);
      if !events[i].WorkflowFailed? {
        forall j: nat | LeaseEndedAt(events, j) ensures events[j] == events[i] {
        }
      } else {
        assert FailedAt(events, i);
      }
    }
  }

  /** Within a lease, an activity's step is the type it was scheduled under last, if it was. */
  lemma {:induction false} ScheduledAsIff(lease: seq<Event>, id: nat)
    ensures forall j: nat :: ScheduledLastAt(lease, id, j) ==> ScheduledAs(lease, id) == lease[j].activityType
    ensures (forall j: nat :: !ScheduledLastAt(lease, id, j)) ==> ScheduledAs(lease, id) == ""
  {
    if lease != [] {
      var front, last := lease[..|lease| - 1], lease[|lease| - 1];
      ScheduledAsIff(front, id);
      if last.ActivityScheduled? && last.activityId == id {
        assert ScheduledLastAt(lease, id, |front|);
      } else {
        forall j: nat ensures ScheduledLastAt(lease, id, j) <==> ScheduledLastAt(front, id, j) {
          assert forall k :: 0 <= k < |front| ==> front[k] == lease[k];
        }
      }
    }
  }

  ghost predicate ScheduledLastAt(lease: seq<Event>, id: nat, j: nat) {
    && j < |lease| && lease[j].ActivityScheduled? && lease[j].activityId == id
    && forall k :: j < k < |lease| ==> !(lease[k].ActivityScheduled? && lease[k].activityId == id)
  }

  // ----- summaries -----

  ghost predicate StartedLastAt(events: seq<Event>, i: nat) {
    i < |events| && events[i].WorkflowStarted? && forall k :: i < k < |events| ==> !events[k].WorkflowStarted?
  }

  lemma {:induction false} LastStartIff(events: seq<Event>)
    ensures forall i: nat :: StartedLastAt(events, i) ==> LastStart(events) == Some(events[i])
    ensures LastStart(events).Some? ==> exists i: nat :: StartedLastAt(events, i)
  {
    if events != [] {
      var front, last := events[..|events| - 1], events[|events| - 1];
      LastStartIff(front);
      if last.WorkflowStarted? {
        assert StartedLastAt(events, |front|);
      } else {
        forall i: nat ensures StartedLastAt(events, i) <==> StartedLastAt(front, i) {
          assert forall k :: 0 <= k < |front| ==> front[k] == events[k];
        }
      }
    }
  }

  /**
   A summary exists exactly if some run was started. It names the workflow and its type as the last
   start does, began when that start was recorded, and ended when the current lease did, if it did.
   */
  lemma {:induction false} SummaryIff(events: seq<Event>)
    ensures FromHistory(events).Some? <==> exists k :: 0 <= k < |events| && events[k].WorkflowStarted?
    ensures forall i: nat :: StartedLastAt(events, i) ==>
              && FromHistory(events).Some?
              && var s := FromHistory(events).value;
              && s.workflowId == events[i].envelope.workflowId && s.workflowType == events[i].workflowType
              && s.startedAt == events[i].envelope.recordedAt
              && s.status == StatusFromEvents(events) && s.failure == FailureProjection(events)
    ensures FromHistory(events).Some? ==>
              && (FromHistory(events).value.endedAt.Some? <==> exists i: nat :: LeaseEndedAt(events, i))
              && forall i: nat :: LeaseEndedAt(events, i) ==>
                   FromHistory(events).value.endedAt == Some(events[i].envelope.recordedAt)
  {
    LastStartIff(events);
    TerminalIff(events);
    if k :| 0 <= k < |events| && events[k].WorkflowStarted? {
      StartIsFound(events, k);
    }
  }

  lemma {:induction false} StartIsFound(events: seq<Event>, k: nat)
    requires k < |events| && events[k].WorkflowStarted?
    ensures LastStart(events).Some?
  {
    if k < |events| - 1 {
      StartIsFound(events[..|events| - 1], k);
    }
  }
}
