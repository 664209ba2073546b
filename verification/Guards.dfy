/**
 The guards of pause, resume, reopen and termination as the engine evaluates them: by scans of
 the segment of the run it was asked about (crates/aion/src/lifecycle/pause.rs, reopen.rs and
 completion.rs). They allow exactly the histories of the lifecycle machine.
 */
module Guards {
  import opened Wrappers
  import opened Seqs
  import opened History
  import opened Projections

  /** An event and the run it is to be recorded for. */
  datatype Entry = Entry(run: string, event: Event)

  /** An event that names a run names the one it is recorded for. */
  predicate Addressed(entry: Entry) {
    var e := entry.event;
    e.WorkflowStarted? || e.WorkflowReopened? || e.WorkflowPaused? || e.WorkflowResumed? ==> e.runId == entry.run
  }

  /** The run started last. */
  ghost predicate IsLatest(events: seq<Event>, run: string) {
    var ids := RunIds(events);
    ids != [] && ids[|ids| - 1] == run
  }

  /**
   Whether the engine records the event next. A run is started under a fresh id, as the first
   one or behind a run that continued as new; everything else is judged by the run's segment.
   */
  ghost predicate WouldRecord(events: seq<Event>, entry: Entry) {
    if entry.event.WorkflowStarted? then
      var ids := RunIds(events);
      entry.run !in ids && (ids == [] || ContinuesAsNew(RunSegment(events, ids[|ids| - 1])))
    else SegmentAllows(RunSegment(events, entry.run), entry.event)
  }

  predicate SegmentAllows(segment: seq<Event>, e: Event) {
    var terminal := CurrentLeaseTerminal(segment);
    if e.WorkflowReopened? then
      terminal.Some? && (terminal.value.WorkflowFailed? || terminal.value.WorkflowCancelled?)
    else if e.WorkflowPaused? then segment != [] && StatusFromEvents(segment) == Running
    else if e.WorkflowResumed? then segment != [] && StatusFromEvents(segment) == Paused
    else EndsRun(e) ==> segment != [] && terminal.None?
  }

  ghost predicate ContinuesAsNew(segment: seq<Event>) {
    var terminal := CurrentLeaseTerminal(segment);
    terminal.Some? && terminal.value.WorkflowContinuedAsNew?
  }

  // ----- the segments of an allowed history -----

  lemma {:induction false} ReplayPrefix(events: seq<Event>, j: nat)
    requires j <= |events| && Replay(events).Some?
    ensures Replay(events[..j]).Some?
    ensures j < |events| ==> After(Replay(events[..j]).value, events[j]).Some?
    decreases |events|
  {
    if j == |events| {
      assert events[..j] == events;
    } else {
      var front := events[..|events| - 1];
      assert front[..j] == events[..j];
      if j < |front| {
        ReplayPrefix(front, j);
        assert front[j] == events[j];
      } else {
        assert front == events[..j];
      }
    }
  }

  lemma {:induction false} RunIdsAppend(events: seq<Event>, e: Event)
    ensures RunIds(events + [e]) == RunIds(events) + (if e.WorkflowStarted? then [e.runId] else [])
  {
    if events == [] {
      assert events + [e] == [e] && RunIds([e][1..]) == [];
    } else {
      SplitFirst(events, [e]);
      RunIdsAppend(events[1..], e);
      Assoc(
        if events[0].WorkflowStarted? then [events[0].runId] else [], RunIds(events[1..]),
        if e.WorkflowStarted? then [e.runId] else []);
    }
  }

  lemma {:induction false} RunIdsAreStarts(events: seq<Event>, run: string)
    ensures run in RunIds(events) <==> exists i :: 0 <= i < |events| && Starts(events[i], run)
  {
    if events != [] {
      var rest := events[1..];
      RunIdsAreStarts(rest, run);
      if i :| 0 <= i < |rest| && Starts(rest[i], run) {
        assert Starts(events[i + 1], run);
      }
      if i :| 0 <= i < |events| && Starts(events[i], run) {
        if i > 0 {
          assert Starts(rest[i - 1], run);
        }
      }
    }
  }

  lemma {:induction false} LastStartIsLatest(events: seq<Event>, i: nat)
    requires i < |events| && events[i].WorkflowStarted?
    requires forall k :: i < k < |events| ==> !events[k].WorkflowStarted?
    ensures IsLatest(events, events[i].runId)
    decreases |events|
  {
    var front, last := events[..|events| - 1], events[|events| - 1];
    RunIdsAppend(front, last);
    assert front + [last] == events;
    if i < |front| {
      LastStartIsLatest(front, i);
    }
  }

  lemma {:induction false} BoundsExist(events: seq<Event>, run: string) returns (i: nat, j: nat)
    requires run in RunIds(events)
    ensures SegmentBounds(events, run, i, j)
  {
    RunIdsAreStarts(events, run);
    i := 0;
    while !Starts(events[i], run)
      invariant 0 <= i < |events| && forall k :: 0 <= k < i ==> !Starts(events[k], run)
      decreases |events| - i
    {
      var w :| 0 <= w < |events| && Starts(events[w], run);
      i := i + 1;
    }
    j := i + 1;
    while j < |events| && !events[j].WorkflowStarted?
      invariant i < j <= |events| && forall k :: i < k < j ==> !events[k].WorkflowStarted?
    {
      j := j + 1;
    }
  }

  lemma {:induction false} StartedMeansReplayed(events: seq<Event>)
    requires Replay(events).Some?
    ensures Replay(events).value.Unstarted? <==> RunIds(events) == []
  {
    if events != [] {
      var front, last := events[..|events| - 1], events[|events| - 1];
      assert front + [last] == events;
      StartedMeansReplayed(front);
      RunIdsAppend(front, last);
      assert RunIds(events) == [] <==> RunIds(front) == [] && !last.WorkflowStarted?;
    }
  }

  lemma NotTheLatest(events: seq<Event>, run: string, i: nat, j: nat)
    requires SegmentBounds(events, run, i, j) && !IsLatest(events, run)
    ensures j < |events|
  {
    if j == |events| {
      LastStartIsLatest(events, i);
    }
  }

  /** Where a run has started, another one can start only behind a run that continued as new. */
  lemma {:induction false} StartNeedsContinuation(front: seq<Event>, i: nat, next: Event)
    requires Replay(front).Some? && i < |front| && front[i].WorkflowStarted?
    requires next.WorkflowStarted? && After(Replay(front).value, next).Some?
    ensures ContinuesAsNew(front) && StatusFromEvents(front) == ContinuedAsNew
  {
    ScansRecoverTheMachine(front);
    StartedMeansReplayed(front);
    assert Starts(front[i], front[i].runId);
    RunIdsAreStarts(front, front[i].runId);
  }

  /** In an allowed history, every run but the latest has continued as new. */
  lemma {:induction false} EarlierRunContinued(events: seq<Event>, run: string)
    requires Replay(events).Some? && run in RunIds(events) && !IsLatest(events, run)
    ensures ContinuesAsNew(RunSegment(events, run))
    ensures StatusFromEvents(RunSegment(events, run)) == ContinuedAsNew
  {
    var i, j := BoundsExist(events, run);
    SegmentIsSlice(events, run, i, j);
    NotTheLatest(events, run, i, j);
    ReplayPrefix(events, j);
    StartNeedsContinuation(events[..j], i, events[j]);
    assert events[..j] == events[..i] + events[i..j];
    SuffixDecides(events[..i], events[i..j]);
  }

  // ----- the guards are the machine's -----

  /** The run is the right one for the event: a fresh one for a start, the latest one otherwise. */
  ghost predicate RightRun(events: seq<Event>, entry: Entry) {
    if entry.event.WorkflowStarted? then entry.run !in RunIds(events)
    else Projects(entry.event).Some? ==> IsLatest(events, entry.run)
  }

  lemma {:induction false} RunSegmentOfAbsent(events: seq<Event>, run: string)
    requires run !in RunIds(events)
    ensures RunSegment(events, run) == []
  {
    RunIdsAreStarts(events, run);
    forall e | e in events ensures !Starts(e, run) {
      var i :| 0 <= i < |events| && events[i] == e;
    }
    AbsentRunIsEmpty(events, run);
  }

  /** A segment that scans as the machine says allows what the machine does. */
  lemma SegmentAllowsTheMachine(segment: seq<Event>, m: Machine, e: Event)
    requires segment != [] && m.At? && ScansGive(segment, m) && !e.WorkflowStarted?
    ensures SegmentAllows(segment, e) <==> After(m, e).Some?
  {
  }

  /** A segment that is absent or has continued as new allows no lifecycle event. */
  lemma SegmentAllowsNothing(segment: seq<Event>, e: Event)
    requires segment == [] || (ContinuesAsNew(segment) && StatusFromEvents(segment) == ContinuedAsNew)
    requires !e.WorkflowStarted?
    ensures SegmentAllows(segment, e) <==> Projects(e).None?
  {
  }

  lemma {:induction false} GuardOnStart(events: seq<Event>, entry: Entry)
    requires Replay(events).Some? && Distinct(RunIds(events)) && entry.event.WorkflowStarted?
    ensures WouldRecord(events, entry)
       <==> RightRun(events, entry) && After(Replay(events).value, entry.event).Some?
  {
    ScansRecoverTheMachine(events);
    StartedMeansReplayed(events);
    if RunIds(events) != [] {
      LastRunDecides(events);
    }
  }

  /** At any point of an allowed history the guards accept what the machine allows, for the right run only. */
  lemma {:induction false} GuardOnSegment(events: seq<Event>, entry: Entry)
    requires Replay(events).Some? && Distinct(RunIds(events))
    ensures WouldRecord(events, entry)
       <==> RightRun(events, entry) && After(Replay(events).value, entry.event).Some?
  {
    var m, segment := Replay(events).value, RunSegment(events, entry.run);
    if entry.event.WorkflowStarted? {
      GuardOnStart(events, entry);
    } else if IsLatest(events, entry.run) {
      ScansRecoverTheMachine(events);
      StartedMeansReplayed(events);
      LastRunDecides(events);
      SegmentAllowsTheMachine(segment, m, entry.event);
    } else {
      if entry.run in RunIds(events) {
        EarlierRunContinued(events, entry.run);
      } else {
        RunSegmentOfAbsent(events, entry.run);
      }
      SegmentAllowsNothing(segment, entry.event);
    }
  }

  function Events(log: seq<Entry>): (r: seq<Event>)
    ensures |r| == |log| && forall i :: 0 <= i < |log| ==> r[i] == log[i].event
  {
    seq(|log|, i requires 0 <= i < |log| => log[i].event)
  }

  /** Every entry passed the guards when it was recorded. */
  ghost predicate Recorded(log: seq<Entry>) {
    forall i :: 0 <= i < |log| ==> WouldRecord(Events(log[..i]), log[i])
  }

  /** Every entry was recorded for the right run. */
  ghost predicate RightRuns(log: seq<Entry>) {
    forall i :: 0 <= i < |log| ==> RightRun(Events(log[..i]), log[i])
  }

  lemma EntriesExtend(front: seq<Entry>, last: Entry)
    ensures Events(front + [last]) == Events(front) + [last.event]
    ensures Recorded(front + [last]) <==> Recorded(front) && WouldRecord(Events(front), last)
    ensures RightRuns(front + [last]) <==> RightRuns(front) && RightRun(Events(front), last)
  {
    var log := front + [last];
    assert log[..|front|] == front && log[|front|] == last;
    assert forall i :: 0 <= i < |front| ==> log[..i] == front[..i] && log[i] == front[i];
  }

  lemma {:induction false} RightRunsAreDistinct(log: seq<Entry>)
    requires RightRuns(log) && forall i :: 0 <= i < |log| ==> Addressed(log[i])
    ensures Distinct(RunIds(Events(log)))
  {
    if log != [] {
      var front, last := log[..|log| - 1], log[|log| - 1];
      assert front + [last] == log;
      EntriesExtend(front, last);
      RightRunsAreDistinct(front);
      RunIdsAppend(Events(front), last.event);
      assert Addressed(last);
    }
  }

  /**
   The guards evaluated on run segments allow exactly the histories of the lifecycle machine in
   which run ids are fresh and everything is recorded for the latest run.
   */
  lemma {:induction false} GuardsOnSegmentsAreTheMachine(log: seq<Entry>)
    requires forall i :: 0 <= i < |log| ==> Addressed(log[i])
    ensures Recorded(log) <==> Replay(Events(log)).Some? && RightRuns(log)
  {
    if log != [] {
      var front, last := log[..|log| - 1], log[|log| - 1];
      GuardsOnSegmentsAreTheMachine(front);
      EntriesExtend(front, last);
      assert front + [last] == log;
      var events := Events(log);
      assert events[..|events| - 1] == Events(front);
      if Replay(Events(front)).Some? && RightRuns(front) {
        RightRunsAreDistinct(front);
        GuardOnSegment(Events(front), last);
      }
    }
  }
}
