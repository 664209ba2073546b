/**
 Run segments, failure attribution and workflow summaries
 (crates/aion-core/src/status.rs and filter.rs).
 */
module Projections {
  import opened Wrappers
  import opened Seqs
  import opened History

  // ----- run segments -----

  function UpToStart(events: seq<Event>): seq<Event> {
    if events == [] || events[0].WorkflowStarted? then [] else [events[0]] + UpToStart(events[1..])
  }

  /** The events of one run: from its start up to the next start; nothing if the run is absent. */
  function RunSegment(events: seq<Event>, runId: string): seq<Event> {
    if events == [] then []
    else if events[0].WorkflowStarted? && events[0].runId == runId then [events[0]] + UpToStart(events[1..])
    else RunSegment(events[1..], runId)
  }

  predicate Starts(e: Event, runId: string) {
    e.WorkflowStarted? && e.runId == runId
  }

  /** `i` is the first start of the run and `j` the next start of any run, or the end. */
  ghost predicate SegmentBounds(events: seq<Event>, runId: string, i: nat, j: nat) {
    && i < j <= |events|
    && Starts(events[i], runId)
    && (forall k :: 0 <= k < i ==> !Starts(events[k], runId))
    && (forall k :: i < k < j ==> !events[k].WorkflowStarted?)
    && (j < |events| ==> events[j].WorkflowStarted?)
  }

  lemma {:induction false} UpToStartIsSlice(events: seq<Event>, n: nat)
    requires n <= |events| && (forall k :: 0 <= k < n ==> !events[k].WorkflowStarted?)
    requires n < |events| ==> events[n].WorkflowStarted?
    ensures UpToStart(events) == events[..n]
    decreases n
  {
    if n > 0 {
      UpToStartIsSlice(events[1..], n - 1);
      assert events[..n] == [events[0]] + events[1..][..n - 1];
    }
  }

  lemma TailSlice(events: seq<Event>, i: nat, j: nat)
    requires 1 <= i <= j <= |events|
    ensures events[1..][i - 1..j - 1] == events[i..j]
  {
  }

  /** A segment is the slice between its bounds. */
  lemma {:induction false} SegmentIsSlice(events: seq<Event>, runId: string, i: nat, j: nat)
    requires SegmentBounds(events, runId, i, j)
    ensures RunSegment(events, runId) == events[i..j]
    decreases i
  {
    if i == 0 {
      UpToStartIsSlice(events[1..], j - 1);
      assert events[0..j] == [events[0]] + events[1..][..j - 1];
    } else {
      assert !Starts(events[0], runId);
      SegmentIsSlice(events[1..], runId, i - 1, j - 1);
      TailSlice(events, i, j);
    }
  }

  /** A run that never started has the empty segment. */
  lemma {:induction false} AbsentRunIsEmpty(events: seq<Event>, runId: string)
    requires forall e :: e in events ==> !Starts(e, runId)
    ensures RunSegment(events, runId) == []
  {
    if events != [] {
      assert !Starts(events[0], runId);
      AbsentRunIsEmpty(events[1..], runId);
    }
  }

  /** The ids of the runs of a history, in order. */
  ghost function RunIds(events: seq<Event>): seq<string> {
    if events == [] then []
    else (if events[0].WorkflowStarted? then [events[0].runId] else []) + RunIds(events[1..])
  }

  ghost function Segments(events: seq<Event>, ids: seq<string>): seq<Event> {
    if ids == [] then [] else RunSegment(events, ids[0]) + Segments(events, ids[1..])
  }

  /** What is left after `UpToStart`. */
  ghost function FromStart(events: seq<Event>): seq<Event> {
    if events == [] || events[0].WorkflowStarted? then events else FromStart(events[1..])
  }

  /** Dropping events up to the next start loses no run. */
  lemma {:induction false} SkipToStart(events: seq<Event>)
    ensures UpToStart(events) + FromStart(events) == events
    ensures RunIds(events) == RunIds(FromStart(events))
    ensures FromStart(events) != [] ==> FromStart(events)[0].WorkflowStarted?
  {
    if events != [] && !events[0].WorkflowStarted? {
      SkipToStart(events[1..]);
      assert [events[0]] + UpToStart(events[1..]) + FromStart(events[1..])
          == [events[0]] + (UpToStart(events[1..]) + FromStart(events[1..]));
    }
  }

  lemma {:induction false} SkipKeepsSegment(events: seq<Event>, id: string)
    ensures RunSegment(events, id) == RunSegment(FromStart(events), id)
  {
    if events != [] && !events[0].WorkflowStarted? {
      SkipKeepsSegment(events[1..], id);
    }
  }

  lemma {:induction false} SegmentsSkip(events: seq<Event>, ids: seq<string>)
    requires events != [] && events[0].WorkflowStarted? && events[0].runId !in ids
    ensures Segments(events, ids) == Segments(FromStart(events[1..]), ids)
    decreases |ids|
  {
    if ids != [] {
      SkipKeepsSegment(events[1..], ids[0]);
      SegmentsSkip(events, ids[1..]);
    }
  }

  lemma {:induction false} SegmentsCons(events: seq<Event>, ids: seq<string>)
    requires events != [] && events[0].WorkflowStarted? && events[0].runId !in ids
    ensures Segments(events, [events[0].runId] + ids)
         == [events[0]] + UpToStart(events[1..]) + Segments(FromStart(events[1..]), ids)
  {
    SegmentsSkip(events, ids);
    assert ([events[0].runId] + ids)[1..] == ids;
  }

  lemma {:induction false} FirstRun(events: seq<Event>)
    requires events != [] && events[0].WorkflowStarted? && Distinct(RunIds(events))
    ensures var rest := FromStart(events[1..]);
            && RunIds(events) == [events[0].runId] + RunIds(rest)
            && events[0].runId !in RunIds(rest) && Distinct(RunIds(rest))
            && |rest| < |events| && (rest != [] ==> rest[0].WorkflowStarted?)
            && [events[0]] + UpToStart(events[1..]) + rest == events
  {
    var first, tail := events[0], events[1..];
    SkipToStart(tail);
    FromStartShrinks(tail);
    DistinctCons(first.runId, RunIds(FromStart(tail)));
    assert [first] + UpToStart(tail) + FromStart(tail) == [first] + (UpToStart(tail) + FromStart(tail));
    assert [first] + tail == events;
  }

  /** The segments of the runs, in order, are the whole history. */
  lemma {:induction false} SegmentsRebuildHistory(events: seq<Event>, ids: seq<string>)
    requires events != [] ==> events[0].WorkflowStarted?
    requires ids == RunIds(events) && Distinct(ids)
    ensures Segments(events, ids) == events
    decreases |events|
  {
    if events != [] {
      FirstRun(events);
      var rest := FromStart(events[1..]);
      SegmentsRebuildHistory(rest, RunIds(rest));
      SegmentsCons(events, RunIds(rest));
    }
  }

  lemma {:induction false} FromStartShrinks(events: seq<Event>)
    ensures |FromStart(events)| <= |events|
  {
    if events != [] && !events[0].WorkflowStarted? {
      FromStartShrinks(events[1..]);
    }
  }

  lemma DistinctCons(id: string, ids: seq<string>)
    requires Distinct([id] + ids)
    ensures id !in ids && Distinct(ids)
  {
    var all := [id] + ids;
    forall i | 0 <= i < |ids| ensures ids[i] != id {
      assert all[0] != all[i + 1];
    }
    forall i, j | 0 <= i < j < |ids| ensures ids[i] != ids[j] {
      assert all[i + 1] != all[j + 1];
    }
  }

  /** A suffix that begins with a start decides the scans on its own. */
  lemma {:induction false} SuffixDecides(before: seq<Event>, suffix: seq<Event>)
    requires suffix != [] && Reset(suffix[0])
    ensures StatusFromEvents(before + suffix) == StatusFromEvents(suffix)
    ensures CurrentLeaseTerminal(before + suffix) == CurrentLeaseTerminal(suffix)
    ensures Lease(before + suffix) == Lease(suffix)
    decreases |suffix|
  {
    var all := before + suffix;
    assert all[|all| - 1] == suffix[|suffix| - 1];
    assert all[..|all| - 1] == before + suffix[..|suffix| - 1];
    if |suffix| > 1 {
      SuffixDecides(before, suffix[..|suffix| - 1]);
    }
  }

  /** The last run's segment has the status and the current-lease terminal of the whole history. */
  lemma {:induction false} LastRunDecides(events: seq<Event>)
    requires RunIds(events) != [] && Distinct(RunIds(events))
    ensures var segment := RunSegment(events, RunIds(events)[|RunIds(events)| - 1]);
            && segment != []
            && StatusFromEvents(segment) == StatusFromEvents(events)
            && CurrentLeaseTerminal(segment) == CurrentLeaseTerminal(events)
  {
    var last := RunIds(events)[|RunIds(events)| - 1];
    var before := LastSegmentIsSuffix(events, RunIds(events), last);
    SuffixDecides(before, RunSegment(events, last));
  }

  lemma {:induction false} LastSegmentIsSuffix(events: seq<Event>, ids: seq<string>, last: string)
    returns (before: seq<Event>)
    requires ids == RunIds(events) && ids != [] && Distinct(ids) && last == ids[|ids| - 1]
    ensures RunSegment(events, last) != [] && RunSegment(events, last)[0].WorkflowStarted?
    ensures events == before + RunSegment(events, last)
    decreases |events|
  {
    var first, tail := events[0], events[1..];
    assert events == [first] + tail;
    if RunIds(tail) == [] {
      NoStartsNoCut(tail);
      before := [];
    } else {
      LastOfTail(events, ids, last);
      var b := LastSegmentIsSuffix(tail, RunIds(tail), last);
      before := [first] + b;
      assert [first] + (b + RunSegment(tail, last)) == before + RunSegment(tail, last);
    }
  }

  lemma {:induction false} LastOfTail(events: seq<Event>, ids: seq<string>, last: string)
    requires events != [] && ids == RunIds(events) && Distinct(ids)
    requires RunIds(events[1..]) != [] && last == ids[|ids| - 1]
    ensures var rest := RunIds(events[1..]);
            Distinct(rest) && last == rest[|rest| - 1] && RunSegment(events, last) == RunSegment(events[1..], last)
  {
    var first, rest := events[0], RunIds(events[1..]);
    if first.WorkflowStarted? {
      DistinctCons(first.runId, rest);
      assert rest[|rest| - 1] in rest;
    } else {
      assert ids == rest;
    }
  }

  lemma {:induction false} NoStartsNoCut(events: seq<Event>)
    requires RunIds(events) == []
    ensures UpToStart(events) == events
  {
    if events != [] {
      NoStartsNoCut(events[1..]);
    }
  }

  // ----- failure attribution -----

  /** The events since the last start or reopen. */
  function Lease(events: seq<Event>): seq<Event> {
    if events == [] then []
    else
      var last := events[|events| - 1];
      if Reset(last) then [] else Lease(events[..|events| - 1]) + [last]
  }

  predicate Finished(lease: seq<Event>, id: nat) {
    exists i :: 0 <= i < |lease| && (lease[i].ActivityCompleted? || lease[i].ActivityCancelled?)
                && lease[i].activityId == id
  }

  /** The type under which an activity was last scheduled, or the empty string. */
  function ScheduledAs(lease: seq<Event>, id: nat): string {
    if lease == [] then ""
    else
      var last := lease[|lease| - 1];
      if last.ActivityScheduled? && last.activityId == id then last.activityType
      else ScheduledAs(lease[..|lease| - 1], id)
  }

  /** The position of the latest activity failure. */
  function LatestFailure(lease: seq<Event>): (r: Option<nat>)
    ensures r.Some? ==> r.value < |lease| && lease[r.value].ActivityFailed?
  {
    if lease == [] then None
    else if lease[|lease| - 1].ActivityFailed? then Some(|lease| - 1)
    else LatestFailure(lease[..|lease| - 1])
  }

  /** What the attribution loop computes over a lease. */
  function FailedStep(lease: seq<Event>): Option<string> {
    var at := LatestFailure(lease);
    if at.None? then None
    else
      var id := lease[at.value].activityId;
      var step := ScheduledAs(lease[..at.value], id);
      if Finished(lease, id) || step == "" then None else Some(step)
  }

  /** Finds where the current lease begins, then attributes within it. */
  method FailedActivityStep(events: seq<Event>) returns (r: Option<string>)
    ensures r == FailedStep(Lease(events))
  {
    var start := |events|;
    assert events[..|events|] == events && Lease(events) + [] == Lease(events);
    while start > 0 && !Reset(events[start - 1])
      invariant 0 <= start <= |events|
      invariant Lease(events) == Lease(events[..start]) + events[start..]
    {
      assert events[..start][..start - 1] == events[..start - 1];
      assert Lease(events[..start]) == Lease(events[..start - 1]) + [events[start - 1]];
      assert [events[start - 1]] + events[start..] == events[start - 1..];
      start := start - 1;
    }
    assert Lease(events[..start]) == [];
    assert [] + events[start..] == events[start..];
    r := AttributeWithin(events[start..]);
  }

  /** The attribution loop: a map of scheduled types, a set of finished activities, the latest failure. */
  method AttributeWithin(lease: seq<Event>) returns (r: Option<string>)
    ensures r == FailedStep(lease)
  {
    var scheduled: map<nat, string> := map[];
    var finished: set<nat> := {};
    var latest: Option<(nat, string)> := None;
    for i := 0 to |lease|
      invariant forall id :: ScheduledAs(lease[..i], id) == if id in scheduled then scheduled[id] else ""
      invariant forall id :: id in finished <==> Finished(lease[..i], id)
      invariant LatestFailureWas(lease[..i], latest)
    {
      AttributionStep(lease[..i], lease[i], latest);
      FinishedExtends(lease[..i], lease[i]);
      assert lease[..i] + [lease[i]] == lease[..i + 1];
      assert lease[..i + 1][..i] == lease[..i];
      match lease[i]
      case ActivityScheduled(_, id, activityType) => scheduled := scheduled[id := activityType];
      case ActivityCompleted(_, id) => finished := finished + {id};
      case ActivityCancelled(_, id) => finished := finished + {id};
      case ActivityFailed(_, id, _) => latest := Some((id, if id in scheduled then scheduled[id] else ""));
      case _ =>
    }
    assert lease[..|lease|] == lease;
    if latest.None? || latest.value.0 in finished || latest.value.1 == "" {
      r := None;
    } else {
      r := Some(latest.value.1);
    }
  }

  /** `latest` holds the activity of the latest failure and the type it was scheduled under by then. */
  ghost predicate LatestFailureWas(lease: seq<Event>, latest: Option<(nat, string)>) {
    var at := LatestFailure(lease);
    if at.None? then latest.None?
    else
      var id := lease[at.value].activityId;
      latest == Some((id, ScheduledAs(lease[..at.value], id)))
  }

  lemma {:induction false} AttributionStep(lease: seq<Event>, e: Event, latest: Option<(nat, string)>)
    requires LatestFailureWas(lease, latest)
    ensures LatestFailureWas(
              lease + [e],
              if e.ActivityFailed? then Some((e.activityId, ScheduledAs(lease, e.activityId))) else latest)
  {
    var all := lease + [e];
    assert all[..|lease|] == lease;
    if !e.ActivityFailed? && LatestFailure(lease).Some? {
      assert all[..LatestFailure(lease).value] == lease[..LatestFailure(lease).value];
    }
  }

  lemma {:induction false} FinishedExtends(lease: seq<Event>, e: Event)
    ensures forall id :: Finished(lease + [e], id)
              <==> Finished(lease, id) || ((e.ActivityCompleted? || e.ActivityCancelled?) && e.activityId == id)
  {
    var all := lease + [e];
    forall id
      ensures Finished(all, id)
         <==> Finished(lease, id) || ((e.ActivityCompleted? || e.ActivityCancelled?) && e.activityId == id)
    {
      if Finished(lease, id) {
        var i :| 0 <= i < |lease| && (lease[i].ActivityCompleted? || lease[i].ActivityCancelled?)
              && lease[i].activityId == id;
        assert all[i] == lease[i];
      }
      assert all[|lease|] == e;
      assert forall i :: 0 <= i < |lease| ==> all[i] == lease[i];
    }
  }

  datatype Failure = Failure(step: Option<string>, reason: Option<string>)

  function FailureProjection(events: seq<Event>): Failure {
    var terminal := CurrentLeaseTerminal(events);
    if terminal.Some? && terminal.value.WorkflowFailed?
    then Failure(FailedStep(Lease(events)), Some(terminal.value.message))
    else Failure(None, None)
  }

  lemma {:induction false} ScheduledAsIsRecorded(lease: seq<Event>, id: nat)
    requires ScheduledAs(lease, id) != ""
    ensures exists j :: 0 <= j < |lease| && lease[j].ActivityScheduled? && lease[j].activityId == id
                        && lease[j].activityType == ScheduledAs(lease, id)
  {
    var last := lease[|lease| - 1];
    if !(last.ActivityScheduled? && last.activityId == id) {
      ScheduledAsIsRecorded(lease[..|lease| - 1], id);
    }
  }

  lemma {:induction false} LeaseIsSuffix(events: seq<Event>)
    ensures |Lease(events)| <= |events| && Lease(events) == events[|events| - |Lease(events)|..]
    ensures forall e :: e in Lease(events) ==> !Reset(e)
    ensures |Lease(events)| < |events| ==> Reset(events[|events| - |Lease(events)| - 1])
  {
    if events != [] && !Reset(events[|events| - 1]) {
      var front := events[..|events| - 1];
      LeaseIsSuffix(front);
      assert events[|events| - |Lease(events)|..] == front[|front| - |Lease(front)|..] + [events[|events| - 1]];
    }
  }

  /** The activity scheduled at `j` as `step` failed at `i`, and the lease holds no completion or cancellation of it. */
  ghost predicate Explains(lease: seq<Event>, step: string, j: int, i: int) {
    && 0 <= j < i < |lease|
    && lease[j].ActivityScheduled? && lease[j].activityType == step
    && lease[i].ActivityFailed? && lease[i].activityId == lease[j].activityId
    && !Finished(lease, lease[i].activityId)
  }

  /**
   A reported step names an activity that was scheduled under it and then failed in the current
   lease, and that neither completed nor was cancelled anywhere in that lease.
   */
  lemma {:induction false} AttributionIsSound(events: seq<Event>)
    requires FailureProjection(events).step.Some?
    ensures exists j, i :: Explains(Lease(events), FailureProjection(events).step.value, j, i)
  {
    var lease := Lease(events);
    var i := LatestFailure(lease).value;
    var id := lease[i].activityId;
    ScheduledAsIsRecorded(lease[..i], id);
    var j :| 0 <= j < i && lease[..i][j].ActivityScheduled? && lease[..i][j].activityId == id
          && lease[..i][j].activityType == ScheduledAs(lease[..i], id);
    assert Explains(lease, FailureProjection(events).step.value, j, i);
  }

  /** Nothing before the last start or reopen affects the answer. */
  lemma {:induction false} AttributionIsLocal(before: seq<Event>, suffix: seq<Event>)
    requires suffix != [] && Reset(suffix[0])
    ensures FailureProjection(before + suffix) == FailureProjection(suffix)
  {
    SuffixDecides(before, suffix);
  }

  // ----- the attribution as documented -----

  predicate Finishes(e: Event, id: nat) {
    (e.ActivityCompleted? || e.ActivityCancelled?) && e.activityId == id
  }

  /** A terminal failure whose activity neither completed nor was cancelled afterwards. */
  ghost predicate Lasting(lease: seq<Event>, i: nat) {
    && i < |lease| && lease[i].ActivityFailed? && lease[i].errorKind.Terminal?
    && forall k :: i < k < |lease| ==> !Finishes(lease[k], lease[i].activityId)
  }

  /** The failure that the documentation says to report: the latest lasting one, or none. */
  ghost predicate Documented(lease: seq<Event>, d: Option<nat>) {
    match d
    case Some(i) => Lasting(lease, i) && forall k :: i < k < |lease| ==> !Lasting(lease, k)
    case None => forall k :: 0 <= k < |lease| ==> !Lasting(lease, k)
  }

  lemma {:induction false} DocumentedExists(lease: seq<Event>) returns (d: Option<nat>)
    ensures Documented(lease, d) && forall d' :: Documented(lease, d') ==> d' == d
  {
    d := None;
    for i := 0 to |lease|
      invariant match d
                case Some(j) => Lasting(lease, j) && forall k :: j < k < i ==> !Lasting(lease, k)
                case None => forall k :: 0 <= k < i ==> !Lasting(lease, k)
    {
      if Lasting(lease, i) {
        d := Some(i);
      }
    }
  }

  /** The type of the activity that failed at `i`; the empty one if the lease does not schedule it before. */
  function StepAt(lease: seq<Event>, i: nat): string
    requires i < |lease| && lease[i].ActivityFailed?
  {
    ScheduledAs(lease[..i], lease[i].activityId)
  }

  /** The failure that the loop reports, if it reports one. */
  function Reported(lease: seq<Event>): (r: Option<nat>)
    ensures r.Some? ==> r == LatestFailure(lease)
    ensures FailedStep(lease) == if r.Some? then Some(StepAt(lease, r.value)) else None
  {
    var at := LatestFailure(lease);
    if at.None? || Finished(lease, lease[at.value].activityId) || StepAt(lease, at.value) == "" then None else at
  }

  lemma {:induction false} LatestFailureIsLast(lease: seq<Event>)
    ensures forall k :: 0 <= k < |lease| && lease[k].ActivityFailed? ==>
              LatestFailure(lease).Some? && k <= LatestFailure(lease).value
  {
    if lease != [] {
      var front := lease[..|lease| - 1];
      LatestFailureIsLast(front);
      assert forall k :: 0 <= k < |front| ==> front[k] == lease[k];
    }
  }

  /**
   When the loop meets its documentation. With something to report: no activity failed later,
   and the activity was scheduled in the lease and had not finished before it failed. With
   nothing to report: the latest failure, if any, is not a retryable one of an activity that was
   scheduled in the lease and never finished in it.
   */
  ghost predicate LoopMeets(lease: seq<Event>, d: Option<nat>) {
    var latest := LatestFailure(lease);
    match d
    case Some(i) =>
      latest == Some(i) && StepAt(lease, i) != "" && !Finished(lease[..i], lease[i].activityId)
    case None =>
      latest.Some? && lease[latest.value].errorKind.Retryable? ==>
        StepAt(lease, latest.value) == "" || Finished(lease, lease[latest.value].activityId)
  }

  /** The loop reports the documented failure exactly then, for every lease. */
  lemma {:induction false} ReportsAsDocumentedIff(lease: seq<Event>, d: Option<nat>)
    requires Documented(lease, d)
    ensures Reported(lease) == d <==> LoopMeets(lease, d)
  {
    LatestFailureIsLast(lease);
    var latest := LatestFailure(lease);
    if latest.Some? {
      var l, id := latest.value, lease[latest.value].activityId;
      if d == latest {
        FinishedBeforeOrAfter(lease, l, id);
      } else {
        assert !Lasting(lease, l);
        if lease[l].errorKind.Terminal? {
          var k :| l < k < |lease| && Finishes(lease[k], id);
          assert Finished(lease, id);
        }
      }
    }
  }

  /** The latest failure is another one than the documented one, and its activity merely has the same type. */
  ghost predicate SameTypeByChance(lease: seq<Event>, d: Option<nat>) {
    var latest := LatestFailure(lease);
    && d.Some? && d.value < |lease| && lease[d.value].ActivityFailed? && latest.Some? && latest != d
    && !Finished(lease, lease[latest.value].activityId)
    && StepAt(lease, latest.value) == StepAt(lease, d.value) != ""
  }

  /** And it answers with the documented type exactly then, or by that coincidence. */
  lemma {:induction false} AnswersAsDocumentedIff(lease: seq<Event>, d: Option<nat>)
    requires Documented(lease, d)
    ensures FailedStep(lease) == (if d.Some? then Some(StepAt(lease, d.value)) else None)
       <==> LoopMeets(lease, d) || SameTypeByChance(lease, d)
  {
    ReportsAsDocumentedIff(lease, d);
  }

  lemma FinishedBeforeOrAfter(lease: seq<Event>, i: nat, id: nat)
    requires i < |lease| && lease[i].ActivityFailed?
    requires forall k :: i < k < |lease| ==> !Finishes(lease[k], id)
    ensures Finished(lease, id) <==> Finished(lease[..i], id)
  {
    if Finished(lease, id) {
      var k :| 0 <= k < |lease| && (lease[k].ActivityCompleted? || lease[k].ActivityCancelled?)
            && lease[k].activityId == id;
      assert Finishes(lease[k], id);
      assert lease[..i][k] == lease[k];
    }
  }

  // The smallest failing histories, one for each way the loop misses its documentation. Each run
  // is started and fails; `d` is what the documentation says to report of its last lease.

  /** A run that was started, went through `lease` and failed. */
  ghost function Failing(e: Envelope, lease: seq<Event>): seq<Event> {
    [WorkflowStarted(e, "type", "run")] + lease + [WorkflowFailed(e, "reason")]
  }

  lemma {:induction false} LeaseOfSuffix(front: seq<Event>, reset: Event, suffix: seq<Event>)
    requires Reset(reset) && forall x :: x in suffix ==> !Reset(x)
    ensures Lease(front + [reset] + suffix) == suffix
    decreases |suffix|
  {
    var all := front + [reset] + suffix;
    if suffix == [] {
      assert all[|all| - 1] == reset;
    } else {
      var rest, last := suffix[..|suffix| - 1], suffix[|suffix| - 1];
      assert all[..|all| - 1] == front + [reset] + rest;
      assert last in suffix && forall x :: x in rest ==> x in suffix;
      LeaseOfSuffix(front, reset, rest);
      assert rest + [last] == suffix;
    }
  }

  /** The projection of a failed run is the loop's answer over the lease, closed by the failure. */
  lemma {:induction false} FailingProjects(e: Envelope, front: seq<Event>, reset: Event, lease: seq<Event>)
    requires Reset(reset) && forall x :: x in lease ==> !Reset(x)
    ensures var closed := lease + [WorkflowFailed(e, "reason")];
            && Lease(front + [reset] + closed) == closed
            && FailureProjection(front + [reset] + closed) == Failure(FailedStep(closed), Some("reason"))
  {
    var closed := lease + [WorkflowFailed(e, "reason")];
    var all := front + [reset] + closed;
    LeaseOfSuffix(front, reset, closed);
    assert all[|all| - 1] == WorkflowFailed(e, "reason");
  }

  lemma {:induction false} FailedRunProjects(e: Envelope, lease: seq<Event>)
    requires forall x :: x in lease ==> !Reset(x)
    ensures Lease(Failing(e, lease)) == lease + [WorkflowFailed(e, "reason")]
    ensures FailureProjection(Failing(e, lease))
         == Failure(FailedStep(lease + [WorkflowFailed(e, "reason")]), Some("reason"))
  {
    FailingProjects(e, [], WorkflowStarted(e, "type", "run"), lease);
    var closed := lease + [WorkflowFailed(e, "reason")];
    assert [] + [WorkflowStarted(e, "type", "run")] + closed == Failing(e, lease);
  }

  /** Closing a lease by the run's failure changes nothing that attribution looks at. */
  lemma {:induction false} ClosedLease(lease: seq<Event>, last: Event)
    requires last.WorkflowFailed?
    ensures FailedStep(lease + [last]) == FailedStep(lease)
    ensures forall d :: Documented(lease, d) ==> Documented(lease + [last], d)
  {
    var closed := lease + [last];
    assert closed[..|lease|] == lease;
    FinishedExtends(lease, last);
    if LatestFailure(lease).Some? {
      assert closed[..LatestFailure(lease).value] == lease[..LatestFailure(lease).value];
    }
    forall k: nat | k < |lease| ensures Lasting(closed, k) <==> Lasting(lease, k) {
      assert forall i :: k < i < |lease| ==> closed[i] == lease[i];
    }
    forall d | Documented(lease, d) ensures Documented(closed, d) {
      if d.None? {
        assert forall k: nat :: k < |lease| ==> !Lasting(lease, k);
      }
    }
  }

  /** Of a run that fails after `lease`, `answer` is projected while the documentation says `d`. */
  ghost predicate ProjectsAgainst(events: seq<Event>, answer: Option<string>, d: Option<nat>) {
    Documented(Lease(events), d) && FailureProjection(events) == Failure(answer, Some("reason"))
  }

  lemma {:induction false} FailingAgainst(e: Envelope, lease: seq<Event>, d: Option<nat>)
    requires (forall x :: x in lease ==> !Reset(x)) && Documented(lease, d)
    ensures ProjectsAgainst(Failing(e, lease), FailedStep(lease), d)
  {
    FailedRunProjects(e, lease);
    ClosedLease(lease, WorkflowFailed(e, "reason"));
  }

  /** An interim failure that may be retried is reported although nothing failed terminally. */
  lemma RetryableIsReported(e: Envelope)
    ensures var lease := [ActivityScheduled(e, 1, "a"), ActivityFailed(e, 1, Retryable)];
            ProjectsAgainst(Failing(e, lease), Some("a"), None)
  {
    var lease := [ActivityScheduled(e, 1, "a"), ActivityFailed(e, 1, Retryable)];
    assert lease[..1] == [ActivityScheduled(e, 1, "a")];
    FailingAgainst(e, lease, None);
  }

  /** Behind a terminal failure, an interim one of another activity is reported instead. */
  lemma RetryableHidesTerminal(e: Envelope)
    ensures var lease := [ActivityScheduled(e, 1, "a"), ActivityScheduled(e, 2, "b"),
                          ActivityFailed(e, 1, Terminal), ActivityFailed(e, 2, Retryable)];
            StepAt(lease, 2) == "a" && ProjectsAgainst(Failing(e, lease), Some("b"), Some(2))
  {
    var lease := [ActivityScheduled(e, 1, "a"), ActivityScheduled(e, 2, "b"),
                  ActivityFailed(e, 1, Terminal), ActivityFailed(e, 2, Retryable)];
    BothScheduled(e, lease);
    assert ScheduledAs(lease[..3], 2) == ScheduledAs(lease[..2], 2) == "b" by {
      assert lease[..3][..2] == lease[..2];
    }
    assert Lasting(lease, 2);
    FailingAgainst(e, lease, Some(2));
  }

  lemma BothScheduled(e: Envelope, lease: seq<Event>)
    requires |lease| >= 2 && lease[0] == ActivityScheduled(e, 1, "a") && lease[1] == ActivityScheduled(e, 2, "b")
    ensures ScheduledAs(lease[..2], 1) == "a" && ScheduledAs(lease[..2], 2) == "b"
  {
    assert lease[..2][..1] == lease[..1];
    assert lease[..1][0] == lease[0];
    assert ScheduledAs(lease[..1], 1) == "a";
  }

  /**
   Behind a terminal failure, one of another activity that then completed hides it: with the
   completion nothing is reported, and without it the other activity is.
   */
  lemma RecoveredFailureHidesTerminal(e: Envelope)
    ensures var lease := [ActivityScheduled(e, 1, "a"), ActivityScheduled(e, 2, "b"),
                          ActivityFailed(e, 1, Terminal), ActivityFailed(e, 2, Retryable), ActivityCompleted(e, 2)];
            && StepAt(lease, 2) == "a" && ProjectsAgainst(Failing(e, lease), None, Some(2))
            && ProjectsAgainst(Failing(e, lease[..4]), Some("b"), Some(2))
  {
    var lease := [ActivityScheduled(e, 1, "a"), ActivityScheduled(e, 2, "b"),
                  ActivityFailed(e, 1, Terminal), ActivityFailed(e, 2, Retryable), ActivityCompleted(e, 2)];
    RetryableHidesTerminal(e);
    assert lease[..4] == [ActivityScheduled(e, 1, "a"), ActivityScheduled(e, 2, "b"),
                          ActivityFailed(e, 1, Terminal), ActivityFailed(e, 2, Retryable)];
    BothScheduled(e, lease);
    assert Lasting(lease, 2);
    assert lease[4].ActivityCompleted?;
    assert LatestFailure(lease) == LatestFailure(lease[..4]) == Some(3);
    FailingAgainst(e, lease, Some(2));
  }

  /** An activity that completed and then failed terminally is not reported. */
  lemma CompletedThenFailedIsHidden(e: Envelope)
    ensures var lease := [ActivityScheduled(e, 1, "a"), ActivityCompleted(e, 1), ActivityFailed(e, 1, Terminal)];
            StepAt(lease, 2) == "a" && ProjectsAgainst(Failing(e, lease), None, Some(2))
  {
    var lease := [ActivityScheduled(e, 1, "a"), ActivityCompleted(e, 1), ActivityFailed(e, 1, Terminal)];
    assert lease[1].ActivityCompleted?;
    assert lease[..2][..1] == [ActivityScheduled(e, 1, "a")];
    assert ScheduledAs(lease[..2], 1) == ScheduledAs(lease[..2][..1], 1) == "a";
    assert Lasting(lease, 2);
    FailingAgainst(e, lease, Some(2));
  }

  /** A terminal failure in a reopened run, of an activity scheduled before the reopen, is not reported. */
  lemma ScheduledBeforeReopenIsHidden(e: Envelope)
    ensures var events :=
              Failing(e, [ActivityScheduled(e, 1, "a"), WorkflowFailed(e, "earlier"), WorkflowReopened(e, "run"),
                          ActivityFailed(e, 1, Terminal)]);
            ProjectsAgainst(events, None, Some(0))
  {
    var front := [WorkflowStarted(e, "type", "run"), ActivityScheduled(e, 1, "a"), WorkflowFailed(e, "earlier")];
    var lease := [ActivityFailed(e, 1, Terminal)];
    FailingProjects(e, front, WorkflowReopened(e, "run"), lease);
    assert front + [WorkflowReopened(e, "run")] + (lease + [WorkflowFailed(e, "reason")])
        == Failing(e, [ActivityScheduled(e, 1, "a"), WorkflowFailed(e, "earlier"), WorkflowReopened(e, "run"),
                       ActivityFailed(e, 1, Terminal)]);
    assert Lasting(lease, 0);
    ClosedLease(lease, WorkflowFailed(e, "reason"));
  }

  // ----- summaries, and what pause and resume markers cannot change -----

  datatype Summary = Summary(
    workflowId: string,
    workflowType: string,
    status: WorkflowStatus,
    startedAt: int,
    endedAt: Option<int>,
    failure: Failure)

  function LastStart(events: seq<Event>): (r: Option<Event>)
    ensures r.Some? ==> r.value.WorkflowStarted?
  {
    if events == [] then None
    else if events[|events| - 1].WorkflowStarted? then Some(events[|events| - 1])
    else LastStart(events[..|events| - 1])
  }

  function FromHistory(events: seq<Event>): Option<Summary> {
    var start := LastStart(events);
    if start.None? then None
    else
      var terminal := CurrentLeaseTerminal(events);
      Some(Summary(
        start.value.envelope.workflowId,
        start.value.workflowType,
        StatusFromEvents(events),
        start.value.envelope.recordedAt,
        if terminal.Some? then Some(terminal.value.envelope.recordedAt) else None,
        FailureProjection(events)))
  }

  /** The history without its pause and resume markers. */
  ghost function Unmarked(events: seq<Event>): seq<Event> {
    if events == [] then []
    else
      var last := events[|events| - 1];
      Unmarked(events[..|events| - 1]) + (if Marker(last) then [] else [last])
  }

  lemma {:induction false} UnmarkedAppend(events: seq<Event>, e: Event)
    ensures Unmarked(events + [e]) == Unmarked(events) + (if Marker(e) then [] else [e])
  {
    assert (events + [e])[..|events|] == events;
  }

  lemma LastOf(front: seq<Event>, last: Event)
    ensures (front + [last])[..|front + [last]| - 1] == front && (front + [last])[|front + [last]| - 1] == last
  {
  }

  lemma {:induction false} MarkersLeaveScans(events: seq<Event>)
    ensures CurrentLeaseTerminal(Unmarked(events)) == CurrentLeaseTerminal(events)
    ensures LastStart(Unmarked(events)) == LastStart(events)
    ensures Lease(Unmarked(events)) == Unmarked(Lease(events))
  {
    if events != [] {
      var front, last := events[..|events| - 1], events[|events| - 1];
      MarkersLeaveScans(front);
      if Marker(last) {
        assert Unmarked(events) == Unmarked(front);
      } else {
        LastOf(Unmarked(front), last);
      }
      if !Reset(last) {
        UnmarkedAppend(Lease(front), last);
      }
    }
  }

  lemma {:induction false} UnmarkedSplit(events: seq<Event>)
    requires events != []
    ensures var front, last := events[..|events| - 1], events[|events| - 1];
            if Marker(last) then Unmarked(events) == Unmarked(front)
            else
              && |Unmarked(events)| == |Unmarked(front)| + 1
              && Unmarked(events)[|Unmarked(events)| - 1] == last
              && Unmarked(events)[..|Unmarked(events)| - 1] == Unmarked(front)
              && Unmarked(events) == Unmarked(front) + [last]
  {
  }

  lemma {:induction false} MarkersLeaveSchedules(lease: seq<Event>, id: nat)
    ensures ScheduledAs(Unmarked(lease), id) == ScheduledAs(lease, id)
  {
    if lease != [] {
      UnmarkedSplit(lease);
      MarkersLeaveSchedules(lease[..|lease| - 1], id);
    }
  }

  lemma {:induction false} MarkersLeaveFinished(lease: seq<Event>, id: nat)
    ensures Finished(Unmarked(lease), id) <==> Finished(lease, id)
  {
    if lease != [] {
      var front, last := lease[..|lease| - 1], lease[|lease| - 1];
      UnmarkedSplit(lease);
      MarkersLeaveFinished(front, id);
      FinishedExtends(front, last);
      FinishedExtends(Unmarked(front), last);
      assert front + [last] == lease;
    }
  }

  lemma {:induction false} MarkersLeaveLatestFailure(lease: seq<Event>)
    ensures LatestFailure(Unmarked(lease)).Some? <==> LatestFailure(lease).Some?
    ensures LatestFailure(lease).Some? ==>
              var i, i' := LatestFailure(lease).value, LatestFailure(Unmarked(lease)).value;
              Unmarked(lease)[i'] == lease[i] && Unmarked(lease)[..i'] == Unmarked(lease[..i])
  {
    if lease != [] {
      var front, last := lease[..|lease| - 1], lease[|lease| - 1];
      UnmarkedSplit(lease);
      MarkersLeaveLatestFailure(front);
      if LatestFailure(front).Some? && !last.ActivityFailed? {
        var i, i' := LatestFailure(front).value, LatestFailure(Unmarked(front)).value;
        assert lease[..i] == front[..i];
        assert Unmarked(lease)[..i'] == Unmarked(front)[..i'];
      }
    }
  }

  lemma {:induction false} MarkersLeaveFailedStep(lease: seq<Event>)
    ensures FailedStep(Unmarked(lease)) == FailedStep(lease)
  {
    MarkersLeaveLatestFailure(lease);
    if LatestFailure(lease).Some? {
      var i := LatestFailure(lease).value;
      MarkersLeaveSchedules(lease[..i], lease[i].activityId);
      MarkersLeaveFinished(lease, lease[i].activityId);
    }
  }

  /** Deleting every pause and resume marker leaves every summary field but the status unchanged. */
  lemma {:induction false} MarkersChangeOnlyTheStatus(events: seq<Event>)
    ensures CurrentLeaseTerminal(Unmarked(events)) == CurrentLeaseTerminal(events)
    ensures FailureProjection(Unmarked(events)) == FailureProjection(events)
    ensures FromHistory(Unmarked(events)).Some? <==> FromHistory(events).Some?
    ensures FromHistory(events).Some? ==>
              FromHistory(Unmarked(events)).value
              == FromHistory(events).value.(status := StatusFromEvents(Unmarked(events)))
  {
    MarkersLeaveScans(events);
    MarkersLeaveFailedStep(Lease(events));
  }

  /** Deletion commutes with taking a run's segment. */
  lemma {:induction false} MarkersCommuteWithSegments(events: seq<Event>, runId: string)
    ensures RunSegment(Unmarked(events), runId) == Unmarked(RunSegment(events, runId))
    decreases |events|
  {
    if events != [] {
      UnmarkedCons(events);
      MarkersCommuteWithSegments(events[1..], runId);
      if events[0].WorkflowStarted? && events[0].runId == runId {
        MarkersCommuteWithUpToStart(events[1..]);
        UnmarkedCons(RunSegment(events, runId));
        assert RunSegment(events, runId)[1..] == UpToStart(events[1..]);
        assert ([events[0]] + Unmarked(events[1..]))[1..] == Unmarked(events[1..]);
      } else if Marker(events[0]) {
        assert Unmarked(events) == Unmarked(events[1..]);
      } else {
        assert ([events[0]] + Unmarked(events[1..]))[1..] == Unmarked(events[1..]);
      }
    }
  }

  lemma {:induction false} MarkersCommuteWithUpToStart(events: seq<Event>)
    ensures UpToStart(Unmarked(events)) == Unmarked(UpToStart(events))
    decreases |events|
  {
    if events != [] {
      UnmarkedCons(events);
      if Marker(events[0]) {
        assert Unmarked(events) == Unmarked(events[1..]);
      } else {
        assert ([events[0]] + Unmarked(events[1..]))[1..] == Unmarked(events[1..]);
      }
      if !events[0].WorkflowStarted? {
        MarkersCommuteWithUpToStart(events[1..]);
        UnmarkedCons(UpToStart(events));
        assert UpToStart(events)[1..] == UpToStart(events[1..]);
      }
    }
  }

  lemma {:induction false} UnmarkedCons(events: seq<Event>)
    requires events != []
    ensures Unmarked(events) == (if Marker(events[0]) then [] else [events[0]]) + Unmarked(events[1..])
    decreases |events|
  {
    if |events| > 1 {
      var front := events[..|events| - 1];
      UnmarkedCons(front);
      assert front[1..] == events[1..][..|events| - 2];
    } else {
      assert events[..0] == [] && events[1..] == [];
    }
  }

  function WithoutPause(status: WorkflowStatus): WorkflowStatus {
    if status.Paused? then Running else status
  }

  /** In a history the guards allow, deleting the markers turns a paused run back into a running one. */
  lemma {:induction false} UnmarkedStatus(events: seq<Event>, m: Machine)
    requires Replay(events) == Some(m)
    ensures StatusFromEvents(Unmarked(events)) == WithoutPause(StatusOf(m))
  {
    if events != [] {
      var front, last := events[..|events| - 1], events[|events| - 1];
      var before := Replay(front).value;
      UnmarkedStatus(front, before);
      UnmarkedStatusStep(Unmarked(front), before, last);
      UnmarkedSplit(events);
    }
  }

  lemma {:induction false} UnmarkedStatusStep(unmarked: seq<Event>, m: Machine, last: Event)
    requires After(m, last).Some? && StatusFromEvents(unmarked) == WithoutPause(StatusOf(m))
    ensures StatusFromEvents(if Marker(last) then unmarked else unmarked + [last])
         == WithoutPause(StatusOf(After(m, last).value))
  {
    StatusAppend(unmarked, last);
  }

  lemma {:induction false} StatusAppend(front: seq<Event>, last: Event)
    ensures StatusFromEvents(front + [last])
         == if Projects(last).Some? then Projects(last).value else StatusFromEvents(front)
  {
    LastOf(front, last);
  }
}
