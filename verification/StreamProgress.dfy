/**
 What the resuming event subscription does achieve (crates/aion-client/src/stream.rs): it attaches
 again after every drop that may be retried, delivers every event it is offered that is not older
 than what it delivered, and fails or ends only when the transport made it.
 */
module StreamProgress {
  import opened Wrappers
  import opened Seqs
  import opened EventStream

  // ----- one failure -----

  /** The error that the transport answers with, to an attach or on an open connection. */
  ghost function ErrorGiven(m: Move): Option<ClientError> {
    if !AsksTransport(m.before) then None
    else if m.before.connection.Attaching? then
      if m.answer.attach.AttachFailed? then Some(m.answer.attach.error) else None
    else if m.answer.item.ItemFailed? then Some(m.answer.item.error) else None
  }

  /** Unavailable servers are tried again, as long as nothing can have been missed. */
  ghost predicate MayRetry(s: Stream, error: ClientError) {
    error.Unavailable? && (s.perWorkflow || !s.deliveredAny)
  }

  ghost predicate GivesFatal(m: Move, error: ClientError) {
    ErrorGiven(m) == Some(error) && !MayRetry(m.before, error)
  }

  /**
   An attach or a connection that fails so that it may be retried ends nothing: the next turn is an
   attach that asks for one past the last sequence seen, and nothing is yielded in between.
   */
  lemma DropIsResumed(m: Move, next: Move)
    requires Genuine(m) && Genuine(next) && next.before == m.turned.stream
    requires ErrorGiven(m).Some? && MayRetry(m.before, ErrorGiven(m).value)
    ensures m.turned.seen.None? && !m.turned.stream.finished && m.turned.stream.terminalError.None?
    ensures var cursor := if !m.before.perWorkflow || m.before.lastSeq.None? then None
                          else Some(if m.before.lastSeq.value < MAX_SEQ then m.before.lastSeq.value + 1 else MAX_SEQ);
            && next.turned.seen == Some(Sent(cursor))
            && next.turned.stream == m.before.(connection := Attaching(cursor))
  {
  }

  /** Any other failure is yielded, at once or by the next turn, and finishes the stream. */
  lemma FatalIsYielded(m: Move, next: Move, error: ClientError)
    requires Genuine(m) && Genuine(next) && next.before == m.turned.stream && GivesFatal(m, error)
    ensures m.turned.seen == Some(Failed(error))
         || (m.turned.seen.None? && next.turned.seen == Some(Failed(error)) && next.turned.stream.finished)
  {
  }

  // ----- failures over runs -----

  ghost predicate FatalBefore(moves: seq<Move>, i: int, error: ClientError) {
    exists j :: 0 <= j <= i < |moves| && GivesFatal(moves[j], error)
  }

  /** An error waiting to be yielded was given by the transport just before. */
  lemma {:induction false} WaitingErrorWasGiven(start: Stream, moves: seq<Move>, i: nat)
    requires start.terminalError.None? && IsRun(start, moves) && i < |moves|
    requires moves[i].before.terminalError.Some?
    ensures i > 0 && GivesFatal(moves[i - 1], moves[i].before.terminalError.value) && moves[i - 1].turned.seen.None?
    decreases i
  {
    LinkedPrefix(start, moves, i);
    if i > 0 {
      LinkedPrefix(start, moves, i - 1);
      NextBefore(start, moves, i);
      assert Genuine(moves[i - 1]);
      if moves[i - 1].before.terminalError.Some? {
        FinishedWaitsForNothing(start, moves, i - 1);
      }
    }
  }

  lemma {:induction false} NextBefore(start: Stream, moves: seq<Move>, i: nat)
    requires Linked(start, moves) && 0 < i < |moves|
    ensures moves[i].before == moves[i - 1].turned.stream
    decreases |moves|
  {
    if i > 1 {
      NextBefore(moves[0].turned.stream, moves[1..], i - 1);
    }
  }

  /** A finished stream has no error waiting. */
  lemma {:induction false} FinishedWaitsForNothing(start: Stream, moves: seq<Move>, i: nat)
    requires (start.finished ==> start.terminalError.None?) && IsRun(start, moves) && i < |moves|
    ensures moves[i].before.finished ==> moves[i].before.terminalError.None?
    decreases i
  {
    if i > 0 {
      FinishedWaitsForNothing(start, moves, i - 1);
      NextBefore(start, moves, i);
      assert Genuine(moves[i - 1]);
    }
  }

  /**
   Over any run a failure is yielded exactly when the transport gave it and it may not be retried:
   in the very turn, or, for a failed connection, in the turn behind it.
   */
  lemma {:induction false} FailsExactlyWhenGiven(start: Stream, moves: seq<Move>, i: nat, error: ClientError)
    requires start.terminalError.None? && IsRun(start, moves) && i < |moves|
    ensures moves[i].turned.seen == Some(Failed(error))
       <==> || (GivesFatal(moves[i], error) && moves[i].before.connection.Attaching?)
            || (i > 0 && GivesFatal(moves[i - 1], error) && moves[i - 1].before.connection.Attached?)
  {
    assert Genuine(moves[i]);
    if i > 0 {
      NextBefore(start, moves, i);
      assert Genuine(moves[i - 1]);
    } else {
      LinkedPrefix(start, moves, 0);
    }
    if moves[i].before.terminalError.Some? {
      WaitingErrorWasGiven(start, moves, i);
      FinishedWaitsForNothing(start, moves, i);
    }
  }

  ghost predicate GivesEnd(m: Move) {
    AsksTransport(m.before) && m.before.connection.Attached? && m.answer.item.Closed?
  }

  /** The end is yielded exactly when the transport closes the connection, and behind a failure or an end. */
  lemma {:induction false} EndsExactlyWhenClosed(start: Stream, moves: seq<Move>, i: nat)
    requires !start.finished && start.terminalError.None? && IsRun(start, moves) && i < |moves|
    ensures moves[i].turned.seen == Some(Ended)
       <==> || GivesEnd(moves[i])
            || exists j :: 0 <= j < i && (GivesEnd(moves[j]) || exists e :: moves[j].turned.seen == Some(Failed(e)))
  {
    assert Genuine(moves[i]);
    FinishedIff(start, moves, i);
    if moves[i].before.finished {
      assert moves[i].turned.seen == Some(Ended);
    }
  }

  lemma {:induction false} FinishedIff(start: Stream, moves: seq<Move>, i: nat)
    requires !start.finished && IsRun(start, moves) && i < |moves|
    ensures moves[i].before.finished
       <==> exists j :: 0 <= j < i && (GivesEnd(moves[j]) || exists e :: moves[j].turned.seen == Some(Failed(e)))
    decreases i
  {
    if i == 0 {
      LinkedPrefix(start, moves, 0);
    } else {
      FinishedIff(start, moves, i - 1);
      NextBefore(start, moves, i);
      assert Genuine(moves[i - 1]);
      var m := moves[i - 1];
      if m.turned.stream.finished && !m.before.finished {
        assert GivesEnd(m) || (m.turned.seen.Some? && m.turned.seen.value.Failed?);
        if !GivesEnd(m) {
          assert m.turned.seen == Some(Failed(m.turned.seen.value.error));
        }
      }
      if exists e :: m.turned.seen == Some(Failed(e)) {
        assert m.turned.stream.finished;
      }
    }
  }

  ghost predicate ShowsDelivery(m: Move) {
    && m.turned.stream.perWorkflow == m.before.perWorkflow
    && (m.turned.stream.deliveredAny <==> m.before.deliveredAny || DeliveredBy(m.turned) != [])
  }

  lemma GenuineShowsDelivery(m: Move)
    requires Genuine(m)
    ensures ShowsDelivery(m)
  {
  }

  /** Whether a stream has delivered is what its trace shows. */
  lemma {:induction false} DeliveredShows(start: Stream, moves: seq<Move>)
    requires Linked(start, moves) && forall m :: m in moves ==> ShowsDelivery(m)
    ensures EndOf(start, moves).deliveredAny <==> start.deliveredAny || Deliveries(Trace(moves)) != []
    ensures EndOf(start, moves).perWorkflow == start.perWorkflow
    decreases |moves|
  {
    if moves != [] {
      assert ShowsDelivery(moves[0]);
      DeliveredShows(moves[0].turned.stream, moves[1..]);
      EndOfRest(start, moves);
      FirstDeliveries(moves);
    }
  }

  /** So what may be retried on a live-only stream is what fails before anything was delivered. */
  lemma {:induction false} RetryDependsOnTrace(start: Stream, moves: seq<Move>, i: nat, error: ClientError)
    requires IsRun(start, moves) && i < |moves| && !start.deliveredAny
    ensures MayRetry(moves[i].before, error)
       <==> error.Unavailable? && (start.perWorkflow || Deliveries(Trace(moves[..i])) == [])
  {
    forall m | m in moves[..i] ensures ShowsDelivery(m) {
      assert m in moves;
      GenuineShowsDelivery(m);
    }
    LinkedPrefix(start, moves, i);
    DeliveredShows(start, moves[..i]);
  }

  // ----- nothing offered is held back -----

  /** The events that the transport hands over on open connections. */
  ghost function Offered(moves: seq<Move>): seq<Event> {
    if moves == [] then [] else OfferedBy(moves[0]) + Offered(moves[1..])
  }

  ghost function OfferedBy(m: Move): seq<Event> {
    if AsksTransport(m.before) && m.before.connection.Attached? && m.answer.item.Item? then [m.answer.item.event] else []
  }

  /** The events newer than everything before them. */
  ghost function Newer(last: Option<Seq>, events: seq<Event>): seq<Event>
    decreases |events|
  {
    if events == [] then []
    else if last.Some? && events[0].sequence <= last.value then Newer(last, events[1..])
    else [events[0]] + Newer(Some(events[0].sequence), events[1..])
  }

  lemma {:induction false} NewerConcat(last: Option<Seq>, a: seq<Event>, b: seq<Event>)
    ensures Newer(last, a + b) == Newer(last, a) + Newer(LastAfter(last, Newer(last, a)), b)
    decreases |a|
  {
    if a == [] {
      assert a + b == b;
      assert Newer(last, a) + Newer(last, b) == Newer(last, b);
    } else {
      SplitFirst(a, b);
      var last' := if last.Some? && a[0].sequence <= last.value then last else Some(a[0].sequence);
      NewerConcat(last', a[1..], b);
      LastOfNewer(last, a);
      if last' != last {
        Assoc([a[0]], Newer(last', a[1..]), Newer(LastAfter(last', Newer(last', a[1..])), b));
      }
    }
  }

  ghost predicate DeliversNewer(m: Move) {
    m.before.perWorkflow ==>
      && m.turned.stream.perWorkflow
      && DeliveredBy(m.turned) == Newer(m.before.lastSeq, OfferedBy(m))
      && m.turned.stream.lastSeq == LastAfter(m.before.lastSeq, DeliveredBy(m.turned))
  }

  lemma GenuineDeliversNewer(m: Move)
    requires Genuine(m)
    ensures DeliversNewer(m)
  {
    if OfferedBy(m) != [] {
      assert OfferedBy(m)[1..] == [];
    }
  }

  lemma {:induction false} NewerDelivered(start: Stream, moves: seq<Move>)
    requires start.perWorkflow && Linked(start, moves) && forall m :: m in moves ==> DeliversNewer(m)
    ensures Deliveries(Trace(moves)) == Newer(start.lastSeq, Offered(moves))
    decreases |moves|
  {
    if moves != [] {
      assert DeliversNewer(moves[0]);
      NewerDelivered(moves[0].turned.stream, moves[1..]);
      FirstDeliveries(moves);
      NewerConcat(start.lastSeq, OfferedBy(moves[0]), Offered(moves[1..]));
    }
  }

  /** A per-workflow stream delivers, of all it is offered, exactly the events newer than those before. */
  lemma {:induction false} DeliversWhatIsNewer(start: Stream, moves: seq<Move>)
    requires start.perWorkflow && IsRun(start, moves)
    ensures Deliveries(Trace(moves)) == Newer(start.lastSeq, Offered(moves))
  {
    forall m | m in moves ensures DeliversNewer(m) {
      GenuineDeliversNewer(m);
    }
    NewerDelivered(start, moves);
  }

  ghost predicate DeliversOffered(m: Move) {
    !m.before.perWorkflow ==> !m.turned.stream.perWorkflow && DeliveredBy(m.turned) == OfferedBy(m)
  }

  lemma {:induction false} OfferedDelivered(start: Stream, moves: seq<Move>)
    requires !start.perWorkflow && Linked(start, moves) && forall m :: m in moves ==> DeliversOffered(m)
    ensures Deliveries(Trace(moves)) == Offered(moves)
    decreases |moves|
  {
    if moves != [] {
      assert DeliversOffered(moves[0]);
      OfferedDelivered(moves[0].turned.stream, moves[1..]);
      FirstDeliveries(moves);
    }
  }

  /** A live-only stream delivers everything it is offered. */
  lemma {:induction false} LiveOnlyDeliversAll(start: Stream, moves: seq<Move>)
    requires !start.perWorkflow && IsRun(start, moves)
    ensures Deliveries(Trace(moves)) == Offered(moves)
  {
    forall m | m in moves ensures DeliversOffered(m) {
      assert Genuine(m);
    }
    OfferedDelivered(start, moves);
  }

  /** Nothing offered is newer than the last delivery. */
  lemma {:induction false} NewerReachesAll(last: Option<Seq>, events: seq<Event>, e: Event)
    requires e in events
    ensures LastAfter(last, Newer(last, events)).Some? && e.sequence <= LastAfter(last, Newer(last, events)).value
    decreases |events|
  {
    var head, rest := events[0], events[1..];
    var last' := if last.Some? && head.sequence <= last.value then last else Some(head.sequence);
    NewerGrows(last', rest);
    LastOfNewer(last, events);
    if e != head {
      NewerReachesAll(last', rest, e);
    }
  }

  lemma LastOfNewer(last: Option<Seq>, events: seq<Event>)
    requires events != []
    ensures var last' := if last.Some? && events[0].sequence <= last.value then last else Some(events[0].sequence);
            LastAfter(last, Newer(last, events)) == LastAfter(last', Newer(last', events[1..]))
  {
  }

  lemma {:induction false} NewerGrows(last: Option<Seq>, events: seq<Event>)
    requires last.Some?
    ensures LastAfter(last, Newer(last, events)).Some? && last.value <= LastAfter(last, Newer(last, events)).value
    decreases |events|
  {
    if events != [] {
      var last' := if events[0].sequence <= last.value then last else Some(events[0].sequence);
      NewerGrows(last', events[1..]);
      LastOfNewer(last, events);
    }
  }

  /**
   From an honest server the caller gets the log from the opened sequence on, each event once, and
   gets as far as the server does: every event of the log from there on that a connection hands
   over has been delivered.
   */
  lemma {:induction false} CallerGetsAllOffered(log: seq<Event>, first: Seq, b: nat, calls: seq<Call>)
    returns (e: nat)
    requires StrictlyIncreasing(log) && first > 0 && SplitsAt(log, first - 1, b)
    requires AreCalls(OpenFrom(first), calls) && Honest(log, 0, Joined(calls))
    ensures b <= e <= |log| && Deliveries(Got(calls)) == log[b..e]
    ensures forall i :: e <= i < |log| ==> log[i] !in Offered(Joined(calls))
  {
    e := CallerGetsExactlyOnce(log, first, b, calls);
    var start, moves := OpenFrom(first), Joined(calls);
    CallsJoin(start, calls);
    OutputsDeliver(moves);
    DeliversWhatIsNewer(start, moves);
    forall i | e <= i < |log| ensures log[i] !in Offered(moves) {
      if log[i] in Offered(moves) {
        NewerReachesAll(start.lastSeq, Offered(moves), log[i]);
      }
    }
  }

  // ----- what the caller sees of it -----

  lemma {:induction false} OutputsAre(moves: seq<Move>, o: Observation)
    requires !o.Sent?
    ensures o in Outputs(moves) <==> exists i :: 0 <= i < |moves| && moves[i].turned.seen == Some(o)
  {
    if moves != [] {
      var rest := moves[1..];
      OutputsAre(rest, o);
      if i :| 0 <= i < |rest| && rest[i].turned.seen == Some(o) {
        assert moves[i + 1].turned.seen == Some(o);
      }
      if i :| 0 <= i < |moves| && moves[i].turned.seen == Some(o) {
        if i > 0 {
          assert rest[i - 1].turned.seen == Some(o);
        }
      }
    }
  }

  lemma {:induction false} CallsLeaveNoError(start: Stream, calls: seq<Call>)
    requires start.terminalError.None? && AreCalls(start, calls)
    ensures EndOf(start, Joined(calls)).terminalError.None?
    decreases |calls|
  {
    if calls != [] {
      var s := EndOf(start, calls[0].moves);
      CallsJoin(s, calls[1..]);
      CallsLeaveNoError(s, calls[1..]);
      RunsJoin(start, calls[0].moves, Joined(calls[1..]));
    }
  }

  lemma {:induction false} FailureWasGiven(start: Stream, moves: seq<Move>, i: nat, error: ClientError)
    requires start.terminalError.None? && IsRun(start, moves) && i < |moves|
    requires moves[i].turned.seen == Some(Failed(error))
    ensures exists j :: 0 <= j < |moves| && GivesFatal(moves[j], error)
  {
    FailsExactlyWhenGiven(start, moves, i, error);
  }

  lemma {:induction false} GivenIsYielded(start: Stream, moves: seq<Move>, i: nat, error: ClientError)
    requires start.terminalError.None? && IsRun(start, moves) && i < |moves|
    requires GivesFatal(moves[i], error) && EndOf(start, moves).terminalError.None?
    ensures exists j :: 0 <= j < |moves| && moves[j].turned.seen == Some(Failed(error))
  {
    if moves[i].before.connection.Attaching? {
      FailsExactlyWhenGiven(start, moves, i, error);
    } else {
      FatalWaits(moves[i], error);
      FailsExactlyWhenGiven(start, moves, i + 1, error);
    }
  }

  lemma FatalWaits(m: Move, error: ClientError)
    requires Genuine(m) && GivesFatal(m, error) && !m.before.connection.Attaching?
    ensures m.before.connection.Attached? && m.turned.stream.terminalError == Some(error)
  {
  }

  /**
   Over any number of calls, the caller gets a failure exactly if the transport gave that failure
   and it may not be retried: it is not Unavailable, or the stream is live-only and had delivered.
   */
  lemma {:induction false} CallerFailsExactlyWhenGiven(start: Stream, calls: seq<Call>, error: ClientError)
    requires start.terminalError.None? && AreCalls(start, calls)
    ensures Failed(error) in Got(calls) <==> exists i :: 0 <= i < |Joined(calls)| && GivesFatal(Joined(calls)[i], error)
  {
    var moves := Joined(calls);
    CallsJoin(start, calls);
    CallsLeaveNoError(start, calls);
    OutputsAre(moves, Failed(error));
    if i :| 0 <= i < |moves| && moves[i].turned.seen == Some(Failed(error)) {
      FailureWasGiven(start, moves, i, error);
    }
    if i :| 0 <= i < |moves| && GivesFatal(moves[i], error) {
      GivenIsYielded(start, moves, i, error);
    }
  }

  /** And unless it got a failure, the caller gets the end only if the transport closed a connection. */
  lemma {:induction false} CallerEndsOnlyWhenClosed(start: Stream, calls: seq<Call>)
    requires !start.finished && start.terminalError.None? && AreCalls(start, calls)
    requires Ended in Got(calls) && forall error :: Failed(error) !in Got(calls)
    ensures exists i :: 0 <= i < |Joined(calls)| && GivesEnd(Joined(calls)[i])
  {
    var moves := Joined(calls);
    CallsJoin(start, calls);
    OutputsAre(moves, Ended);
    var i :| 0 <= i < |moves| && moves[i].turned.seen == Some(Ended);
    EndsExactlyWhenClosed(start, moves, i);
    if !GivesEnd(moves[i]) {
      var j :| 0 <= j < i && (GivesEnd(moves[j]) || exists e :: moves[j].turned.seen == Some(Failed(e)));
      if !GivesEnd(moves[j]) {
        var e :| moves[j].turned.seen == Some(Failed(e));
        OutputsAre(moves, Failed(e));
      }
    }
  }
}
