/**
 The resuming event subscription (crates/aion-client/src/stream.rs).

 One pass of the poll loop is broken into turns. A turn either moves the client on its own
 or polls the transport, which answers as it likes: an arbitrary list of answers is an
 arbitrary transport. The results speak about every such list.
 */
module EventStream {
  import opened Wrappers
  import opened Seqs

  const MAX_SEQ: nat := 0xFFFF_FFFF_FFFF_FFFF

  type Seq = n: nat | n <= MAX_SEQ

  datatype Event = Event(sequence: Seq, workflow: string, payload: string)

  datatype ClientError = Unavailable(detail: string) | Refused(kind: string, detail: string)

  predicate IsRetryable(error: ClientError) {
    error.Unavailable?
  }

  /** What the transport says to one poll of a pending attach. `start` is the server's choice. */
  datatype AttachPoll = AttachPending | Accepted(start: nat) | AttachFailed(error: ClientError)

  datatype ItemPoll = ItemPending | Item(event: Event) | ItemFailed(error: ClientError) | Closed

  /** The answer to the next poll, whichever of the two kinds it turns out to be. */
  datatype Answer = Answer(attach: AttachPoll, item: ItemPoll)

  datatype Connection =
    | Idle
    | Attaching(cursor: Option<Seq>)
    | Attached(cursor: Option<Seq>)

  datatype Stream = Stream(
    perWorkflow: bool,
    lastSeq: Option<Seq>,
    deliveredAny: bool,
    connection: Connection,
    terminalError: Option<ClientError>,
    finished: bool)

  /** What an observer outside the client sees: attach requests and items yielded to the caller. */
  datatype Observation =
    | Sent(cursor: Option<Seq>)
    | Delivered(event: Event)
    | Failed(error: ClientError)
    | Ended

  datatype Turned = Turned(stream: Stream, seen: Option<Observation>)

  /** One turn of a run: the state before it, the answer given, and what came of it. */
  datatype Move = Move(before: Stream, answer: Answer, turned: Turned)

  function Open(perWorkflow: bool): Stream {
    Stream(perWorkflow, None, false, Idle, None, false)
  }

  /** Opens at an explicit first sequence number, which is never zero. */
  function OpenFrom(first: Seq): Stream
    requires first > 0
  {
    Open(true).(lastSeq := Some(first - 1))
  }

  /** One past the last sequence seen, saturating. */
  function CursorAfter(last: Option<Seq>): Option<Seq> {
    if last.None? then None else Some(if last.value < MAX_SEQ then last.value + 1 else MAX_SEQ)
  }

  /** The cursor of an attach; only per-workflow streams carry one. */
  function Cursor(s: Stream): Option<Seq> {
    if s.perWorkflow then CursorAfter(s.lastSeq) else None
  }

  function Turn(s: Stream, a: Answer): Turned {
    if s.finished then Turned(s, Some(Ended))
    else if s.terminalError.Some? then
      Turned(s.(terminalError := None, finished := true), Some(Failed(s.terminalError.value)))
    else
      match s.connection
      case Idle => Turned(s.(connection := Attaching(Cursor(s))), Some(Sent(Cursor(s))))
      case Attaching(cursor) => AttachTurn(s, cursor, a.attach)
      case Attached(_) => ItemTurn(s, a.item)
  }

  function AttachTurn(s: Stream, cursor: Option<Seq>, a: AttachPoll): Turned {
    match a
    case AttachPending => Turned(s, None)
    case Accepted(_) => Turned(s.(connection := Attached(cursor)), None)
    case AttachFailed(error) =>
      if IsRetryable(error) && (s.perWorkflow || !s.deliveredAny) then Turned(s.(connection := Idle), None)
      else Turned(s.(connection := Idle, finished := true), Some(Failed(error)))
  }

  function ItemTurn(s: Stream, a: ItemPoll): Turned {
    match a
    case ItemPending => Turned(s, None)
    case Item(event) =>
      if s.perWorkflow && s.lastSeq.Some? && event.sequence <= s.lastSeq.value then Turned(s, None)
      else
        Turned(
          s.(lastSeq := if s.perWorkflow then Some(event.sequence) else s.lastSeq, deliveredAny := true),
          Some(Delivered(event)))
    case ItemFailed(error) =>
      if IsRetryable(error) && (s.perWorkflow || !s.deliveredAny) then Turned(s.(connection := Idle), None)
      else Turned(s.(connection := Idle, terminalError := Some(error)), None)
    case Closed => Turned(s.(connection := Idle, finished := true), Some(Ended))
  }

  function Seen(seen: Option<Observation>): seq<Observation> {
    if seen.Some? then [seen.value] else []
  }

  // ----- runs -----

  ghost predicate Genuine(m: Move) {
    m.turned == Turn(m.before, m.answer)
  }

  ghost predicate Linked(start: Stream, moves: seq<Move>)
    decreases |moves|
  {
    moves != [] ==> moves[0].before == start && Linked(moves[0].turned.stream, moves[1..])
  }

  /** A run of the client from `start`, under whatever answers the transport gave. */
  ghost predicate IsRun(start: Stream, moves: seq<Move>) {
    Linked(start, moves) && forall m :: m in moves ==> Genuine(m)
  }

  ghost function EndOf(start: Stream, moves: seq<Move>): Stream {
    if moves == [] then start else moves[|moves| - 1].turned.stream
  }

  ghost function Trace(moves: seq<Move>): seq<Observation> {
    if moves == [] then [] else Seen(moves[0].turned.seen) + Trace(moves[1..])
  }

  ghost function Deliveries(trace: seq<Observation>): seq<Event> {
    if trace == [] then []
    else (if trace[0].Delivered? then [trace[0].event] else []) + Deliveries(trace[1..])
  }

  lemma {:induction false} DeliveriesConcat(a: seq<Observation>, b: seq<Observation>)
    ensures Deliveries(a + b) == Deliveries(a) + Deliveries(b)
  {
    if a == [] {
      assert a + b == b;
    } else {
      SplitFirst(a, b);
      DeliveriesConcat(a[1..], b);
      Assoc(if a[0].Delivered? then [a[0].event] else [], Deliveries(a[1..]), Deliveries(b));
    }
  }

  ghost function DeliveredBy(t: Turned): seq<Event> {
    if t.seen.Some? && t.seen.value.Delivered? then [t.seen.value.event] else []
  }

  lemma {:induction false} FirstDeliveries(moves: seq<Move>)
    requires moves != []
    ensures Deliveries(Trace(moves)) == DeliveredBy(moves[0].turned) + Deliveries(Trace(moves[1..]))
  {
    var seen := moves[0].turned.seen;
    DeliveriesConcat(Seen(seen), Trace(moves[1..]));
    if seen.Some? {
      assert [seen.value][1..] == [];
    }
  }

  lemma FirstTrace(moves: seq<Move>)
    requires moves != []
    ensures var seen, trace, rest := moves[0].turned.seen, Trace(moves), Trace(moves[1..]);
            if seen.None? then trace == rest
            else
              && |trace| == |rest| + 1 && trace[0] == seen.value
              && (forall i :: 0 < i < |trace| ==> trace[i] == rest[i - 1])
  {
  }

  lemma {:induction false} EndOfRest(start: Stream, moves: seq<Move>)
    requires moves != []
    ensures EndOf(start, moves) == EndOf(moves[0].turned.stream, moves[1..])
  {
  }

  // ----- safety against any transport -----

  ghost predicate Above(last: Option<Seq>, events: seq<Event>) {
    forall i :: 0 <= i < |events| ==> last.Some? ==> last.value < events[i].sequence
  }

  ghost predicate StrictlyIncreasing(events: seq<Event>) {
    forall i, j :: 0 <= i < j < |events| ==> events[i].sequence < events[j].sequence
  }

  /** A per-workflow turn moves its cursor to what it delivers, and asks for what follows its cursor. */
  ghost predicate Advances(m: Move) {
    m.before.perWorkflow ==>
      && m.turned.stream.perWorkflow
      && Above(m.before.lastSeq, DeliveredBy(m.turned))
      && m.turned.stream.lastSeq == LastAfter(m.before.lastSeq, DeliveredBy(m.turned))
      && (m.turned.seen.Some? && m.turned.seen.value.Sent? ==>
            m.turned.seen.value.cursor == CursorAfter(m.before.lastSeq))
  }

  /** The cursor position after some deliveries. */
  ghost function LastAfter(last: Option<Seq>, events: seq<Event>): Option<Seq> {
    if events == [] then last else Some(events[|events| - 1].sequence)
  }

  lemma GenuineAdvances(m: Move)
    requires Genuine(m)
    ensures Advances(m)
  {
  }

  lemma RunAdvances(start: Stream, moves: seq<Move>)
    requires IsRun(start, moves)
    ensures forall m :: m in moves ==> Advances(m)
  {
    forall m | m in moves ensures Advances(m) {
      GenuineAdvances(m);
    }
  }

  lemma {:induction false} IncreasingDeliveries(start: Stream, moves: seq<Move>)
    requires start.perWorkflow && Linked(start, moves) && forall m :: m in moves ==> Advances(m)
    ensures Above(start.lastSeq, Deliveries(Trace(moves))) && StrictlyIncreasing(Deliveries(Trace(moves)))
    decreases |moves|
  {
    if moves != [] {
      assert Advances(moves[0]);
      IncreasingDeliveries(moves[0].turned.stream, moves[1..]);
      FirstDeliveries(moves);
    }
  }

  /** A per-workflow stream delivers strictly increasing sequence numbers, all past its opening cursor. */
  lemma {:induction false} DeliveryIsStrictlyIncreasing(start: Stream, moves: seq<Move>)
    requires start.perWorkflow && IsRun(start, moves)
    ensures Above(start.lastSeq, Deliveries(Trace(moves))) && StrictlyIncreasing(Deliveries(Trace(moves)))
  {
    RunAdvances(start, moves);
    IncreasingDeliveries(start, moves);
  }

  lemma LastAfterConcat(last: Option<Seq>, a: seq<Event>, b: seq<Event>)
    ensures LastAfter(last, a + b) == LastAfter(LastAfter(last, a), b)
  {
    if b == [] {
      assert a + b == a;
    }
  }

  lemma {:induction false} CursorFollowsDeliveries(start: Stream, moves: seq<Move>)
    requires start.perWorkflow && Linked(start, moves) && forall m :: m in moves ==> Advances(m)
    ensures EndOf(start, moves).perWorkflow
    ensures EndOf(start, moves).lastSeq == LastAfter(start.lastSeq, Deliveries(Trace(moves)))
    decreases |moves|
  {
    if moves != [] {
      var rest := moves[1..];
      assert Advances(moves[0]);
      CursorFollowsDeliveries(moves[0].turned.stream, rest);
      EndOfRest(start, moves);
      FirstDeliveries(moves);
      LastAfterConcat(start.lastSeq, DeliveredBy(moves[0].turned), Deliveries(Trace(rest)));
    }
  }

  lemma {:induction false} LinkedPrefix(start: Stream, moves: seq<Move>, i: nat)
    requires Linked(start, moves) && i < |moves|
    ensures Linked(start, moves[..i]) && EndOf(start, moves[..i]) == moves[i].before
    decreases i
  {
    if i > 0 {
      LinkedPrefix(moves[0].turned.stream, moves[1..], i - 1);
      assert moves[..i][1..] == moves[1..][..i - 1];
      EndOfRest(start, moves[..i]);
    }
  }

  /** Every attach of a per-workflow stream asks for exactly what follows the deliveries before it. */
  lemma {:induction false} AttachAsksForTheNext(start: Stream, moves: seq<Move>, i: nat)
    requires start.perWorkflow && IsRun(start, moves)
    requires i < |moves| && moves[i].turned.seen.Some? && moves[i].turned.seen.value.Sent?
    ensures moves[i].turned.seen.value.cursor
         == CursorAfter(LastAfter(start.lastSeq, Deliveries(Trace(moves[..i]))))
  {
    RunAdvances(start, moves);
    LinkedPrefix(start, moves, i);
    CursorFollowsDeliveries(start, moves[..i]);
    assert Advances(moves[i]);
  }

  /** An error or the end finishes the stream, and a finished stream only ends. */
  ghost predicate Settles(m: Move) {
    && (m.turned.seen.Some? && (m.turned.seen.value.Failed? || m.turned.seen.value.Ended?) ==> m.turned.stream.finished)
    && (m.before.finished ==> m.turned.stream.finished && m.turned.seen == Some(Ended))
  }

  lemma {:induction false} FinishedOnlyEnds(start: Stream, moves: seq<Move>)
    requires start.finished && Linked(start, moves) && forall m :: m in moves ==> Settles(m)
    ensures forall i :: 0 <= i < |Trace(moves)| ==> Trace(moves)[i] == Ended
    decreases |moves|
  {
    if moves != [] {
      assert Settles(moves[0]);
      FinishedOnlyEnds(moves[0].turned.stream, moves[1..]);
    }
  }

  lemma {:induction false} SettledTrace(start: Stream, moves: seq<Move>)
    requires Linked(start, moves) && forall m :: m in moves ==> Settles(m)
    ensures var trace := Trace(moves);
            forall i, j :: 0 <= i < j < |trace| && (trace[i].Failed? || trace[i].Ended?) ==> trace[j] == Ended
    decreases |moves|
  {
    if moves != [] {
      var t := moves[0].turned;
      assert Settles(moves[0]);
      SettledTrace(t.stream, moves[1..]);
      FirstTrace(moves);
      if t.stream.finished {
        FinishedOnlyEnds(t.stream, moves[1..]);
      }
    }
  }

  /** Once an error or the end is yielded, only the end follows; so at most one error is yielded. */
  lemma {:induction false} NothingFollowsTheEnd(start: Stream, moves: seq<Move>)
    requires IsRun(start, moves)
    ensures var trace := Trace(moves);
            forall i, j :: 0 <= i < j < |trace| && (trace[i].Failed? || trace[i].Ended?) ==> trace[j] == Ended
  {
    RunSettles(start, moves);
    SettledTrace(start, moves);
  }

  lemma RunSettles(start: Stream, moves: seq<Move>)
    requires IsRun(start, moves)
    ensures forall m :: m in moves ==> Settles(m)
  {
    forall m | m in moves ensures Settles(m) {
      assert Genuine(m);
    }
  }

  /** A live-only stream that has delivered is attached, or on its way out. */
  ghost predicate LiveSettled(s: Stream) {
    !s.perWorkflow && (s.deliveredAny ==> s.connection.Attached? || s.terminalError.Some? || s.finished)
  }

  ghost predicate NeverResumes(m: Move) {
    LiveSettled(m.before) ==>
      && LiveSettled(m.turned.stream)
      && (m.before.deliveredAny ==> m.turned.stream.deliveredAny)
      && (DeliveredBy(m.turned) != [] ==> m.turned.stream.deliveredAny)
      && (m.turned.seen.Some? && m.turned.seen.value.Sent? ==>
            m.turned.seen.value.cursor.None? && !m.before.deliveredAny)
  }

  lemma GenuineNeverResumes(m: Move)
    requires Genuine(m)
    ensures NeverResumes(m)
  {
  }

  lemma {:induction false} LiveOnlyTrace(start: Stream, moves: seq<Move>)
    requires LiveSettled(start) && Linked(start, moves) && forall m :: m in moves ==> NeverResumes(m)
    ensures LiveSettled(EndOf(start, moves))
    ensures var trace := Trace(moves);
            && (forall i :: 0 <= i < |trace| && trace[i].Sent? ==> trace[i].cursor.None? && !start.deliveredAny)
            && (forall i, j :: 0 <= i < j < |trace| && trace[i].Delivered? ==> !trace[j].Sent?)
    decreases |moves|
  {
    if moves != [] {
      assert NeverResumes(moves[0]);
      LiveOnlyTrace(moves[0].turned.stream, moves[1..]);
      FirstTrace(moves);
      EndOfRest(start, moves);
    }
  }

  /**
   Live-only streams never send a cursor and send nothing after a delivery. Hence the guard on
   prior delivery at an attach failure never fires: whenever an attach is in flight, nothing
   has been delivered.
   */
  lemma {:induction false} LiveOnlyNeverResumes(moves: seq<Move>)
    requires IsRun(Open(false), moves)
    ensures var trace := Trace(moves);
            && (forall i :: 0 <= i < |trace| && trace[i].Sent? ==> trace[i].cursor.None?)
            && (forall i, j :: 0 <= i < j < |trace| && trace[i].Delivered? ==> !trace[j].Sent?)
    ensures var s := EndOf(Open(false), moves);
            AsksTransport(s) && s.connection.Attaching? ==> !s.deliveredAny
  {
    forall m | m in moves ensures NeverResumes(m) {
      GenuineNeverResumes(m);
    }
    LiveOnlyTrace(Open(false), moves);
  }

  // ----- exactly-once delivery from an honest server -----

  /** Whether the next turn polls the transport. */
  predicate AsksTransport(s: Stream) {
    !s.finished && s.terminalError.None? && !s.connection.Idle?
  }

  /**
   An honest server keeps one log. An attach with cursor c is served from some log position
   no later than the first event at or past c, in log order, and may be cut anywhere; events
   older than c may be mixed in. Without a cursor the position is the server's choice.
   */
  ghost predicate HonestAnswer(log: seq<Event>, s: Stream, next: nat, a: Answer) {
    AsksTransport(s) ==>
      if s.connection.Attaching? then
        a.attach.Accepted? ==>
          && a.attach.start <= |log|
          && (s.connection.cursor.Some? ==>
                forall j :: 0 <= j < a.attach.start ==> log[j].sequence < s.connection.cursor.value)
      else
        a.item.Item? ==>
          || (next < |log| && a.item.event == log[next])
          || (s.connection.cursor.Some? && a.item.event.sequence < s.connection.cursor.value)
  }

  /** The server's position in the log for the current connection. */
  ghost function NextPosition(log: seq<Event>, s: Stream, next: nat, a: Answer): nat {
    if !AsksTransport(s) then next
    else if s.connection.Attaching? && a.attach.Accepted? then a.attach.start
    else if s.connection.Attached? && a.item.Item? && next < |log| && a.item.event == log[next] then next + 1
    else next
  }

  ghost predicate Honest(log: seq<Event>, next: nat, moves: seq<Move>)
    decreases |moves|
  {
    moves != [] ==>
      && HonestAnswer(log, moves[0].before, next, moves[0].answer)
      && Honest(log, NextPosition(log, moves[0].before, next, moves[0].answer), moves[1..])
  }

  /** `b` splits the log into what is at or before the cursor and what is past it. */
  ghost predicate SplitsAt(log: seq<Event>, last: Seq, b: nat) {
    && b <= |log|
    && (forall j :: 0 <= j < b ==> log[j].sequence <= last)
    && (forall j :: b <= j < |log| ==> last < log[j].sequence)
  }

  /**
   The client is in step with the log: its cursor splits the log at `b`, and its connection is
   served from no later than `b`, under a cursor the client has not overtaken.
   */
  ghost predicate InStep(log: seq<Event>, s: Stream, next: nat, b: nat) {
    && s.perWorkflow && s.lastSeq.Some? && SplitsAt(log, s.lastSeq.value, b)
    && (s.connection.Attached? ==> next <= b)
    && (!s.connection.Idle? && s.connection.cursor.Some? ==> s.connection.cursor.value <= s.lastSeq.value + 1)
    && (s.connection.Attaching? ==> s.connection.cursor == CursorAfter(s.lastSeq))
  }

  /** A turn delivers the next event of the log or nothing, and stays in step with the log. */
  lemma TurnStaysInStep(log: seq<Event>, m: Move, next: nat, b: nat)
    requires StrictlyIncreasing(log) && Genuine(m)
    requires InStep(log, m.before, next, b) && HonestAnswer(log, m.before, next, m.answer)
    ensures var next' := NextPosition(log, m.before, next, m.answer);
            || (DeliveredBy(m.turned) == [] && InStep(log, m.turned.stream, next', b))
            || (b < |log| && DeliveredBy(m.turned) == [log[b]] && InStep(log, m.turned.stream, next', b + 1))
  {
    assert b < |log| ==> CursorAfter(m.before.lastSeq).value <= log[b].sequence;
  }

  lemma SliceCons(log: seq<Event>, b: nat, e: nat)
    requires b < e <= |log|
    ensures log[b..e] == [log[b]] + log[b + 1..e]
  {
  }

  /** From a set cursor on, what is delivered is the log from that cursor, without gap or repeat. */
  lemma {:induction false} ResumesWithoutGap(log: seq<Event>, start: Stream, next: nat, b: nat, moves: seq<Move>)
    returns (e: nat)
    requires StrictlyIncreasing(log) && InStep(log, start, next, b)
    requires IsRun(start, moves) && Honest(log, next, moves)
    ensures b <= e <= |log| && Deliveries(Trace(moves)) == log[b..e]
    decreases |moves|
  {
    if moves == [] {
      e := b;
    } else {
      var m, rest := moves[0], moves[1..];
      TurnStaysInStep(log, m, next, b);
      FirstDeliveries(moves);
      var next' := NextPosition(log, m.before, next, m.answer);
      if DeliveredBy(m.turned) == [] {
        e := ResumesWithoutGap(log, m.turned.stream, next', b, rest);
      } else {
        e := ResumesWithoutGap(log, m.turned.stream, next', b + 1, rest);
        SliceCons(log, b, e);
      }
    }
  }

  /** Opened at an explicit sequence, the stream delivers a slice of the log that starts there. */
  lemma {:induction false} OpenedFromIsExactlyOnce(log: seq<Event>, first: Seq, b: nat, moves: seq<Move>)
    returns (e: nat)
    requires StrictlyIncreasing(log) && first > 0 && SplitsAt(log, first - 1, b)
    requires IsRun(OpenFrom(first), moves) && Honest(log, 0, moves)
    ensures b <= e <= |log| && Deliveries(Trace(moves)) == log[b..e]
  {
    e := ResumesWithoutGap(log, OpenFrom(first), 0, b, moves);
  }

  /** A per-workflow client that has no cursor yet. */
  ghost predicate Cursorless(s: Stream) {
    s.perWorkflow && s.lastSeq.None? && (!s.connection.Idle? ==> s.connection.cursor.None?)
  }

  lemma CursorlessTurn(log: seq<Event>, m: Move, next: nat)
    requires StrictlyIncreasing(log) && Genuine(m)
    requires Cursorless(m.before) && HonestAnswer(log, m.before, next, m.answer)
    ensures var next' := NextPosition(log, m.before, next, m.answer);
            || (DeliveredBy(m.turned) == [] && Cursorless(m.turned.stream))
            || (&& next < |log| && DeliveredBy(m.turned) == [log[next]]
                && InStep(log, m.turned.stream, next', next + 1))
  {
  }

  /** Opened without a cursor, the stream still delivers one contiguous slice of the log. */
  lemma {:induction false} OpenedLiveIsContiguous(log: seq<Event>, start: Stream, next: nat, moves: seq<Move>)
    returns (b: nat, e: nat)
    requires StrictlyIncreasing(log) && Cursorless(start)
    requires IsRun(start, moves) && Honest(log, next, moves)
    ensures b <= e <= |log| && Deliveries(Trace(moves)) == log[b..e]
    decreases |moves|
  {
    if moves == [] {
      b, e := 0, 0;
    } else {
      var m, rest := moves[0], moves[1..];
      CursorlessTurn(log, m, next);
      FirstDeliveries(moves);
      var next' := NextPosition(log, m.before, next, m.answer);
      if DeliveredBy(m.turned) == [] {
        b, e := OpenedLiveIsContiguous(log, m.turned.stream, next', rest);
      } else {
        b := next;
        e := ResumesWithoutGap(log, m.turned.stream, next', b + 1, rest);
        SliceCons(log, b, e);
      }
    }
  }

  // ----- the stream object -----

  datatype Poll = Pending | Ready(item: Option<Result<Event, ClientError>>)

  /** The observation that handing `poll` to the caller makes. */
  ghost function Yielded(poll: Poll): seq<Observation> {
    match poll
    case Pending => []
    case Ready(None) => [Ended]
    case Ready(Some(Ok(event))) => [Delivered(event)]
    case Ready(Some(Err(error))) => [Failed(error)]
  }

  /** The answers of a run that the transport actually gave; the other turns are the client's own. */
  ghost function Polled(moves: seq<Move>): seq<Answer> {
    if moves == [] then []
    else (if AsksTransport(moves[0].before) then [moves[0].answer] else []) + Polled(moves[1..])
  }

  /** What the caller is handed during a run, leaving out the attach requests. */
  ghost function Outputs(moves: seq<Move>): seq<Observation> {
    if moves == [] then [] else OutputOf(moves[0].turned) + Outputs(moves[1..])
  }

  ghost function OutputOf(t: Turned): seq<Observation> {
    if t.seen.Some? && !t.seen.value.Sent? then [t.seen.value] else []
  }

  // ----- the runs of successive calls -----

  lemma {:induction false} LinksJoin(start: Stream, a: seq<Move>, b: seq<Move>)
    requires Linked(start, a) && Linked(EndOf(start, a), b)
    ensures Linked(start, a + b) && EndOf(start, a + b) == EndOf(EndOf(start, a), b)
    ensures Outputs(a + b) == Outputs(a) + Outputs(b) && Polled(a + b) == Polled(a) + Polled(b)
    decreases |a|
  {
    if a == [] {
      assert a + b == b;
      assert Outputs(a) + Outputs(b) == Outputs(b) && Polled(a) + Polled(b) == Polled(b);
    } else {
      SplitFirst(a, b);
      EndOfRest(start, a);
      LinksJoin(a[0].turned.stream, a[1..], b);
      EndOfRest(start, a + b);
      Assoc(OutputOf(a[0].turned), Outputs(a[1..]), Outputs(b));
      Assoc(if AsksTransport(a[0].before) then [a[0].answer] else [], Polled(a[1..]), Polled(b));
    }
  }

  lemma AppendMove(start: Stream, moves: seq<Move>, m: Move)
    requires Linked(start, moves) && m.before == EndOf(start, moves)
    ensures Linked(start, moves + [m])
    ensures Outputs(moves + [m]) == Outputs(moves) + OutputOf(m.turned)
    ensures Polled(moves + [m]) == Polled(moves) + (if AsksTransport(m.before) then [m.answer] else [])
  {
    var one := [m];
    assert one[1..] == [];
    LinksJoin(start, moves, one);
    assert Outputs(one) == OutputOf(m.turned);
    assert Polled(one) == if AsksTransport(m.before) then [m.answer] else [];
  }

  /** One run after another is a run, and everything seen of it is seen in that order. */
  lemma {:induction false} RunsJoin(start: Stream, a: seq<Move>, b: seq<Move>)
    requires IsRun(start, a) && IsRun(EndOf(start, a), b)
    ensures IsRun(start, a + b) && EndOf(start, a + b) == EndOf(EndOf(start, a), b)
    ensures Outputs(a + b) == Outputs(a) + Outputs(b) && Polled(a + b) == Polled(a) + Polled(b)
  {
    LinksJoin(start, a, b);
  }

  /** One call of `poll_next`: what the caller got, and the run of turns it took. */
  datatype Call = Call(poll: Poll, moves: seq<Move>)

  /** A caller's calls from `start` on, each made where the one before left the stream. */
  ghost predicate AreCalls(start: Stream, calls: seq<Call>)
    decreases |calls|
  {
    calls != [] ==>
      && IsRun(start, calls[0].moves) && Outputs(calls[0].moves) == Yielded(calls[0].poll)
      && EndOf(start, calls[0].moves).terminalError.None?
      && AreCalls(EndOf(start, calls[0].moves), calls[1..])
  }

  ghost function Joined(calls: seq<Call>): seq<Move> {
    if calls == [] then [] else calls[0].moves + Joined(calls[1..])
  }

  /** What the caller got, call by call; pending calls yield nothing. */
  ghost function Got(calls: seq<Call>): seq<Observation> {
    if calls == [] then [] else Yielded(calls[0].poll) + Got(calls[1..])
  }

  /** A caller's calls are together one run, of which the caller got exactly the outputs. */
  lemma {:induction false} CallsJoin(start: Stream, calls: seq<Call>)
    requires AreCalls(start, calls)
    ensures IsRun(start, Joined(calls)) && Outputs(Joined(calls)) == Got(calls)
    decreases |calls|
  {
    if calls != [] {
      CallsJoin(EndOf(start, calls[0].moves), calls[1..]);
      RunsJoin(start, calls[0].moves, Joined(calls[1..]));
    }
  }

  lemma FirstOutput(moves: seq<Move>)
    requires moves != []
    ensures Deliveries(Outputs(moves)) == DeliveredBy(moves[0].turned) + Deliveries(Outputs(moves[1..]))
  {
    var out := OutputOf(moves[0].turned);
    DeliveriesConcat(out, Outputs(moves[1..]));
    if out != [] {
      assert out[1..] == [];
    }
  }

  /** Attach requests aside, the caller sees the deliveries of the run. */
  lemma {:induction false} OutputsDeliver(moves: seq<Move>)
    ensures Deliveries(Outputs(moves)) == Deliveries(Trace(moves))
  {
    if moves != [] {
      OutputsDeliver(moves[1..]);
      FirstDeliveries(moves);
      FirstOutput(moves);
    }
  }

  /** Over any number of calls, against any transport, the caller gets strictly increasing sequence numbers. */
  lemma {:induction false} CallerGetsIncreasing(start: Stream, calls: seq<Call>)
    requires start.perWorkflow && AreCalls(start, calls)
    ensures Above(start.lastSeq, Deliveries(Got(calls))) && StrictlyIncreasing(Deliveries(Got(calls)))
  {
    CallsJoin(start, calls);
    OutputsDeliver(Joined(calls));
    DeliveryIsStrictlyIncreasing(start, Joined(calls));
  }

  /**
   Over any number of calls from an honest server, the caller gets the log from the sequence the
   stream was opened at, each event once and in order, as far as the calls have come.
   */
  lemma {:induction false} CallerGetsExactlyOnce(log: seq<Event>, first: Seq, b: nat, calls: seq<Call>)
    returns (e: nat)
    requires StrictlyIncreasing(log) && first > 0 && SplitsAt(log, first - 1, b)
    requires AreCalls(OpenFrom(first), calls) && Honest(log, 0, Joined(calls))
    ensures b <= e <= |log| && Deliveries(Got(calls)) == log[b..e]
  {
    CallsJoin(OpenFrom(first), calls);
    OutputsDeliver(Joined(calls));
    e := OpenedFromIsExactlyOnce(log, first, b, Joined(calls));
  }

  /** Over any number of calls, the caller gets at most one error, and behind it or the end only the end. */
  lemma {:induction false} CallerGetsNothingAfterTheEnd(start: Stream, calls: seq<Call>)
    requires AreCalls(start, calls)
    ensures var got := Got(calls);
            forall i, j :: 0 <= i < j < |got| && (got[i].Failed? || got[i].Ended?) ==> got[j] == Ended
  {
    var moves := Joined(calls);
    CallsJoin(start, calls);
    RunSettles(start, moves);
    SettledOutputs(start, moves);
  }

  lemma {:induction false} FinishedOutputsEnd(start: Stream, moves: seq<Move>)
    requires start.finished && Linked(start, moves) && forall m :: m in moves ==> Settles(m)
    ensures forall i :: 0 <= i < |Outputs(moves)| ==> Outputs(moves)[i] == Ended
    decreases |moves|
  {
    if moves != [] {
      assert Settles(moves[0]);
      FinishedOutputsEnd(moves[0].turned.stream, moves[1..]);
    }
  }

  lemma {:induction false} SettledOutputs(start: Stream, moves: seq<Move>)
    requires Linked(start, moves) && forall m :: m in moves ==> Settles(m)
    ensures var out := Outputs(moves);
            forall i, j :: 0 <= i < j < |out| && (out[i].Failed? || out[i].Ended?) ==> out[j] == Ended
    decreases |moves|
  {
    if moves != [] {
      var t := moves[0].turned;
      assert Settles(moves[0]);
      SettledOutputs(t.stream, moves[1..]);
      if t.stream.finished {
        FinishedOutputsEnd(t.stream, moves[1..]);
      }
      FirstOutputs(moves);
    }
  }

  lemma FirstOutputs(moves: seq<Move>)
    requires moves != []
    ensures var first, out, rest := OutputOf(moves[0].turned), Outputs(moves), Outputs(moves[1..]);
            if first == [] then out == rest
            else
              && |out| == |rest| + 1 && out[0] == first[0]
              && (forall i :: 0 < i < |out| ==> out[i] == rest[i - 1])
  {
    if OutputOf(moves[0].turned) == [] {
      assert [] + Outputs(moves[1..]) == Outputs(moves[1..]);
    }
  }

  /** The run so far has brought the object to `at`, yielding `out`, with `rest` of the script left. */
  ghost predicate RunSoFar(
    start: Stream, moves: seq<Move>, at: Stream, out: seq<Observation>, script: seq<Answer>, rest: seq<Answer>)
  {
    && IsRun(start, moves) && EndOf(start, moves) == at
    && Outputs(moves) == out && script == Polled(moves) + rest
  }

  /** The transport was asked and said that it has nothing yet. */
  ghost predicate AnswersPending(m: Move) {
    && AsksTransport(m.before)
    && if m.before.connection.Attaching? then m.answer.attach.AttachPending? else m.answer.item.ItemPending?
  }

  /** Why a call is pending: the stream is asking the transport, which has nothing yet, or nothing more, to say. */
  ghost predicate Waits(at: Stream, moves: seq<Move>, rest: seq<Answer>) {
    AsksTransport(at) && (rest == [] || (moves != [] && AnswersPending(moves[|moves| - 1])))
  }

  class ResumingEventStream {
    const perWorkflow: bool
    var lastSeq: Option<Seq>
    var deliveredAny: bool
    /** The cursor the attach in flight, or the open connection, was asked with. */
    var pendingSubscribe: Option<Option<Seq>>
    var current: Option<Option<Seq>>
    var terminalError: Option<ClientError>
    var finished: bool

    ghost predicate Valid()
      reads this
    {
      (pendingSubscribe.None? || current.None?) && (finished ==> terminalError.None?)
    }

    ghost function View(): Stream
      reads this
    {
      Stream(
        perWorkflow, lastSeq, deliveredAny,
        if pendingSubscribe.Some? then Attaching(pendingSubscribe.value)
        else if current.Some? then Attached(current.value) else Idle,
        terminalError, finished)
    }

    constructor (perWorkflow: bool)
      ensures Valid() && View() == Open(perWorkflow)
    {
      this.perWorkflow := perWorkflow;
      lastSeq, deliveredAny, finished := None, false, false;
      pendingSubscribe, current, terminalError := None, None, None;
    }

    constructor FromSequence(first: Seq)
      requires first > 0
      ensures Valid() && View() == OpenFrom(first)
    {
      perWorkflow := true;
      lastSeq, deliveredAny, finished := Some(first - 1), false, false;
      pendingSubscribe, current, terminalError := None, None, None;
    }

    method StartSubscribe(ghost a: Answer)
      requires Valid() && !finished && terminalError.None? && pendingSubscribe.None? && current.None?
      modifies this
      ensures Valid() && pendingSubscribe.Some? && View() == Turn(old(View()), a).stream
    {
      var cursor: Option<Seq> := None;
      if perWorkflow && lastSeq.Some? {
        cursor := Some(if lastSeq.value < MAX_SEQ then lastSeq.value + 1 else MAX_SEQ);
      }
      pendingSubscribe := Some(cursor);
    }

    /** The transport answers the attach in flight. `done` means the caller gets `r` now. */
    method PollPending(answer: Answer) returns (r: Poll, done: bool)
      requires Valid() && !finished && terminalError.None? && pendingSubscribe.Some?
      modifies this
      ensures Valid() && (!done ==> !finished && terminalError.None? && pendingSubscribe.None?)
      ensures View() == Turn(old(View()), answer).stream
      ensures OutputOf(Turn(old(View()), answer)) == if done then Yielded(r) else []
      ensures done && r.Pending? <==> answer.attach.AttachPending?
      ensures terminalError.None? && (r.Pending? && done ==> !finished)
    {
      r, done := Pending, false;
      match answer.attach
      case AttachPending =>
        done := true;
      case Accepted(_) =>
        current, pendingSubscribe := pendingSubscribe, None;
      case AttachFailed(error) =>
        pendingSubscribe := None;
        if !IsRetryable(error) || !(perWorkflow || !deliveredAny) {
          finished := true;
          r, done := Ready(Some(Err(error))), true;
        }
    }

    /** The open connection answers. `done` means the caller gets `r` now. */
    method PollCurrent(answer: Answer) returns (r: Poll, done: bool)
      requires Valid() && !finished && terminalError.None? && pendingSubscribe.None? && current.Some?
      modifies this
      ensures Valid()
      ensures View() == Turn(old(View()), answer).stream
      ensures OutputOf(Turn(old(View()), answer)) == if done then Yielded(r) else []
      ensures done && r.Pending? <==> answer.item.ItemPending?
      ensures done ==> terminalError.None?
    {
      r, done := Pending, false;
      match answer.item
      case ItemPending =>
        done := true;
      case Item(event) =>
        if perWorkflow {
          if lastSeq.Some? && event.sequence <= lastSeq.value {
            return;
          }
          lastSeq := Some(event.sequence);
        }
        deliveredAny := true;
        r, done := Ready(Some(Ok(event))), true;
      case ItemFailed(error) =>
        current := None;
        if IsRetryable(error) && (perWorkflow || !deliveredAny) {
          return;
        }
        terminalError := Some(error);
      case Closed =>
        current, finished := None, true;
        r, done := Ready(None), true;
    }

    /**
     Polls the attach in flight, if any, and then the open connection, if any. `done` means the
     caller gets `r` now; otherwise the loop goes round again.
     */
    method PollTransport(ghost start: Stream, ghost script: seq<Answer>, before: seq<Answer>, ghost moves0: seq<Move>)
      returns (r: Poll, done: bool, rest: seq<Answer>, ghost moves: seq<Move>)
      requires Valid() && AsksTransport(View())
      requires RunSoFar(start, moves0, View(), [], script, before)
      modifies this
      ensures Valid() && RunSoFar(start, moves, View(), if done then Yielded(r) else [], script, rest)
      ensures !done ==> |rest| < |before|
      ensures done ==> terminalError.None? && (r.Pending? ==> Waits(View(), moves, rest))
    {
      rest, moves := before, moves0;
      if pendingSubscribe.Some? {
        if rest == [] {
          return Pending, true, rest, moves;
        }
        TransportTurn(start, moves, View(), script, rest);
        moves := moves + [Move(View(), rest[0], Turn(View(), rest[0]))];
        r, done := PollPending(rest[0]);
        rest := rest[1..];
        if done || current.None? {
          return;
        }
      }
      if rest == [] {
        return Pending, true, rest, moves;
      }
      TransportTurn(start, moves, View(), script, rest);
      moves := moves + [Move(View(), rest[0], Turn(View(), rest[0]))];
      r, done := PollCurrent(rest[0]);
      rest := rest[1..];
    }

    /**
     One call of `poll_next`. The transport answers from `script`; when it has nothing more to
     say the call is pending. `moves` is the run of turns the call took.
     */
    method PollNext(script: seq<Answer>) returns (r: Poll, rest: seq<Answer>, ghost moves: seq<Move>)
      requires Valid()
      modifies this
      ensures Valid() && IsRun(old(View()), moves) && View() == EndOf(old(View()), moves)
      ensures Outputs(moves) == Yielded(r)
      ensures script == Polled(moves) + rest
      ensures terminalError.None? && (r.Pending? ==> Waits(View(), moves, rest))
    {
      ghost var start := View();
      ghost var own := Answer(AttachPending, ItemPending);
      rest, moves := script, [];
      while true
        invariant Valid() && RunSoFar(start, moves, View(), [], script, rest)
        decreases |rest|
      {
        if finished {
          OwnTurn(start, moves, View(), script, rest, own);
          moves := moves + [Move(View(), own, Turn(View(), own))];
          return Ready(None), rest, moves;
        }
        if terminalError.Some? {
          OwnTurn(start, moves, View(), script, rest, own);
          moves := moves + [Move(View(), own, Turn(View(), own))];
          var error := terminalError.value;
          terminalError, finished := None, true;
          return Ready(Some(Err(error))), rest, moves;
        }
        if current.None? && pendingSubscribe.None? {
          OwnTurn(start, moves, View(), script, rest, own);
          moves := moves + [Move(View(), own, Turn(View(), own))];
          StartSubscribe(own);
        }
        var done;
        r, done, rest, moves := PollTransport(start, script, rest, moves);
        if done {
          return;
        }
      }
    }
  }

  /** Taking a turn of the client's own. */
  lemma {:induction false} OwnTurn(
    start: Stream, moves: seq<Move>, at: Stream, script: seq<Answer>, rest: seq<Answer>, a: Answer)
    requires RunSoFar(start, moves, at, [], script, rest) && !AsksTransport(at)
    ensures RunSoFar(
              start, moves + [Move(at, a, Turn(at, a))], Turn(at, a).stream, OutputOf(Turn(at, a)), script, rest)
  {
    AppendMove(start, moves, Move(at, a, Turn(at, a)));
    assert Polled(moves) + [] == Polled(moves);
  }

  /** Taking a turn that asks the transport, which answers next from the script. */
  lemma {:induction false} TransportTurn(
    start: Stream, moves: seq<Move>, at: Stream, script: seq<Answer>, rest: seq<Answer>)
    requires RunSoFar(start, moves, at, [], script, rest) && AsksTransport(at) && rest != []
    ensures RunSoFar(
              start, moves + [Move(at, rest[0], Turn(at, rest[0]))], Turn(at, rest[0]).stream,
              OutputOf(Turn(at, rest[0])), script, rest[1..])
  {
    AppendMove(start, moves, Move(at, rest[0], Turn(at, rest[0])));
    assert Polled(moves) + [rest[0]] + rest[1..] == Polled(moves) + rest;
  }
}
