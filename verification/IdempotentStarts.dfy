/**
 Keyed workflow starts (crates/aion-client/src/client.rs and ops.rs). The table of keys is
 locked for a lookup and again for a record, but not across the remote call in between, so
 concurrent starts interleave at those three steps.
 */
module IdempotentStarts {
  import opened Wrappers
  import opened Seqs

  datatype Fingerprint = Fingerprint(
    namespace: string, workflowType: string, contentType: string, bytes: string, key: string)

  datatype Handle = Handle(workflowId: string, runId: string)

  datatype Entry = Entry(fingerprint: Fingerprint, handle: Handle)

  type Table = map<string, Entry>

  datatype StartError = EmptyKey | KeyConflict | RemoteFailure

  // ----- the two table operations -----

  /** A hit for the same request, a miss, or a conflict. */
  function Lookup(table: Table, fp: Fingerprint): Result<Option<Handle>, StartError> {
    if fp.key !in table then Ok(None)
    else if table[fp.key].fingerprint == fp then Ok(Some(table[fp.key].handle))
    else Err(KeyConflict)
  }

  predicate Accepts(table: Table, fp: Fingerprint) {
    fp.key in table ==> table[fp.key].fingerprint == fp
  }

  function RecordIn(table: Table, fp: Fingerprint, handle: Handle): Table {
    if fp.key in table then table else table[fp.key := Entry(fp, handle)]
  }

  // ----- concurrent starts -----

  datatype Call =
    | Waiting(fp: Fingerprint)
    | Calling(fp: Fingerprint)
    | Recording(fp: Fingerprint, handle: Handle)
    | Succeeded(fp: Fingerprint, handle: Handle)
    | Rejected(fp: Fingerprint, error: StartError)

  /** `remote` lists the successful remote starts in order, by the call that made them. */
  datatype State = State(table: Table, calls: map<nat, Call>, remote: seq<nat>)

  /** One step of one call. A step that does not fit the call's progress does nothing. */
  datatype Action =
    | Begin(id: nat, fp: Fingerprint)
    | DoLookup(id: nat)
    | RemoteAnswer(id: nat, answer: Option<Handle>)
    | DoRecord(id: nat)

  function Next(s: State, a: Action): State {
    if a.Begin? then
      if a.id in s.calls then s else s.(calls := s.calls[a.id := Waiting(a.fp)])
    else if a.id !in s.calls then s
    else
      var call := s.calls[a.id];
      if a.DoLookup? && call.Waiting? then s.(calls := s.calls[a.id := AfterLookup(s.table, call.fp)])
      else if a.RemoteAnswer? && call.Calling? then
        if a.answer.None? then s.(calls := s.calls[a.id := Rejected(call.fp, RemoteFailure)])
        else
          s.(calls := s.calls[a.id := Recording(call.fp, a.answer.value)], remote := s.remote + [a.id])
      else if a.DoRecord? && call.Recording? then
        if Accepts(s.table, call.fp) then
          s.(table := RecordIn(s.table, call.fp, call.handle),
             calls := s.calls[a.id := Succeeded(call.fp, call.handle)])
        else s.(calls := s.calls[a.id := Rejected(call.fp, KeyConflict)])
      else s
  }

  function AfterLookup(table: Table, fp: Fingerprint): Call {
    match Lookup(table, fp)
    case Ok(Some(handle)) => Succeeded(fp, handle)
    case Ok(None) => Calling(fp)
    case Err(error) => Rejected(fp, error)
  }

  function Run(s: State, actions: seq<Action>): State
    decreases |actions|
  {
    if actions == [] then s else Run(Next(s, actions[0]), actions[1..])
  }

  const INITIAL: State := State(map[], map[], [])

  // ----- what every interleaving keeps -----

  /** A key's entry never changes once written. */
  lemma {:induction false} EntriesArePermanent(s: State, actions: seq<Action>, key: string)
    requires key in s.table
    ensures key in Run(s, actions).table && Run(s, actions).table[key] == s.table[key]
    decreases |actions|
  {
    if actions != [] {
      EntriesArePermanent(Next(s, actions[0]), actions[1..], key);
    }
  }

  /** Entries sit under their own key, and a successful call's key is bound to its fingerprint. */
  ghost predicate Consistent(s: State) {
    && (forall k :: k in s.table ==> s.table[k].fingerprint.key == k)
    && (forall id :: id in s.calls && s.calls[id].Succeeded? ==>
          s.calls[id].fp.key in s.table && s.table[s.calls[id].fp.key].fingerprint == s.calls[id].fp)
  }

  lemma NextKeepsConsistent(s: State, a: Action)
    requires Consistent(s)
    ensures Consistent(Next(s, a))
  {
  }

  lemma {:induction false} RunKeepsConsistent(s: State, actions: seq<Action>)
    requires Consistent(s)
    ensures Consistent(Run(s, actions))
    decreases |actions|
  {
    if actions != [] {
      NextKeepsConsistent(s, actions[0]);
      RunKeepsConsistent(Next(s, actions[0]), actions[1..]);
    }
  }

  /** Over every interleaving, two successful starts with one key made the same request. */
  lemma {:induction false} OneRequestPerKey(actions: seq<Action>, i: nat, j: nat)
    requires var calls := Run(INITIAL, actions).calls;
             && i in calls && j in calls && calls[i].Succeeded? && calls[j].Succeeded?
             && calls[i].fp.key == calls[j].fp.key
    ensures Run(INITIAL, actions).calls[i].fp == Run(INITIAL, actions).calls[j].fp
  {
    RunKeepsConsistent(INITIAL, actions);
  }

  // ----- starts that begin after a key was recorded -----

  /** Call `id`, if it uses `key`, has done nothing but read the entry. */
  ghost predicate OnlyReads(s: State, id: nat, key: string, entry: Entry) {
    && key in s.table && s.table[key] == entry && id !in s.remote
    && (id in s.calls && s.calls[id].fp.key == key ==>
          match s.calls[id]
          case Waiting(_) => true
          case Succeeded(fp, handle) => fp == entry.fingerprint && handle == entry.handle
          case Rejected(fp, _) => fp != entry.fingerprint
          case _ => false)
  }

  lemma NextOnlyReads(s: State, a: Action, id: nat, key: string, entry: Entry)
    requires OnlyReads(s, id, key, entry) && (id in s.calls ==> s.calls[id].fp.key == key)
    requires a.Begin? && a.id == id ==> a.fp.key == key
    ensures OnlyReads(Next(s, a), id, key, entry)
    ensures id in Next(s, a).calls ==> Next(s, a).calls[id].fp.key == key
  {
  }

  /**
   A start that looks its key up after the key was recorded never starts anything remotely: it
   gets the recorded handle if it repeats the recorded request, and is refused otherwise.
   */
  lemma {:induction false} LateStartsOnlyRead(s: State, actions: seq<Action>, id: nat, key: string, entry: Entry)
    requires OnlyReads(s, id, key, entry) && (id in s.calls ==> s.calls[id].fp.key == key)
    requires forall i :: 0 <= i < |actions| && actions[i].Begin? && actions[i].id == id ==> actions[i].fp.key == key
    ensures OnlyReads(Run(s, actions), id, key, entry)
    ensures id in Run(s, actions).calls ==> Run(s, actions).calls[id].fp.key == key
    decreases |actions|
  {
    if actions != [] {
      NextOnlyReads(s, actions[0], id, key, entry);
      LateStartsOnlyRead(Next(s, actions[0]), actions[1..], id, key, entry);
    }
  }

  // ----- starts one after another -----

  datatype Started = Started(table: Table, result: Result<Handle, StartError>, startedRemotely: bool)

  /** A whole keyed start with nothing in between; `answer` is what the server would say. */
  function StartAlone(table: Table, fp: Fingerprint, answer: Option<Handle>): Started {
    match Lookup(table, fp)
    case Err(error) => Started(table, Err(error), false)
    case Ok(Some(handle)) => Started(table, Ok(handle), false)
    case Ok(None) =>
      if answer.None? then Started(table, Err(RemoteFailure), false)
      else Started(RecordIn(table, fp, answer.value), Ok(answer.value), true)
  }

  /** The steps of one call, back to back, are a start of its own. */
  lemma {:induction false} StepsAloneAreAStart(s: State, id: nat, fp: Fingerprint, answer: Option<Handle>)
    requires id !in s.calls
    ensures var alone := StartAlone(s.table, fp, answer);
            var s' := Run(s, [Begin(id, fp), DoLookup(id), RemoteAnswer(id, answer), DoRecord(id)]);
            && s'.table == alone.table
            && s'.remote == s.remote + (if alone.startedRemotely then [id] else [])
            && s'.calls == s.calls[id := if alone.result.Ok? then Succeeded(fp, alone.result.value)
                                         else Rejected(fp, alone.result.error)]
  {
    var s1 := Next(s, Begin(id, fp));
    var s2 := Next(s1, DoLookup(id));
    var s3 := Next(s2, RemoteAnswer(id, answer));
    var s4 := Next(s3, DoRecord(id));
    var actions := [Begin(id, fp), DoLookup(id), RemoteAnswer(id, answer), DoRecord(id)];
    assert Run(s, actions) == Run(s1, actions[1..]);
    assert Run(s1, actions[1..]) == Run(s2, actions[1..][1..]);
    assert Run(s2, actions[1..][1..]) == Run(s3, actions[1..][1..][1..]);
    assert Run(s3, actions[1..][1..][1..]) == Run(s4, actions[1..][1..][1..][1..]);
    assert actions[1..][1..][1..][1..] == [];
  }

  datatype Attempt = Attempt(fp: Fingerprint, answer: Option<Handle>)

  /** What each of a list of starts, made one after another, came to. */
  function Outcomes(table: Table, attempts: seq<Attempt>): (r: seq<Started>)
    ensures |r| == |attempts|
    decreases |attempts|
  {
    if attempts == [] then []
    else
      var first := StartAlone(table, attempts[0].fp, attempts[0].answer);
      [first] + Outcomes(first.table, attempts[1..])
  }

  /** Once a key is recorded, later starts with that key get its handle or are refused, remotely silent. */
  lemma {:induction false} RecordedKeyAnswers(table: Table, attempts: seq<Attempt>, key: string, j: nat)
    requires key in table && j < |attempts| && attempts[j].fp.key == key
    ensures var o := Outcomes(table, attempts)[j];
            && !o.startedRemotely
            && o.result == if attempts[j].fp == table[key].fingerprint then Ok(table[key].handle) else Err(KeyConflict)
    decreases |attempts|
  {
    if j > 0 {
      RecordedKeyAnswers(StartAlone(table, attempts[0].fp, attempts[0].answer).table, attempts[1..], key, j - 1);
    }
  }

  /** After a successful start its key is bound to it; a failed one binds nothing. */
  lemma SuccessBinds(table: Table, fp: Fingerprint, answer: Option<Handle>)
    ensures var o := StartAlone(table, fp, answer);
            && (o.result.Ok? ==> fp.key in o.table && o.table[fp.key] == Entry(fp, o.result.value))
            && (o.startedRemotely ==> o.result.Ok?)
  {
  }

  /**
   In starts that do not overlap, a success settles its key: every later start with that key
   makes no remote start, gets the same handle if the request is the same and is refused if not.
   */
  lemma {:induction false} NonOverlappingStartsAgree(table: Table, attempts: seq<Attempt>, i: nat, j: nat)
    requires i < j < |attempts| && attempts[i].fp.key == attempts[j].fp.key
    requires Outcomes(table, attempts)[i].result.Ok?
    ensures var o := Outcomes(table, attempts);
            && !o[j].startedRemotely
            && o[j].result == if attempts[i].fp == attempts[j].fp then Ok(o[i].result.value) else Err(KeyConflict)
    decreases |attempts|
  {
    var first := StartAlone(table, attempts[0].fp, attempts[0].answer);
    if i == 0 {
      SuccessBinds(table, attempts[0].fp, attempts[0].answer);
      RecordedKeyAnswers(first.table, attempts[1..], attempts[0].fp.key, j - 1);
    } else {
      NonOverlappingStartsAgree(first.table, attempts[1..], i - 1, j - 1);
    }
  }

  /** The steps of one call, with nothing in between. */
  function CallSteps(id: nat, attempt: Attempt): seq<Action> {
    [Begin(id, attempt.fp), DoLookup(id), RemoteAnswer(id, attempt.answer), DoRecord(id)]
  }

  /** The steps of calls made one after another, numbered from `id`. */
  function Steps(attempts: seq<Attempt>, id: nat): seq<Action>
    decreases |attempts|
  {
    if attempts == [] then [] else CallSteps(id, attempts[0]) + Steps(attempts[1..], id + 1)
  }

  function Concluded(fp: Fingerprint, o: Started): Call {
    if o.result.Ok? then Succeeded(fp, o.result.value) else Rejected(fp, o.result.error)
  }

  /** `s'` is `s` after the calls from `id` on came to `outcomes`. */
  ghost predicate Concludes(s: State, s': State, attempts: seq<Attempt>, id: nat, outcomes: seq<Started>)
    requires |outcomes| == |attempts|
  {
    && (forall n :: n in s.calls ==> n in s'.calls && s'.calls[n] == s.calls[n])
    && (forall n :: id <= n < id + |attempts| ==>
          n in s'.calls && s'.calls[n] == Concluded(attempts[n - id].fp, outcomes[n - id]))
    && (forall n :: n in s'.remote <==>
          n in s.remote || (id <= n < id + |attempts| && outcomes[n - id].startedRemotely))
  }

  /** Run back to back in the interleaved machine, calls come to what whole starts one after another do. */
  lemma {:induction false} StepsAreOutcomes(s: State, attempts: seq<Attempt>, id: nat)
    requires forall n :: id <= n < id + |attempts| ==> n !in s.calls
    ensures Concludes(s, Run(s, Steps(attempts, id)), attempts, id, Outcomes(s.table, attempts))
    decreases |attempts|
  {
    if attempts != [] {
      var first, rest := attempts[0], attempts[1..];
      var s1 := Run(s, CallSteps(id, first));
      StepsAloneAreAStart(s, id, first.fp, first.answer);
      RunConcat(s, CallSteps(id, first), Steps(rest, id + 1));
      StepsAreOutcomes(s1, rest, id + 1);
      var s', outcomes := Run(s1, Steps(rest, id + 1)), Outcomes(s.table, attempts);
      assert Outcomes(s1.table, rest) == outcomes[1..];
      ConcludesStep(s, s1, s', attempts, id, outcomes);
    }
  }

  lemma {:induction false} ConcludesStep(
    s: State, s1: State, s': State, attempts: seq<Attempt>, id: nat, outcomes: seq<Started>)
    requires attempts != [] && |outcomes| == |attempts| && id !in s.calls
    requires s1.calls == s.calls[id := Concluded(attempts[0].fp, outcomes[0])]
    requires s1.remote == s.remote + (if outcomes[0].startedRemotely then [id] else [])
    requires Concludes(s1, s', attempts[1..], id + 1, outcomes[1..])
    ensures Concludes(s, s', attempts, id, outcomes)
  {
    forall n | id <= n < id + |attempts|
      ensures n in s'.calls && s'.calls[n] == Concluded(attempts[n - id].fp, outcomes[n - id])
    {
      if n > id {
        assert attempts[1..][n - id - 1] == attempts[n - id] && outcomes[1..][n - id - 1] == outcomes[n - id];
      } else {
        assert id in s1.calls;
      }
    }
    forall n
      ensures n in s'.remote <==>
                n in s.remote || (id <= n < id + |attempts| && outcomes[n - id].startedRemotely)
    {
      if id < n < id + |attempts| {
        assert outcomes[1..][n - id - 1] == outcomes[n - id];
      }
    }
  }

  /**
   Calls that do not overlap in the machine: behind a success, every later call with its key makes
   no remote start, and gets the same handle for the same request and a refusal for another.
   */
  lemma {:induction false} NonOverlappingCallsAgree(attempts: seq<Attempt>, i: nat, j: nat)
    requires i < j < |attempts| && attempts[i].fp.key == attempts[j].fp.key
    requires var s := Run(INITIAL, Steps(attempts, 0));
             i in s.calls && s.calls[i].Succeeded?
    ensures var s := Run(INITIAL, Steps(attempts, 0));
            && j in s.calls && j !in s.remote
            && s.calls[j] == if attempts[i].fp == attempts[j].fp then Succeeded(attempts[j].fp, s.calls[i].handle)
                             else Rejected(attempts[j].fp, KeyConflict)
  {
    StepsAreOutcomes(INITIAL, attempts, 0);
    NonOverlappingStartsAgree(map[], attempts, i, j);
  }

  lemma {:induction false} RemoteCallsBegan(s: State, actions: seq<Action>)
    requires forall n :: n in s.remote ==> n in s.calls
    ensures forall n :: n in Run(s, actions).remote ==> n in Run(s, actions).calls
    decreases |actions|
  {
    if actions != [] {
      RemoteCallsBegan(Next(s, actions[0]), actions[1..]);
    }
  }

  /**
   In any run, whatever overlaps: a call that begins after a call with its key has succeeded makes
   no remote start, and if it succeeds it made the same request and got the recorded handle.
   */
  lemma {:induction false} LaterCallsOnlyRead(before: seq<Action>, behind: seq<Action>, i: nat, j: nat, key: string)
    requires var s := Run(INITIAL, before);
             && i in s.calls && s.calls[i].Succeeded? && s.calls[i].fp.key == key && j !in s.calls
    requires forall n :: 0 <= n < |behind| && behind[n].Begin? && behind[n].id == j ==> behind[n].fp.key == key
    ensures var s, s' := Run(INITIAL, before), Run(Run(INITIAL, before), behind);
            && j !in s'.remote && key in s.table
            && (j in s'.calls && s'.calls[j].Succeeded? ==>
                  s'.calls[j] == Succeeded(s.calls[i].fp, s.table[key].handle))
  {
    var s := Run(INITIAL, before);
    RunKeepsConsistent(INITIAL, before);
    RemoteCallsBegan(INITIAL, before);
    LateStartsOnlyRead(s, behind, j, key, s.table[key]);
  }

  /** Overlapping starts of one request may each succeed with a handle of their own. */
  lemma OverlappingStartsMayDiffer(fp: Fingerprint, a: Handle, b: Handle)
    requires a != b
    ensures exists actions ::
              var s := Run(INITIAL, actions);
              1 in s.calls && 2 in s.calls && s.calls[1] == Succeeded(fp, a) && s.calls[2] == Succeeded(fp, b)
  {
    var s2 := Next(Next(INITIAL, Begin(1, fp)), Begin(2, fp));
    var s4 := Next(Next(s2, DoLookup(1)), DoLookup(2));
    var s6 := Next(Next(s4, RemoteAnswer(1, Some(a))), RemoteAnswer(2, Some(b)));
    var s8 := Next(Next(s6, DoRecord(1)), DoRecord(2));
    var t2 := [Begin(1, fp), Begin(2, fp)];
    var t4 := [DoLookup(1), DoLookup(2)];
    var t6 := [RemoteAnswer(1, Some(a)), RemoteAnswer(2, Some(b))];
    var t8 := [DoRecord(1), DoRecord(2)];
    RunTwo(INITIAL, t2);
    RunTwo(s2, t4);
    RunTwo(s4, t6);
    RunTwo(s6, t8);
    RunFour(INITIAL, t2, t4, t6, t8);
    assert Run(INITIAL, t2 + t4 + t6 + t8) == s8;
  }

  lemma RunFour(s: State, a: seq<Action>, b: seq<Action>, c: seq<Action>, d: seq<Action>)
    ensures Run(s, a + b + c + d) == Run(Run(Run(Run(s, a), b), c), d)
  {
    RunConcat(s, a, b);
    RunConcat(s, a + b, c);
    RunConcat(s, a + b + c, d);
  }

  lemma RunTwo(s: State, actions: seq<Action>)
    requires |actions| == 2
    ensures Run(s, actions) == Next(Next(s, actions[0]), actions[1])
  {
    assert Run(s, actions) == Run(Next(s, actions[0]), actions[1..]);
    assert actions[1..][1..] == [];
    assert Run(Next(s, actions[0]), actions[1..]) == Run(Next(Next(s, actions[0]), actions[1]), []);
  }

  lemma {:induction false} RunConcat(s: State, a: seq<Action>, b: seq<Action>)
    ensures Run(s, a + b) == Run(Run(s, a), b)
    decreases |a|
  {
    if a == [] {
      assert a + b == b;
    } else {
      SplitFirst(a, b);
      RunConcat(Next(s, a[0]), a[1..], b);
    }
  }

  // ----- the client object -----

  /** A start as the caller asks for it. Without a namespace the client's own is meant. */
  datatype StartRequest = StartRequest(
    namespace: Option<string>, workflowType: string, contentType: string, bytes: string,
    idempotencyKey: Option<string>, routingKey: Option<string>, taskQueue: Option<string>)

  function FingerprintOf(ownNamespace: string, request: StartRequest, key: string): Fingerprint {
    Fingerprint(
      request.namespace.GetOr(ownNamespace), request.workflowType, request.contentType, request.bytes, key)
  }

  /**
   The two requests ask a client for the same start. Keys aside, only the namespace, the type and
   the input count: the routing key and the task queue do not.
   */
  ghost predicate SameStart(ownNamespace: string, a: StartRequest, b: StartRequest) {
    && (if a.namespace.Some? then a.namespace.value else ownNamespace)
       == (if b.namespace.Some? then b.namespace.value else ownNamespace)
    && a.workflowType == b.workflowType && a.contentType == b.contentType && a.bytes == b.bytes
  }

  /** A fingerprint stands for the whole request: two are equal exactly if the requests and the keys are. */
  lemma FingerprintIff(ownNamespace: string, a: StartRequest, b: StartRequest, keyA: string, keyB: string)
    ensures FingerprintOf(ownNamespace, a, keyA) == FingerprintOf(ownNamespace, b, keyB)
       <==> SameStart(ownNamespace, a, b) && keyA == keyB
  {
  }

  class Client {
    const namespace: string
    var idempotentStarts: Table

    constructor (namespace: string)
      ensures this.namespace == namespace && idempotentStarts == map[]
    {
      this.namespace := namespace;
      idempotentStarts := map[];
    }

    method CachedStart(fp: Fingerprint) returns (r: Result<Option<Handle>, StartError>)
      ensures r == Lookup(idempotentStarts, fp)
    {
      if fp.key !in idempotentStarts {
        return Ok(None);
      }
      var entry := idempotentStarts[fp.key];
      r := if entry.fingerprint == fp then Ok(Some(entry.handle)) else Err(KeyConflict);
    }

    method RecordStart(fp: Fingerprint, handle: Handle) returns (r: Result<(), StartError>)
      modifies this
      ensures r == if Accepts(old(idempotentStarts), fp) then Ok(()) else Err(KeyConflict)
      ensures idempotentStarts == RecordIn(old(idempotentStarts), fp, handle)
    {
      if fp.key in idempotentStarts {
        r := if idempotentStarts[fp.key].fingerprint == fp then Ok(()) else Err(KeyConflict);
      } else {
        idempotentStarts := idempotentStarts[fp.key := Entry(fp, handle)];
        r := Ok(());
      }
    }

    /** A whole start. Without a key the table is not touched; an empty key is refused outright. */
    method Start(request: StartRequest, answer: Option<Handle>) returns (r: Result<Handle, StartError>)
      modifies this
      ensures match request.idempotencyKey
              case None =>
                && idempotentStarts == old(idempotentStarts)
                && r == if answer.Some? then Ok(answer.value) else Err(RemoteFailure)
              case Some(key) =>
                if key == "" then idempotentStarts == old(idempotentStarts) && r == Err(EmptyKey)
                else
                  var alone := StartAlone(old(idempotentStarts), FingerprintOf(namespace, request, key), answer);
                  idempotentStarts == alone.table && r == alone.result
    {
      if request.idempotencyKey == Some("") {
        return Err(EmptyKey);
      }
      if request.idempotencyKey.Some? {
        var cached := CachedStart(FingerprintOf(namespace, request, request.idempotencyKey.value));
        if cached.Err? {
          return Err(cached.error);
        }
        if cached.value.Some? {
          return Ok(cached.value.value);
        }
      }
      if answer.None? {
        return Err(RemoteFailure);
      }
      if request.idempotencyKey.Some? {
        var recorded := RecordStart(FingerprintOf(namespace, request, request.idempotencyKey.value), answer.value);
        match recorded
        case Err(error) => return Err(error);
        case Ok(_) =>
      }
      r := Ok(answer.value);
    }
  }

  /**
   Two starts with one key on one client, the first of which succeeds: the second gets the first
   one's handle exactly if it asks for the same start, and a conflict otherwise, whatever the
   server would have answered it.
   */
  method StartTwice(
    client: Client, first: StartRequest, second: StartRequest, answer1: Option<Handle>, answer2: Option<Handle>)
    returns (r1: Result<Handle, StartError>, r2: Result<Handle, StartError>)
    requires first.idempotencyKey.Some? && first.idempotencyKey == second.idempotencyKey
    modifies client
    ensures r1.Ok? ==> r2 == if SameStart(client.namespace, first, second) then r1 else Err(KeyConflict)
    ensures r1.Ok? && first.idempotencyKey.value !in old(client.idempotentStarts) ==> answer1 == Some(r1.value)
    ensures first.idempotencyKey.value == "" ==> r1 == Err(EmptyKey) && r2 == Err(EmptyKey)
  {
    var key := first.idempotencyKey.value;
    FingerprintIff(client.namespace, first, second, key, key);
    SuccessBinds(client.idempotentStarts, FingerprintOf(client.namespace, first, key), answer1);
    r1 := client.Start(first, answer1);
    r2 := client.Start(second, answer2);
  }
}
