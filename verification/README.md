# Verified model of the Aion workflow engine's core logic

This project models six self-contained pieces of the Aion durable workflow engine in Dafny and
proves what they promise. `dafny verify dfyconfig.toml` checks all of it.

- **AWL constant folding** (`AwlAst`, `AwlConsts`, `AwlSemantics`, `AwlFoldExpr`, `AwlWalk`,
  `AwlFoldDocument`, `AwlFoldSucceeds`, `AwlFoldPlaces`, `AwlFolder`, `AwlRequirements`,
  `AwlTree`). The compiler pass that resolves `const` declarations on demand, with a memo table and a
  stack against cycles, and rewrites every expression of the step tree. `AwlFolder.Folder` is the
  pass as written, proved against a specification without table; the specification is proved to
  preserve meaning for every choice of the runtime's operators, to terminate, to succeed exactly on
  acyclic, well-typed consts with derivable schemas, to reach a normal form, to keep every place, to
  refuse only what is at fault, and to leave two other walks over the same tree unaffected.
- **The resuming event subscription** (`EventStream`, `StreamProgress`). The client as a machine of
  turns against an arbitrary transport, the `poll_next` loop as a refinement of it, safety over every
  run, what makes it retry, fail and end, and exactly-once delivery from a server that keeps the
  documented contract.
- **History projections** (`History`, `Projections`, `Guards`, `Answers`). Status, current-lease
  terminal, run segments, summaries and failure attribution, all computed by scanning an event list,
  against the guarded lifecycle machine whose histories they describe.
- **Toolchain passes** (`Imports`, `Scratch`, `ScratchPass`). The import search that decides which
  modules a pass must set aside, and the rename-aside, crash and recovery protocol over the source
  tree.
- **Idempotent starts** (`IdempotentStarts`). Keyed starts as three separately atomic steps, under
  every interleaving of any number of calls.
- **Text scanners** (`Positions`, `TextEncodings`, `Placeholders`). Byte offsets and UTF-16 positions,
  as the "Position" section of the Language Server Protocol 3.17 defines them with `\n` as the only line
  break, and the placeholder validator and expander of the shell worker.

Methods that update state are classes or loops as in the source; each is tied to a function, and
the lemmas speak about the function.

## Where the code differs from what it says

The model follows the code.

- Folding substitutes a const's name wherever it occurs, also under a runtime binding of the same
  name. `FoldingRespectsShadowingIff` gives the exact condition under which that is harmless.
- Failure attribution is documented to report the latest step that failed terminally with no later
  success. The loop looks only at the latest failure, whatever its classification; so a retryable
  failure is reported where nothing failed terminally, and hides or replaces an earlier terminal one.
  It also hides a step that completed or was cancelled before it failed, and one scheduled before the
  run was reopened. `ReportsAsDocumentedIff` gives the exact condition, and there is a lemma for each
  failing history.
- The validator's refusal of an unmatched `}` sees only the text behind the last placeholder
  (`StrayCloseIsMissed`, `StrayCloseIsSeen`). Expansion copies such a brace, so it is harmless.
- The probe's first line is there so that recovery spares an author's module of the same name. It
  spares one that is in place, but the pass writes the probe over that path: if the project has a
  module there, a pass killed while the probe is in place loses it in recovery, also when it had been
  set aside (`CrashThenRecover`, `ModuleAtProbePathIsLost`). A module there that is not set aside is
  lost by every pass that writes a probe (`PassRestoresIff`).
- The scratch changes are meant to be undone on every exit. A probe whose write fails half-way is not
  remembered, so the pass leaves it (`RunPass`); the next recovery removes it, or one torn by a crash,
  exactly when its first line is whole (`NextRecoveryRepairs`, `TornProbeIsRecoveredIff`).
- Recovery is called idempotent. It is if and only if no aside file is itself aside
  (`RecoveryIsIdempotentIff`); trees left by a pass over a tree without asides are of that kind.

## Model

| member | source | states |
|---|---|---|
| `AwlConsts.EvalGivesLiteral` | crates/aion-awl/src/fold.rs:90-147 | Whatever a const evaluates to is a tree of plain literals: no raw string, `json`, `schema of`, reference or operator survives. |
| `AwlConsts.EvalWithFewerActive` | crates/aion-awl/src/fold.rs:151-175 | A value computed deep inside a resolution chain is the value of the const on its own, so storing it is sound. |
| `AwlConsts.EvalIgnoresUnrelatedActive` | crates/aion-awl/src/fold.rs:75-87 | Inside a closed set of consts, only active names of that set can matter: a memo entry written under one visiting stack may be read under any other. |
| `AwlConsts.EvalVisitsRefs` | crates/aion-awl/src/fold.rs:151-175 | A successful evaluation has successfully evaluated every const it mentions, at any depth, none of them already on the stack. |
| `AwlConsts.ResolvedIsAcyclic` | crates/aion-awl/src/fold.rs:152-157 | If every first declaration resolves, no non-empty chain of references leads from a const back to itself. |
| `AwlConsts.SelfReferenceHasCycle` | crates/aion-awl/src/fold.rs:152-157 | Every "defined in terms of itself" refusal comes with an actual cycle of references through the visiting stack. |
| `AwlConsts.SelfReferenceIsCyclic` | crates/aion-awl/src/fold.rs:152-157 | The same for a declaration resolved on its own: such a refusal means that the reference graph is cyclic. |
| `AwlFoldExpr.EvalMeansSource` | crates/aion-awl/src/fold.rs:90-147 | A const's folded literal denotes the value its source expression has, for every choice of the runtime operators that joins strings with `+`. |
| `AwlFoldExpr.ConstEnvExists` | crates/aion-awl/src/fold.rs:75-87 | When all consts resolve, the declarations, read as equations, have exactly one solution, and it is what the const table denotes. |
| `AwlFoldExpr.FoldedMeansSource` | crates/aion-awl/src/fold.rs:278-340 | Meaning preservation for one expression: folded, under the runtime bindings alone, it has the value it had under the runtime bindings overridden by the consts, in every environment and inside every collection predicate. |
| `AwlFoldExpr.FoldingRespectsShadowingIff` | crates/aion-awl/src/fold.rs:300-303 | Consts are substituted whatever the scope. Read with runtime bindings hiding consts, folding keeps the meaning of every expression if and only if no binding gives a const's name another value. |
| `AwlFoldExpr.DisagreeingBindingChangesMeaning` | crates/aion-awl/src/fold.rs:300-303 | The failing input: a bare reference to a const that a disagreeing binding hides changes its value. |
| `AwlFoldExpr.FoldedIsNormal` | crates/aion-awl/src/fold.rs:278-340 | A folded expression holds no compile-time form and no reference to a declared const at any depth. |
| `AwlFoldExpr.FoldedFixesNormal` | crates/aion-awl/src/fold.rs:278-340 | An expression in that normal form folds to itself. |
| `AwlWalk.ExprsOfMappedDocument` | crates/aion-awl/src/fold.rs:193-272 | The expression positions of a rewritten step tree are the rewritten positions, in visiting order, for every nesting of forks, loops, sub-steps, failure blocks and outcomes. |
| `AwlWalk.MapDocumentFixed` | crates/aion-awl/src/fold.rs:193-272 | A rewriting that fixes every position leaves the whole document as it was. |
| `AwlFoldDocument.FoldedPositions` | crates/aion-awl/src/fold.rs:49-72 | The positions of the document before and after folding correspond one to one, and each is the folded form of its counterpart. |
| `AwlFoldDocument.FoldPreservesMeaning` | crates/aion-awl/src/fold.rs:49-72 | Every expression position of a folded document means, under runtime bindings alone, what the original position meant under runtime bindings and consts. |
| `AwlFoldDocument.FoldReachesNormalForm` | crates/aion-awl/src/fold.rs:193-340 | After a successful fold no position, at any depth, holds a compile-time form or a const reference. |
| `AwlFoldDocument.FoldsToItselfIff` | crates/aion-awl/src/fold.rs:49-72 | A document folds to itself if and only if its consts resolve and all its positions are already in normal form. |
| `AwlFoldDocument.FoldIsIdempotent` | crates/aion-awl/src/fold.rs:49-72 | Folding a folded document succeeds and changes nothing. |
| `AwlFoldDocument.FoldedFailsOnSchemasOnly` | crates/aion-awl/src/fold.rs:278-340 | Once the table is built, the only way a step expression fails to fold is a schema that cannot be derived. |
| `AwlFoldDocument.CyclesDecideSelfReference` | crates/aion-awl/src/fold.rs:49-87 | A fold that succeeds has an acyclic graph of first declarations, with duplicates shadowed; one refused for self reference has a cyclic one. |
| `AwlFoldSucceeds.AllResolveIff` | crates/aion-awl/src/fold.rs:75-175 | All consts resolve if and only if their references are acyclic and there is a typing of the string consts under which every first declaration is compile-time, with known names, derivable schemas and string operands of `+`. |
| `AwlFoldSucceeds.CompileTimeEvaluates` | crates/aion-awl/src/fold.rs:90-175 | Along any chain of references of an acyclic typed document, evaluation succeeds with the whole chain being visited, and yields a string exactly where the typing says so. |
| `AwlFoldSucceeds.FoldsIff` | crates/aion-awl/src/fold.rs:278-340 | A step expression folds if and only if every schema it asks for, at any depth, can be derived. |
| `AwlFoldSucceeds.FoldSucceedsIff` | crates/aion-awl/src/fold.rs:49-72 | A document folds if and only if its consts are acyclic and typable and every schema a step asks for can be derived. |
| `AwlFoldPlaces.EvalKeepsSpan` | crates/aion-awl/src/fold.rs:90-175 | Evaluation keeps the span of the expression, re-spanned references included, and inside a list the spans of the declaration's items. |
| `AwlFoldPlaces.ReferenceMovesValue` | crates/aion-awl/src/fold.rs:343-349 | A folded reference is its const's value moved to the reference: the outermost span is the use's, and everything inside keeps the declaration's. |
| `AwlFoldPlaces.FoldedStands` | crates/aion-awl/src/fold.rs:278-340 | A folded expression has the span of the original, and so has every operand that folding leaves an operand, down to any depth. |
| `AwlFoldPlaces.FoldKeepsPlaces` | crates/aion-awl/src/fold.rs:49-72 | In a folded document every expression stands where the original stood, so diagnostics point at the use. |
| `AwlFoldPlaces.RefusalIsReal` | crates/aion-awl/src/fold.rs:90-175 | Every refusal of a const points at an expression that occurs in it or in a declaration and is at fault as the refusal says: self reference, unknown const, not compile-time, a join of non-strings, or an underivable schema. |
| `AwlFoldPlaces.DocumentRefusalIsReal` | crates/aion-awl/src/fold.rs:49-72 | A refused document has a fault in a declaration, or asks in a step for a schema that cannot be derived, where the refusal points. |
| `AwlFoldPlaces.FirstItemIsRefused` | crates/aion-awl/src/fold.rs:112-117 | Of several faulty items the first is the one refused. |
| `AwlFoldPlaces.FirstDeclarationIsRefused` | crates/aion-awl/src/fold.rs:59-61 | A document is refused for its first faulty declaration in source order. |
| `AwlFoldPlaces.FirstPositionIsRefused` | crates/aion-awl/src/fold.rs:62-72 | If the consts resolve, it is refused for its first position that does not fold. |
| `AwlFoldPlaces.SelfReferenceIffCyclic` | crates/aion-awl/src/fold.rs:152-157 | A document with typable consts is refused for self reference if and only if their references are cyclic. |
| `AwlTree.PositionsAreOwned` | crates/aion-awl/src/fold.rs:193-272 | Folding visits exactly the expressions that some statement or step of the document owns, at any nesting depth. |
| `AwlTree.FoldedOwnsNormal` | crates/aion-awl/src/fold.rs:193-340 | Nothing that a folded document owns, at any nesting depth, is a compile-time form or names a const. |
| `AwlFolder.Folder.Resolve` | crates/aion-awl/src/fold.rs:77-87 | Resolving a const terminates on every declaration list, restores the visiting stack, changes no existing memo entry, answers an already stored name without work, and on success stores the table-free value. |
| `AwlFolder.Folder.Eval` | crates/aion-awl/src/fold.rs:90-147 | Evaluation with the memo table gives the same value or the same error as evaluation without any table, whatever was demanded before it. |
| `AwlFolder.Folder.ConstValueAt` | crates/aion-awl/src/fold.rs:151-175 | A reference is answered from the memo or by resolving its first declaration, with the same result as table-free evaluation under the current stack. |
| `AwlFolder.EntryIsTableFree` | crates/aion-awl/src/fold.rs:75-87 | The value of a const evaluated under a stack it does not close a cycle with is its value on its own: what may be put in the table. |
| `AwlFolder.MemoHitIsTableFree` | crates/aion-awl/src/fold.rs:158-174 | Reading a stored value agrees with evaluating the reference afresh under any stack the folder can be in. |
| `AwlFolder.Folder.ResolveAll` | crates/aion-awl/src/fold.rs:59-61 | Resolving all declarations in source order ends with the full table of table-free values, or with the error of the first declaration that has none. |
| `AwlFolder.Folder.FoldExpr` | crates/aion-awl/src/fold.rs:278-340 | Rewriting an expression uses the finished table, leaves it alone, and yields the expression whose meaning and normal form are proved above. |
| `AwlFolder.Folder.FoldRoute` | crates/aion-awl/src/fold.rs:261-272 | Every payload expression of a route is rewritten, or the error of the first one that does not fold is returned. |
| `AwlFolder.Folder.FoldStatements` | crates/aion-awl/src/fold.rs:210-259 | The mutually recursive statement walk rewrites exactly the expression positions, in order, or fails with the first position's error. |
| `AwlFolder.Folder.FoldStep` | crates/aion-awl/src/fold.rs:193-208 | The same for a step: body, failure block, outcome guards and routes, and the visit limit. |
| `AwlFolder.FoldDocument` | crates/aion-awl/src/fold.rs:49-72 | The whole pass refines the table-free specification about which meaning, normal form and idempotence are proved. |
| `AwlFolder.FirstOccurrence` | crates/aion-awl/src/fold.rs:159-166 | A declaration either repeats an earlier name, and is then skipped, or is the one that references resolve to. |
| `AwlRequirements.ActionRequirements` | crates/aion-awl/src/compile.rs:221-253 | The rows are, worker by worker and action by action in declaration order, the nodes required for each action. |
| `AwlRequirements.StepNodes` | crates/aion-awl/src/compile.rs:254-259 | Pushing a step's call sites, including those in its failure block, adds exactly its sites in source order. |
| `AwlRequirements.StatementNodes` | crates/aion-awl/src/compile.rs:261-304 | The same for nested statements: calls, pipe stages, forks, loops and sub-steps; a spawn adds nothing. |
| `AwlRequirements.RequiredNodesAreCallSites` | crates/aion-awl/src/compile.rs:229-245 | An action's nodes are the distinct effective nodes of its call sites in order of first occurrence, or the declared node alone if it is never called. |
| `AwlRequirements.PushAllIsFirstOccurrences` | crates/aion-awl/src/compile.rs:306-311 | Pushing without repetition keeps each value once, ordered by first occurrence. |
| `AwlRequirements.FirstUnloweredIsFirst` | crates/aion-awl/src/unlowered.rs:13-64 | The search reports the first nested step, in source order, that has an `after` dependency, and reports nothing only if there is none. |
| `AwlTree.SitesAreCalls` | crates/aion-awl/src/compile.rs:254-304 | The nodes collected for an action are exactly those of its calls and pipe stages anywhere in the document: a call's own node if its config line names one, and else the declared one. |
| `AwlTree.WorkerRowsAre` | crates/aion-awl/src/compile.rs:221-253 | A row is required exactly if some worker declares the action and the node is that of a call site, or the declared one where there is no call site. |
| `AwlTree.RowsInOrder` | crates/aion-awl/src/compile.rs:221-253 | Rows come worker by worker in declaration order. |
| `AwlTree.BlocksInOrder` | crates/aion-awl/src/compile.rs:261-304 | Call sites and expressions are taken front to back. |
| `AwlTree.GateIsExact` | crates/aion-awl/src/unlowered.rs:13-64 | The gate lets a document pass if and only if no nested step in it, anywhere, has a dependency; otherwise it points at the first dependency of such a step. |
| `AwlRequirements.FoldKeepsRequirementsAndRefusals` | crates/aion-awl/src/compile.rs:221-310 | Folding changes neither the requirement rows, in order, nor the first unlowered construct, so either may be taken from the unfolded document. |
| `EventStream.DeliveryIsStrictlyIncreasing` | crates/aion-client/src/stream.rs:175-256 | Against any transport, a per-workflow stream delivers strictly increasing sequence numbers, all past its opening cursor. |
| `EventStream.AttachAsksForTheNext` | crates/aion-client/src/stream.rs:156-169 | Every attach, after any number of failures and drops, asks for exactly one past the last delivery, or past the opening cursor. |
| `EventStream.NothingFollowsTheEnd` | crates/aion-client/src/stream.rs:175-256 | Against any transport, after an error or the end only the end is yielded; so at most one error is. |
| `EventStream.LiveOnlyNeverResumes` | crates/aion-client/src/stream.rs:200-215 | Live-only streams never send a cursor and never attach again after a delivery, so the prior-delivery guard on an attach failure can never fire. |
| `EventStream.TurnStaysInStep` | crates/aion-client/src/stream.rs:175-256 | One turn against an honest server delivers the next event of the log or nothing, and keeps cursor, connection and log in step. |
| `EventStream.ResumesWithoutGap` | crates/aion-client/src/stream.rs:175-256 | From any state in step with the log, over any number of drops, failed attaches and older duplicates, the deliveries are one contiguous slice of the log. |
| `EventStream.OpenedFromIsExactlyOnce` | crates/aion-client/src/ops.rs:497-515 | Opened at an explicit first sequence, the deliveries are the log from that sequence on, without gap or repeat, as far as the run got. |
| `EventStream.OpenedLiveIsContiguous` | crates/aion-client/src/stream.rs:108-124 | Opened without a cursor, a per-workflow stream still delivers one contiguous slice of the log. |
| `EventStream.ResumingEventStream.constructor` | crates/aion-client/src/stream.rs:108-124 | A new stream has no cursor, no connection and no pending attach. |
| `EventStream.ResumingEventStream.FromSequence` | crates/aion-client/src/stream.rs:134-150 | Opening at k seeds the cursor so that the first attach asks for k. |
| `EventStream.ResumingEventStream.PollPending` | crates/aion-client/src/stream.rs:180-220 | A poll of the attach in flight is one turn of the machine, with the same effect on every field and the same output. |
| `EventStream.ResumingEventStream.PollCurrent` | crates/aion-client/src/stream.rs:221-252 | A poll of the open connection is one turn of the machine: duplicates dropped, cursor moved, errors retried or kept for later; it is pending exactly if the transport is. |
| `EventStream.ResumingEventStream.PollNext` | crates/aion-client/src/stream.rs:175-256 | One call performs a genuine run of turns, yields to the caller exactly the output of that run, consumes exactly the transport answers it polled, and is pending only if the transport, when asked, had nothing to say. |
| `EventStream.RunsJoin` | crates/aion-client/src/stream.rs:175-256 | The runs of successive calls are together one run, with outputs and polled answers in order. |
| `EventStream.CallsJoin` | crates/aion-client/src/stream.rs:175-256 | Any number of calls by a caller is one run of the machine, of which the caller got exactly the outputs. |
| `EventStream.CallerGetsIncreasing` | crates/aion-client/src/stream.rs:175-256 | Over any number of calls, against any transport, what the caller gets is strictly increasing in sequence. |
| `EventStream.CallerGetsExactlyOnce` | crates/aion-client/src/ops.rs:497-515 | Over any number of calls from a server that keeps the documented contract, the caller gets the log from the opened sequence on, each event once and in order. |
| `EventStream.CallerGetsNothingAfterTheEnd` | crates/aion-client/src/stream.rs:175-256 | Over any number of calls, the caller gets at most one error, and behind it or the end only the end. |
| `StreamProgress.DropIsResumed` | crates/aion-client/src/stream.rs:198-247 | An attach or a connection that fails with Unavailable, on a per-workflow stream or before anything was delivered, yields nothing and ends nothing: the next turn attaches one past the last sequence seen. |
| `StreamProgress.FatalIsYielded` | crates/aion-client/src/stream.rs:198-247 | Any other failure is yielded, at once or by the next turn, and finishes the stream. |
| `StreamProgress.FailsExactlyWhenGiven` | crates/aion-client/src/stream.rs:175-256 | Over any run a failure is yielded exactly when the transport gave it and it may not be retried, in that turn or the one behind it. |
| `StreamProgress.EndsExactlyWhenClosed` | crates/aion-client/src/stream.rs:175-256 | The end is yielded exactly when the transport closes the connection, and behind a failure or an end. |
| `StreamProgress.RetryDependsOnTrace` | crates/aion-client/src/stream.rs:198-247 | On a live-only stream a failure may be retried exactly as long as nothing has been delivered. |
| `StreamProgress.DeliversWhatIsNewer` | crates/aion-client/src/stream.rs:221-231 | Of all it is offered, over any number of connections, a per-workflow stream delivers exactly the events newer than everything before them. |
| `StreamProgress.LiveOnlyDeliversAll` | crates/aion-client/src/stream.rs:221-231 | A live-only stream delivers everything it is offered. |
| `StreamProgress.CallerGetsAllOffered` | crates/aion-client/src/ops.rs:497-515 | From a server that keeps the documented contract the caller gets the log from the opened sequence on, each event once, and as far as any connection handed it over. |
| `StreamProgress.CallerFailsExactlyWhenGiven` | crates/aion-client/src/stream.rs:175-256 | Over any number of calls, the caller gets a failure if and only if the transport gave it and it is not Unavailable, or the stream is live-only and had delivered. |
| `StreamProgress.CallerEndsOnlyWhenClosed` | crates/aion-client/src/stream.rs:249-253 | Unless it got a failure, the caller gets the end only if the transport closed a connection. |
| `History.ScansRecoverTheMachine` | crates/aion-core/src/status.rs:35-158 | In every history the lifecycle guards allow, with any other events interleaved, the projected status is the machine's state, it is terminal exactly when a current-lease terminal exists, that event is the one that ends a run in this status, and no lease holds two terminal events. |
| `Answers.StatusIff` | crates/aion-core/src/status.rs:57-103 | Each of the seven statuses is projected if and only if the last lifecycle event is the one for it; without any the run is running. |
| `Answers.TerminalIff` | crates/aion-core/src/status.rs:116-158 | The current-lease terminal is the event that ended a run with no such event, start or reopen behind it, and there is none without one. |
| `Answers.AllowedIff` | crates/aion/src/lifecycle/reopen.rs:300-329 | The lifecycle allows a history if and only if every lifecycle event fits behind the one before it. |
| `Guards.GuardsOnSegmentsAreTheMachine` | crates/aion/src/lifecycle/pause.rs:165-245 | Guards that scan only the segment of the run they are asked about allow exactly the histories of the lifecycle machine in which run ids are fresh and everything is recorded for the latest run. |
| `Guards.GuardOnSegment` | crates/aion/src/lifecycle/reopen.rs:300-329 | At any point of an allowed history, the reopen, pause, resume, start and termination guards on run segments accept an event if and only if it is for the right run and the machine has the step. |
| `Guards.EarlierRunContinued` | crates/aion-core/src/status.rs:168-179 | In an allowed history the segment of every run but the latest has continued as new, so no guard accepts anything for it. |
| `History.ScansAgreeIff` | crates/aion-core/src/status.rs:57-158 | On arbitrary histories the two scans disagree about terminality exactly when a pause or resume marker follows the current lease's terminal event. |
| `History.LastTerminalIndex` | crates/aion-core/src/status.rs:116-158 | A current-lease terminal exists exactly when some terminal event has no terminal event or reset behind it. |
| `Projections.SegmentIsSlice` | crates/aion-core/src/status.rs:168-179 | A run's segment is the slice of the history from its first start up to the next start of any run. |
| `Projections.AbsentRunIsEmpty` | crates/aion-core/src/status.rs:168-179 | A run that never started has the empty segment. |
| `Projections.SegmentsRebuildHistory` | crates/aion-core/src/status.rs:168-179 | If a history begins with a start and its run ids are distinct, the segments in order concatenate to the whole history. |
| `Projections.LastRunDecides` | crates/aion-core/src/status.rs:168-179 | The last run's segment is not empty and has the status and the current-lease terminal of the whole history. |
| `Projections.SuffixDecides` | crates/aion-core/src/status.rs:57-158 | Status, current-lease terminal and lease of a history are those of any suffix that begins with a start or a reopen. |
| `Projections.FailedActivityStep` | crates/aion-core/src/filter.rs:163-215 | The method finds the current lease and attributes within it. |
| `Projections.AttributeWithin` | crates/aion-core/src/filter.rs:181-215 | The loop with its map, set and latest failure computes the step of the latest failure, unless its activity finished in the lease or was not scheduled in it. |
| `Projections.AttributionIsSound` | crates/aion-core/src/filter.rs:151-215 | A reported step names an activity scheduled under it and later failed in the current lease, that neither completed nor was cancelled in it. |
| `Projections.AttributionIsLocal` | crates/aion-core/src/filter.rs:169-181 | Nothing before the last start or reopen affects the reported step and reason. |
| `Projections.ReportsAsDocumentedIff` | crates/aion-core/src/filter.rs:158-215 | The documentation asks for the latest terminal failure with no later success, or nothing. For every lease the loop reports that failure if and only if: there is one, no activity failed after it, it was scheduled in the lease and had not finished before; or there is none, and the latest failure is not a retryable one of an activity scheduled and never finished in the lease. |
| `Projections.AnswersAsDocumentedIff` | crates/aion-core/src/filter.rs:151-215 | The same for the activity type handed out, where another activity of the same type may make up for it by coincidence. |
| `Answers.FailureIff` | crates/aion-core/src/filter.rs:143-157 | A reason is projected if and only if the current lease ended by a failure, and is that failure's message; the step is then the loop's answer. Otherwise neither is projected. |
| `Answers.ScheduledAsIff` | crates/aion-core/src/filter.rs:181-190 | The step of an activity is the type it was scheduled under last in the lease, if it was. |
| `Answers.SummaryIff` | crates/aion-core/src/filter.rs:108-141 | A summary exists if and only if some run was started; workflow, type and begin are those of the last start, and the end is when the current lease ended, if it did. |
| `Projections.FailingProjects` | crates/aion-core/src/filter.rs:151-157 | The projection of a run that failed is the loop's answer over the lease that the failure closes, with the failure's message. |
| `Projections.DocumentedExists` | crates/aion-core/src/filter.rs:158-162 | Every lease has exactly one documented answer. |
| `Projections.RetryableIsReported` | crates/aion-core/src/filter.rs:198-215 | A failing history: in a failed run, an interim failure that may be retried is projected although nothing failed terminally. |
| `Projections.RetryableHidesTerminal` | crates/aion-core/src/filter.rs:198-215 | A failing history: in a failed run, behind a terminal failure, an interim one of another activity is projected instead. |
| `Projections.RecoveredFailureHidesTerminal` | crates/aion-core/src/filter.rs:206-214 | A failing history: in a failed run, behind a terminal failure, the completion of another activity that had failed makes the projected step none. |
| `Projections.ScheduledBeforeReopenIsHidden` | crates/aion-core/src/filter.rs:169-205 | A failing history: in a reopened run that fails again, the terminal failure of an activity scheduled before the reopen is not projected. |
| `Projections.CompletedThenFailedIsHidden` | crates/aion-core/src/filter.rs:206-214 | A failing history: in a failed run, an activity that completed and then failed terminally is not projected although no success follows. |
| `Projections.LeaseIsSuffix` | crates/aion-core/src/filter.rs:169-179 | The lease is the suffix behind the last start or reopen. |
| `Projections.MarkersChangeOnlyTheStatus` | crates/aion-core/src/filter.rs:108-216 | Deleting all pause and resume markers from any history leaves the current-lease terminal and every summary field but the status unchanged. |
| `Projections.MarkersCommuteWithSegments` | crates/aion-core/src/status.rs:168-179 | Deleting markers commutes with taking a run's segment. |
| `Projections.UnmarkedStatus` | crates/aion-core/src/status.rs:57-103 | In an allowed history, deleting the markers turns a paused run into a running one and changes no other status. |
| `Imports.ImportSearch.Reaches` | crates/aion-cli/src/generate.rs:549-570 | The search terminates on every graph, cyclic or not, restores its path stack, and answers as the path-guarded search from the current stack. |
| `Imports.SearchIsReachability` | crates/aion-cli/src/generate.rs:549-570 | Begun with an empty stack, it answers true if and only if a non-empty import chain leads from the module to the target: refusing to re-enter the current path loses nothing. |
| `Imports.FoundHasChain` | crates/aion-cli/src/generate.rs:549-570 | Every positive answer, from any stack, comes with an actual import chain. |
| `Imports.ChainIsFound` | crates/aion-cli/src/generate.rs:549-570 | Every chain whose modules avoid the current path is found. |
| `Imports.ModulesReaching` | crates/aion-cli/src/generate.rs:453-475 | The files to set aside, sorted, are exactly those of the targets and of their direct and transitive importers, one for each module. |
| `Imports.SurvivorsImportSurvivors` | crates/aion-cli/src/generate.rs:446-475 | No module that stays imports a module that is set aside. |
| `Imports.BlockedIsLeast` | crates/aion-cli/src/generate.rs:446-475 | The modules set aside are the least set that holds the targets and, with a module, everything that imports it. |
| `Scratch.CrashThenRecover` | crates/aion-cli/src/generate.rs:408-442 | From any tree without asides, stopped after any operation of a pass, recovery in any walk order gives back the original tree if and only if no file of the project looks like a stale probe and the probe has not been written over a module at its path, or that module was set aside and the probe is gone again; otherwise exactly that module is lost. |
| `Scratch.ModuleAtProbePathIsLost` | crates/aion-cli/src/generate.rs:72-78 | The failing input: a project with a module of its own at the probe's path. An uninterrupted pass restores it; one stopped once the probe is written loses it in recovery. |
| `Scratch.InterruptedRecovery` | crates/aion-cli/src/generate.rs:605-641 | Recovery stopped after any part of its walk leaves a tree from which another recovery, in any order, ends where the first would have. |
| `Scratch.CrashDuringRecovery` | crates/aion-cli/src/generate.rs:408-442 | A killed pass whose recovery is killed too is recovered in the end under the same exact condition. |
| `Scratch.KillsThenRecover` | crates/aion-cli/src/generate.rs:408-442 | After any sequence of killed passes, each behind a recovery of what the one before left, a last recovery gives back the original tree if and only if it survives every single kill; otherwise exactly the file at the probe's path is lost. |
| `Scratch.KillsThenPass` | crates/aion-cli/src/generate.rs:408-442 | And a full pass behind that recovery gives the tree back exactly if it also spares the probe's path. |
| `Scratch.TornProbeIsRecoveredIff` | crates/aion-cli/src/generate.rs:605-614 | Stopped inside the probe write: if the part written holds the whole first line, the tree is recovered exactly when there was no file at the probe's path; if not, exactly when the file there held just that. |
| `Scratch.PassRestoresIff` | crates/aion-cli/src/generate.rs:738-761 | An uninterrupted pass restores the tree if and only if its probe does not land on a module that the pass left in place. |
| `ScratchPass.DropEndsAs` | crates/aion-cli/src/generate.rs:704-761 | Undoing a pass, with any renames and removals refused: exactly the modules refused stay aside, and the probe's path is as found, removed or left written as stated. |
| `Scratch.RecoverSetAside` | crates/aion-cli/src/generate.rs:619-641 | With any set of modules aside, recovery in any walk order gives the original tree. |
| `Scratch.RecoverSettles` | crates/aion-cli/src/generate.rs:605-641 | What recovery makes of any tree with modules aside and the probe's path as found, overwritten or removed: it always settles to one stated tree, whatever the walk order. |
| `Scratch.RecoveryIsCompleteIff` | crates/aion-cli/src/generate.rs:605-641 | Every walk order leaves a tree without aside files and without a stale probe if and only if no aside file is itself aside. |
| `Scratch.RecoveryIsIdempotentIff` | crates/aion-cli/src/generate.rs:605-614 | A second recovery, probe removal included, changes nothing, for all walk orders, if and only if no aside file is itself aside. |
| `Scratch.PassPrefix` | crates/aion-cli/src/generate.rs:704-761 | Every prefix of a pass leaves stated modules aside and the probe's path in a stated condition, also when the project has a module there. |
| `ScratchPass.SourceTree.RecoverAsides` | crates/aion-cli/src/generate.rs:619-641 | Recovery deals with every aside file once, restored if its original is missing and deleted otherwise, and stops only at one that the system refuses. |
| `ScratchPass.SourceTree.RecoverLeftoverScratch` | crates/aion-cli/src/generate.rs:605-614 | Recovery is the aside files first and then a stale probe; if the system refuses a file, it has done a prefix of its walk. |
| `ScratchPass.ExtractionScratch.RenameAside` | crates/aion-cli/src/generate.rs:714-726 | A rename fails if the file is missing or the system refuses; a module is remembered for restoring exactly when its rename took place. |
| `ScratchPass.ExtractionScratch.WriteProbe` | crates/aion-cli/src/generate.rs:729-735 | The probe is remembered only once its write has succeeded; a write that fails half-way leaves the part written, unremembered. |
| `ScratchPass.ExtractionScratch.Drop` | crates/aion-cli/src/generate.rs:738-761 | Dropping removes the probe and renames back every remembered module in order; what the system refuses is skipped and the rest is undone all the same. |
| `ScratchPass.RunPass` | crates/aion-cli/src/generate.rs:408-442 | Whatever the system refuses and however the probe write goes, a pass from a tree without asides ends with the refused modules aside, everything else as found, and the probe's path as stated; if it succeeds, the toolchain ran in the tree with exactly the modules aside and the probe in place; if nothing is refused, its operations are those whose prefixes the crash results speak of. |
| `ScratchPass.Begin` | crates/aion-cli/src/generate.rs:408-442 | The preparation of a pass: it succeeds exactly if every rename and the probe write do, and then exactly the modules are aside and the probe is there. |
| `ScratchPass.PassGivesBackIff` | crates/aion-cli/src/generate.rs:738-761 | Whatever is refused on drop: the tree is given back if and only if no restore was refused, and no probe was written, a restored module replaced it, it was removed from a free path, or it left what was there. |
| `ScratchPass.NextRecoveryRepairs` | crates/aion-cli/src/generate.rs:408-442 | Whatever was refused on drop, the next recovery restores every module; without a module at the probe's path the tree is the original one exactly unless a torn first line is left. |
| `ScratchPass.ToolchainPass` | crates/aion-cli/src/generate.rs:408-442 | One invocation, recovery first: on a tree that recovers to `u`, a refused recovery leaves one that still does, and otherwise the pass ends as stated for `u` itself. |
| `IdempotentStarts.EntriesArePermanent` | crates/aion-client/src/client.rs:96-113 | Over every interleaving of any number of calls, a key's entry never changes once written. |
| `IdempotentStarts.OneRequestPerKey` | crates/aion-client/src/client.rs:81-113 | Over every interleaving, two successful starts that share a key made the same request. |
| `IdempotentStarts.LateStartsOnlyRead` | crates/aion-client/src/ops.rs:106-148 | A start that begins after its key was recorded never starts anything remotely: it gets the recorded handle if it repeats the request and is refused if not, whatever runs beside it. |
| `IdempotentStarts.NonOverlappingStartsAgree` | crates/aion-client/src/ops.rs:106-148 | In starts that do not overlap, a success settles its key: same request, same handle; other request, refusal; no second remote start. |
| `IdempotentStarts.StepsAreOutcomes` | crates/aion-client/src/ops.rs:106-148 | Calls run back to back in the interleaved machine come to what whole starts one after another do: results, remote starts and all. |
| `IdempotentStarts.NonOverlappingCallsAgree` | crates/aion-client/src/ops.rs:106-148 | In the interleaved machine, calls that do not overlap settle their key: same request, same handle; other request, refusal; no second remote start. |
| `IdempotentStarts.LaterCallsOnlyRead` | crates/aion-client/src/ops.rs:106-148 | In any run, whatever overlaps, a call that begins after a success with its key makes no remote start, and succeeds only for the same request and with the recorded handle. |
| `IdempotentStarts.RecordedKeyAnswers` | crates/aion-client/src/client.rs:81-94 | A recorded key answers every later start in a sequence without a remote call. |
| `IdempotentStarts.StepsAloneAreAStart` | crates/aion-client/src/ops.rs:106-148 | The interleaved machine agrees with the whole-start specification when the steps of a call run back to back. |
| `IdempotentStarts.OverlappingStartsMayDiffer` | crates/aion-client/src/client.rs:96-113 | Two overlapping starts of one request may both reach the server and return different handles. |
| `IdempotentStarts.Client.CachedStart` | crates/aion-client/src/client.rs:81-94 | A lookup is a hit, a miss or a conflict, and changes nothing. |
| `IdempotentStarts.Client.RecordStart` | crates/aion-client/src/client.rs:96-113 | A record keeps an existing entry, refuses a different request, and otherwise binds the key. |
| `IdempotentStarts.Client.Start` | crates/aion-client/src/ops.rs:106-148 | A start by itself is the whole-start specification; without a key, or with an empty one, the table is untouched. |
| `IdempotentStarts.FingerprintIff` | crates/aion-client/src/ops.rs:538-566 | Two keyed requests have one fingerprint if and only if their effective namespace, workflow type, content type, bytes and key agree; the routing key and the task queue do not count. |
| `IdempotentStarts.StartTwice` | crates/aion-client/src/ops.rs:106-148 | Of two starts with one key, the first of which succeeds, the second gets the same handle if and only if it asks for the same namespace, type and input, and a conflict otherwise. |
| `Positions.PositionAt` | crates/aion-awl-lsp/src/analysis.rs:16-36 | An offset maps to the line and UTF-16 column of the last character boundary at or before it; offsets past the end map to the end. |
| `Positions.ByteOffsetAt` | crates/aion-awl-lsp/src/analysis.rs:41-67 | Every position maps to a character boundary of the text, the one as far along its line as its column allows, or the end of the text, also where the column counter saturates. |
| `TextEncodings.BytesAreUtf8` | crates/aion-awl-lsp/src/analysis.rs:16-36 | A boundary's offset is the length of the UTF-8 form of what precedes it. |
| `TextEncodings.ColumnIsUtf16` | crates/aion-awl-lsp/src/analysis.rs:8-36 | A boundary's column is the length of the UTF-16 form of what lies between the last `\n` and it. |
| `TextEncodings.LinesAreBreaks` | crates/aion-awl-lsp/src/analysis.rs:16-36 | A boundary's line is the number of `\n` before it. |
| `TextEncodings.Utf8IsWellFormed` | crates/aion-awl-lsp/src/analysis.rs:24-33 | The step by which offsets advance over a character is the length of its UTF-8 form, which is well-formed and stands for it. |
| `TextEncodings.Utf16IsWellFormed` | crates/aion-awl-lsp/src/analysis.rs:6-8 | The step by which columns advance is the length of its UTF-16 form, a surrogate pair beyond the basic plane. |
| `Positions.OffsetRoundTrip` | crates/aion-awl-lsp/src/analysis.rs:16-67 | Mapping the byte offset of a character boundary to a position and back is the identity. |
| `Positions.BoundaryRoundTrip` | crates/aion-awl-lsp/src/analysis.rs:16-67 | The position of a boundary is clamped back to that boundary. |
| `Positions.PositionsAreMonotone` | crates/aion-awl-lsp/src/analysis.rs:16-36 | Later boundaries have strictly later positions. |
| `Positions.ClampIsMonotone` | crates/aion-awl-lsp/src/analysis.rs:41-67 | A later position is never mapped to an earlier offset. |
| `Positions.ClampUnique` | crates/aion-awl-lsp/src/analysis.rs:41-67 | A position determines its boundary. |
| `Positions.RangeForSpan` | crates/aion-awl-lsp/src/analysis.rs:70-79 | The range of a span runs between the last boundaries at or before its ends, in order, and maps back to them; an empty or reversed span gives an empty range. |
| `Positions.FormattingEdits` | crates/aion-awl-lsp/src/server.rs:262-276 | No edit for unparsable or already canonical text; otherwise one edit whose application, as an editor reads positions, yields exactly the formatted text. |
| `Placeholders.ReadShows` | crates/aion-cli/src/worker_shell.rs:187-218 | Every text reads as a template of literals and placeholders that spells that text again. |
| `Placeholders.ShowReads` | crates/aion-cli/src/worker_shell.rs:187-218 | And as no other: spelling a template and reading it gives the template back. |
| `Placeholders.ValidatePlaceholders` | crates/aion-cli/src/worker_shell.rs:117-140 | The validator accepts exactly the texts that spell a template with plain field names and no `}` behind the last placeholder, and otherwise reports the first refusal from the left. |
| `Placeholders.NoVerdictIff` | crates/aion-cli/src/worker_shell.rs:117-140 | Nothing is refused exactly in those templates; an unmatched `}` is the refusal exactly if all names are plain and one stands behind the last placeholder. |
| `Placeholders.StrayCloseIsMissed` | crates/aion-cli/src/worker_shell.rs:117-140 | The text in front of a well-formed placeholder, whole or field, has no effect on the verdict, an unmatched `}` included. |
| `Placeholders.StrayCloseIsSeen` | crates/aion-cli/src/worker_shell.rs:136-138 | Behind the last placeholder, an unmatched `}` is refused. |
| `Placeholders.Expand` | crates/aion-cli/src/worker_shell.rs:187-218 | Expansion of any text, accepted or not, is the expansion of the template it spells, with the first problem from the left deciding. |
| `Placeholders.ExpansionInterleaves` | crates/aion-cli/src/worker_shell.rs:187-218 | If all named fields project, the result is the template's literals with one projected text between each two: substituted once, never scanned again. |
| `Placeholders.ShowInterleaves` | crates/aion-cli/src/worker_shell.rs:187-218 | The template's own text has the same literals, with the placeholders in those places. |
| `Placeholders.LeftmostFieldFails` | crates/aion-cli/src/worker_shell.rs:200-232 | If a field is missing or not scalar, the failure is that of the leftmost such field. |
| `Placeholders.FieldsProjectAs` | crates/aion-cli/src/worker_shell.rs:198-232 | What a field projects to, for every kind of value: a string itself, a number its text, a truth value `true` or `false`; null and composites fail, and so does a missing field. |
| `Placeholders.PlaceholdersAreSpelt` | crates/aion-cli/src/worker_shell.rs:117-132 | The placeholders are spelt `{input}` and `{input.` name `}`. |
| `Placeholders.NamesAreMadeOf` | crates/aion-cli/src/worker_shell.rs:128-131 | Names are made of `_`, digits and the letters of ASCII. |
| `Placeholders.StuckAt` | crates/aion-cli/src/worker_shell.rs:119-133 | The scan is stuck exactly at a `{` without a `}` behind it, or at the text from a `{` to the next `}` that is no placeholder. |
| `Placeholders.ExpandAccepted` | crates/aion-cli/src/worker_shell.rs:187-232 | For every accepted template and encodable input, expansion succeeds if and only if every named field is there and scalar, with the interleaved result, and otherwise fails for the leftmost field that is not. |

## Left out

- Imports.ModulesReaching: the order of paths is any total order; which one the operating system's paths have is not modelled.
- Guards.WouldRecord: the engine guards starts and terminations in several places, of which the model states the condition they share; the engine's registry and its expected-sequence check on append, which settle races between guards, are not modelled.
- In-place rewriting of the step tree: the folder returns the rewritten tree, so the half-rewritten tree behind an error, which the source drops with the document, is not visible.
- Comments, doc lines and spans that none of the modelled passes reads; schema derivation and JSON text, which are a finite map from type name to text; the runtime's operators, which are parameters.
- The AWL lexer, parser, printer, checker, emitter and bytecode backend; the engine and the store.
- Wakers, TLS, gRPC and WebSocket framing; a bound on the retry loop, which the source does not have either. Building the request of each `SubscribeTarget` beyond its cursor.
- The directory walk that collects modules, the parsing of import lines, and two modules of one name below `src/` and `test/`.
- Recovery of files below `test/`, which the source does not walk, and exclusion between processes: a single process and the `src` tree are modelled. Renames and removals are atomic, and a walk lists each aside file once, as it was when the walk began.
- Equal handles for overlapping starts: the code does not promise them, and `OverlappingStartsMayDiffer` gives the run. A server reply that cannot be decoded counts as a remote failure.
- Activity inputs, results, error messages, attempt numbers and timer, signal, child and schedule payloads: the projections do not read them.
- Processes, environment and output decoding of the shell worker; numbers are their rendered text, and an input either has a JSON text or fails to encode.
- The remaining LSP handlers and diagnostics, CLI parsing and rendering, package assembly, the session pump, and error-message texts: easy next to the above.
