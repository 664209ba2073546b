/**
 The expression positions of a document, in the order folding visits them, and the
 rewriting of every position by one function. Everything else in the tree is structure.
 */
module AwlWalk {
  import opened Wrappers
  import opened Seqs
  import opened AwlAst

  // ----- expression positions -----

  ghost function OptExprs(e: Option<Expr>): seq<Expr> {
    if e.Some? then [e.value] else []
  }

  ghost function ArgExprs(args: seq<Arg>): seq<Expr> {
    if args == [] then [] else [args[0].value] + ArgExprs(args[1..])
  }

  ghost function RouteExprs(target: RouteTarget): seq<Expr> {
    match target.payload
    case None => []
    case Some(Args(args)) => ArgExprs(args)
    case Some(Value(value)) => [value]
  }

  ghost function StageExprs(stages: seq<PipeStage>): seq<Expr> {
    if stages == [] then []
    else (if stages[0].Combinator? then OptExprs(stages[0].arg) else []) + StageExprs(stages[1..])
  }

  ghost function EndExprs(end: PipeEnd): seq<Expr> {
    if end.RouteEnd? then RouteExprs(end.target) else []
  }

  ghost function HeaderExprs(header: ForkHeader): seq<Expr> {
    if header.Collection? then [header.collection] else []
  }

  ghost function GuardExprs(guard: Guard): seq<Expr> {
    if guard.When? then [guard.condition] else []
  }

  ghost function OutcomeExprs(outcomes: seq<OutcomeClause>): seq<Expr> {
    if outcomes == [] then []
    else
      GuardExprs(outcomes[0].guard) + RouteExprs(outcomes[0].route) + OutcomeExprs(outcomes[1..])
  }

  ghost function StatementExprs(s: Statement): seq<Expr>
    decreases s
  {
    match s
    case Call(_, args, _, _) => ArgExprs(args)
    case Spawn(_, args) => ArgExprs(args)
    case Pipe(head, stages, end) => [head] + StageExprs(stages) + EndExprs(end)
    case Fork(header, body) => HeaderExprs(header) + StatementsExprs(body)
    case Loop(_, seed, body, until, max) => [seed] + StatementsExprs(body) + OptExprs(until) + OptExprs(max)
    case RouteTo(target) => RouteExprs(target)
    case SubStep(step) => StepExprs(step)
    case Distribute(_, collection) => [collection]
    case _ => []
  }

  ghost function StatementsExprs(ss: seq<Statement>): seq<Expr>
    decreases ss
  {
    if ss == [] then [] else StatementExprs(ss[0]) + StatementsExprs(ss[1..])
  }

  ghost function StepExprs(step: Step): seq<Expr>
    decreases step
  {
    StatementsExprs(step.body)
    + (if step.onFailure.OnFailure? then StatementsExprs(step.onFailure.body) else [])
    + OutcomeExprs(step.outcomes)
    + OptExprs(step.maxVisits)
  }

  ghost function StepsExprs(steps: seq<Step>): seq<Expr> {
    if steps == [] then [] else StepExprs(steps[0]) + StepsExprs(steps[1..])
  }

  ghost function SubflowsExprs(subflows: seq<Subflow>): seq<Expr> {
    if subflows == [] then [] else StepsExprs(subflows[0].steps) + SubflowsExprs(subflows[1..])
  }

  /** The positions folding rewrites. Const declarations are not among them. */
  ghost function DocumentExprs(d: Document): seq<Expr> {
    StepsExprs(d.steps) + SubflowsExprs(d.subflows)
  }

  // ----- rewriting every position -----

  ghost function MapExprs(f: Expr -> Expr, es: seq<Expr>): seq<Expr> {
    if es == [] then [] else [f(es[0])] + MapExprs(f, es[1..])
  }

  ghost function MapOpt(f: Expr -> Expr, e: Option<Expr>): Option<Expr> {
    if e.Some? then Some(f(e.value)) else None
  }

  ghost function MapArgs(f: Expr -> Expr, args: seq<Arg>): seq<Arg> {
    if args == [] then [] else [Arg(args[0].name, f(args[0].value))] + MapArgs(f, args[1..])
  }

  ghost function MapRoute(f: Expr -> Expr, target: RouteTarget): RouteTarget {
    match target.payload
    case None => target
    case Some(Args(args)) => RouteTarget(target.name, Some(Args(MapArgs(f, args))))
    case Some(Value(value)) => RouteTarget(target.name, Some(Value(f(value))))
  }

  ghost function MapStages(f: Expr -> Expr, stages: seq<PipeStage>): seq<PipeStage> {
    if stages == [] then []
    else
      [if stages[0].Combinator? then Combinator(stages[0].kind, MapOpt(f, stages[0].arg)) else stages[0]]
      + MapStages(f, stages[1..])
  }

  ghost function MapEnd(f: Expr -> Expr, end: PipeEnd): PipeEnd {
    if end.RouteEnd? then RouteEnd(MapRoute(f, end.target)) else end
  }

  ghost function MapHeader(f: Expr -> Expr, header: ForkHeader): ForkHeader {
    if header.Collection? then header.(collection := f(header.collection)) else header
  }

  ghost function MapGuard(f: Expr -> Expr, guard: Guard): Guard {
    if guard.When? then When(f(guard.condition)) else guard
  }

  ghost function MapOutcome(f: Expr -> Expr, outcome: OutcomeClause): OutcomeClause {
    OutcomeClause(outcome.name, MapGuard(f, outcome.guard), MapRoute(f, outcome.route))
  }

  ghost function MapOutcomes(f: Expr -> Expr, outcomes: seq<OutcomeClause>): seq<OutcomeClause> {
    if outcomes == [] then [] else [MapOutcome(f, outcomes[0])] + MapOutcomes(f, outcomes[1..])
  }

  ghost function MapStatement(f: Expr -> Expr, s: Statement): Statement
    decreases s
  {
    match s
    case Call(name, args, bind, config) => Call(name, MapArgs(f, args), bind, config)
    case Spawn(name, args) => Spawn(name, MapArgs(f, args))
    case Pipe(head, stages, end) => Pipe(f(head), MapStages(f, stages), MapEnd(f, end))
    case Fork(header, body) => Fork(MapHeader(f, header), MapStatements(f, body))
    case Loop(variable, seed, body, until, max) =>
      Loop(variable, f(seed), MapStatements(f, body), MapOpt(f, until), MapOpt(f, max))
    case RouteTo(target) => RouteTo(MapRoute(f, target))
    case SubStep(step) => SubStep(MapStep(f, step))
    case Distribute(variable, collection) => Distribute(variable, f(collection))
    case _ => s
  }

  ghost function MapStatements(f: Expr -> Expr, ss: seq<Statement>): seq<Statement>
    decreases ss
  {
    if ss == [] then [] else [MapStatement(f, ss[0])] + MapStatements(f, ss[1..])
  }

  ghost function MapStep(f: Expr -> Expr, step: Step): Step
    decreases step
  {
    Step(
      step.name,
      step.after,
      MapStatements(f, step.body),
      if step.onFailure.OnFailure? then OnFailure(MapStatements(f, step.onFailure.body)) else NoCompensation,
      MapOutcomes(f, step.outcomes),
      MapOpt(f, step.maxVisits))
  }

  ghost function MapSteps(f: Expr -> Expr, steps: seq<Step>): seq<Step> {
    if steps == [] then [] else [MapStep(f, steps[0])] + MapSteps(f, steps[1..])
  }

  ghost function MapSubflows(f: Expr -> Expr, subflows: seq<Subflow>): seq<Subflow> {
    if subflows == [] then []
    else [Subflow(subflows[0].name, MapSteps(f, subflows[0].steps))] + MapSubflows(f, subflows[1..])
  }

  ghost function MapDocument(f: Expr -> Expr, d: Document): Document {
    d.(steps := MapSteps(f, d.steps), subflows := MapSubflows(f, d.subflows))
  }

  // ----- the positions of a rewritten tree are the rewritten positions -----

  lemma {:induction false} MapExprsConcat(f: Expr -> Expr, a: seq<Expr>, b: seq<Expr>)
    ensures MapExprs(f, a + b) == MapExprs(f, a) + MapExprs(f, b)
  {
    if a == [] {
      assert a + b == b;
      assert MapExprs(f, a) + MapExprs(f, b) == MapExprs(f, b);
    } else {
      SplitFirst(a, b);
      MapExprsConcat(f, a[1..], b);
      MapExprsCons(f, a + b);
      Assoc([f(a[0])], MapExprs(f, a[1..]), MapExprs(f, b));
    }
  }

  lemma MapExprsCons(f: Expr -> Expr, es: seq<Expr>)
    requires es != []
    ensures MapExprs(f, es) == [f(es[0])] + MapExprs(f, es[1..])
  {
  }

  lemma MapExprsOne(f: Expr -> Expr, e: Expr)
    ensures MapExprs(f, [e]) == [f(e)]
  {
    assert MapExprs(f, [e][1..]) == [];
  }

  lemma MapExprsConcat3(f: Expr -> Expr, a: seq<Expr>, b: seq<Expr>, c: seq<Expr>)
    ensures MapExprs(f, a + b + c) == MapExprs(f, a) + MapExprs(f, b) + MapExprs(f, c)
  {
    MapExprsConcat(f, a, b);
    MapExprsConcat(f, a + b, c);
  }

  lemma MapExprsConcat4(f: Expr -> Expr, a: seq<Expr>, b: seq<Expr>, c: seq<Expr>, d: seq<Expr>)
    ensures MapExprs(f, a + b + c + d) == MapExprs(f, a) + MapExprs(f, b) + MapExprs(f, c) + MapExprs(f, d)
  {
    MapExprsConcat3(f, a, b, c);
    MapExprsConcat(f, a + b + c, d);
  }

  lemma {:induction false} ExprsOfMappedArgs(f: Expr -> Expr, args: seq<Arg>)
    ensures ArgExprs(MapArgs(f, args)) == MapExprs(f, ArgExprs(args))
  {
    if args != [] {
      ExprsOfMappedArgs(f, args[1..]);
      MapExprsConcat(f, [args[0].value], ArgExprs(args[1..]));
    }
  }

  lemma ExprsOfMappedRoute(f: Expr -> Expr, target: RouteTarget)
    ensures RouteExprs(MapRoute(f, target)) == MapExprs(f, RouteExprs(target))
  {
    match target.payload
    case Some(Args(args)) => ExprsOfMappedArgs(f, args);
    case _ =>
  }

  lemma {:induction false} ExprsOfMappedStages(f: Expr -> Expr, stages: seq<PipeStage>)
    ensures StageExprs(MapStages(f, stages)) == MapExprs(f, StageExprs(stages))
  {
    if stages != [] {
      ExprsOfMappedStages(f, stages[1..]);
      MapExprsConcat(
        f, if stages[0].Combinator? then OptExprs(stages[0].arg) else [], StageExprs(stages[1..]));
    }
  }

  lemma ExprsOfMappedGuard(f: Expr -> Expr, guard: Guard)
    ensures GuardExprs(MapGuard(f, guard)) == MapExprs(f, GuardExprs(guard))
  {
    if guard.When? {
      MapExprsOne(f, guard.condition);
    }
  }

  lemma {:induction false} ExprsOfMappedOutcomes(f: Expr -> Expr, outcomes: seq<OutcomeClause>)
    ensures OutcomeExprs(MapOutcomes(f, outcomes)) == MapExprs(f, OutcomeExprs(outcomes))
  {
    if outcomes != [] {
      var o, rest := outcomes[0], outcomes[1..];
      ExprsOfMappedGuard(f, o.guard);
      ExprsOfMappedRoute(f, o.route);
      ExprsOfMappedOutcomes(f, rest);
      MapExprsConcat3(f, GuardExprs(o.guard), RouteExprs(o.route), OutcomeExprs(rest));
      OutcomeExprsCons(MapOutcome(f, o), MapOutcomes(f, rest));
    }
  }

  lemma OutcomeExprsCons(o: OutcomeClause, rest: seq<OutcomeClause>)
    ensures OutcomeExprs([o] + rest) == GuardExprs(o.guard) + RouteExprs(o.route) + OutcomeExprs(rest)
  {
    assert ([o] + rest)[1..] == rest;
  }

  lemma ExprsOfMappedOpt(f: Expr -> Expr, e: Option<Expr>)
    ensures OptExprs(MapOpt(f, e)) == MapExprs(f, OptExprs(e))
  {
  }

  lemma ExprsOfMappedPipe(f: Expr -> Expr, head: Expr, stages: seq<PipeStage>, end: PipeEnd)
    ensures [f(head)] + StageExprs(MapStages(f, stages)) + EndExprs(MapEnd(f, end))
         == MapExprs(f, [head] + StageExprs(stages) + EndExprs(end))
  {
    ExprsOfMappedStages(f, stages);
    if end.RouteEnd? {
      ExprsOfMappedRoute(f, end.target);
    }
    MapExprsOne(f, head);
    MapExprsConcat3(f, [head], StageExprs(stages), EndExprs(end));
  }

  ghost predicate Nests(s: Statement) {
    s.Fork? || s.Loop? || s.SubStep?
  }

  lemma {:induction false} ExprsOfMappedFlatStatement(f: Expr -> Expr, s: Statement)
    requires !Nests(s)
    ensures StatementExprs(MapStatement(f, s)) == MapExprs(f, StatementExprs(s))
  {
    if s.Call? || s.Spawn? {
      ExprsOfMappedArgs(f, s.args);
    } else if s.Pipe? {
      ExprsOfMappedPipe(f, s.head, s.stages, s.end);
    } else if s.RouteTo? {
      ExprsOfMappedRoute(f, s.target);
    } else if s.Distribute? {
      MapExprsOne(f, s.collection);
    }
  }

  lemma {:induction false} ExprsOfMappedStatement(f: Expr -> Expr, s: Statement)
    ensures StatementExprs(MapStatement(f, s)) == MapExprs(f, StatementExprs(s))
    decreases s
  {
    if s.Fork? {
      ExprsOfMappedStatements(f, s.body);
      ExprsOfMappedFork(f, s.header, StatementsExprs(s.body));
    } else if s.Loop? {
      ExprsOfMappedStatements(f, s.body);
      ExprsOfMappedLoop(f, s.seed, StatementsExprs(s.body), s.until, s.max);
    } else if s.SubStep? {
      ExprsOfMappedStep(f, s.step);
    } else {
      ExprsOfMappedFlatStatement(f, s);
    }
  }

  lemma ExprsOfMappedFork(f: Expr -> Expr, header: ForkHeader, body: seq<Expr>)
    ensures HeaderExprs(MapHeader(f, header)) + MapExprs(f, body) == MapExprs(f, HeaderExprs(header) + body)
  {
    MapExprsConcat(f, HeaderExprs(header), body);
    if header.Collection? {
      MapExprsOne(f, header.collection);
    }
  }

  lemma ExprsOfMappedLoop(f: Expr -> Expr, seed: Expr, body: seq<Expr>, until: Option<Expr>, max: Option<Expr>)
    ensures [f(seed)] + MapExprs(f, body) + OptExprs(MapOpt(f, until)) + OptExprs(MapOpt(f, max))
         == MapExprs(f, [seed] + body + OptExprs(until) + OptExprs(max))
  {
    MapExprsOne(f, seed);
    ExprsOfMappedOpt(f, until);
    ExprsOfMappedOpt(f, max);
    MapExprsConcat4(f, [seed], body, OptExprs(until), OptExprs(max));
  }

  lemma {:induction false} ExprsOfMappedStatements(f: Expr -> Expr, ss: seq<Statement>)
    ensures StatementsExprs(MapStatements(f, ss)) == MapExprs(f, StatementsExprs(ss))
    decreases ss
  {
    if ss != [] {
      ExprsOfMappedStatement(f, ss[0]);
      ExprsOfMappedStatements(f, ss[1..]);
      MapExprsConcat(f, StatementExprs(ss[0]), StatementsExprs(ss[1..]));
    }
  }

  lemma {:induction false} ExprsOfMappedStep(f: Expr -> Expr, step: Step)
    ensures StepExprs(MapStep(f, step)) == MapExprs(f, StepExprs(step))
    decreases step
  {
    var body := StatementsExprs(step.body);
    var onFailure := if step.onFailure.OnFailure? then StatementsExprs(step.onFailure.body) else [];
    var outcomes := OutcomeExprs(step.outcomes);
    ExprsOfMappedStatements(f, step.body);
    if step.onFailure.OnFailure? {
      ExprsOfMappedStatements(f, step.onFailure.body);
    }
    ExprsOfMappedOutcomes(f, step.outcomes);
    ExprsOfMappedOpt(f, step.maxVisits);
    MapExprsConcat4(f, body, onFailure, outcomes, OptExprs(step.maxVisits));
  }

  lemma {:induction false} ExprsOfMappedSteps(f: Expr -> Expr, steps: seq<Step>)
    ensures StepsExprs(MapSteps(f, steps)) == MapExprs(f, StepsExprs(steps))
  {
    if steps != [] {
      ExprsOfMappedStep(f, steps[0]);
      ExprsOfMappedSteps(f, steps[1..]);
      MapExprsConcat(f, StepExprs(steps[0]), StepsExprs(steps[1..]));
    }
  }

  lemma {:induction false} ExprsOfMappedSubflows(f: Expr -> Expr, subflows: seq<Subflow>)
    ensures SubflowsExprs(MapSubflows(f, subflows)) == MapExprs(f, SubflowsExprs(subflows))
  {
    if subflows != [] {
      ExprsOfMappedSteps(f, subflows[0].steps);
      ExprsOfMappedSubflows(f, subflows[1..]);
      MapExprsConcat(f, StepsExprs(subflows[0].steps), SubflowsExprs(subflows[1..]));
    }
  }

  lemma ExprsOfMappedDocument(f: Expr -> Expr, d: Document)
    ensures DocumentExprs(MapDocument(f, d)) == MapExprs(f, DocumentExprs(d))
  {
    ExprsOfMappedSteps(f, d.steps);
    ExprsOfMappedSubflows(f, d.subflows);
    MapExprsConcat(f, StepsExprs(d.steps), SubflowsExprs(d.subflows));
  }

  // ----- a rewriting that fixes every position changes nothing -----

  ghost predicate Fixes(f: Expr -> Expr, es: seq<Expr>) {
    forall e :: e in es ==> f(e) == e
  }

  lemma FixesSplit(f: Expr -> Expr, a: seq<Expr>, b: seq<Expr>)
    requires Fixes(f, a + b)
    ensures Fixes(f, a) && Fixes(f, b)
  {
    assert forall e :: e in a ==> e in a + b;
    assert forall e :: e in b ==> e in a + b;
  }

  lemma {:induction false} MapArgsFixed(f: Expr -> Expr, args: seq<Arg>)
    requires Fixes(f, ArgExprs(args))
    ensures MapArgs(f, args) == args
  {
    if args != [] {
      assert args[0].value in ArgExprs(args);
      MapArgsFixed(f, args[1..]);
    }
  }

  lemma MapRouteFixed(f: Expr -> Expr, target: RouteTarget)
    requires Fixes(f, RouteExprs(target))
    ensures MapRoute(f, target) == target
  {
    match target.payload
    case Some(Args(args)) => MapArgsFixed(f, args);
    case _ =>
  }

  lemma {:induction false} MapStagesFixed(f: Expr -> Expr, stages: seq<PipeStage>)
    requires Fixes(f, StageExprs(stages))
    ensures MapStages(f, stages) == stages
  {
    if stages != [] {
      MapStagesFixed(f, stages[1..]);
    }
  }

  lemma {:induction false} MapOutcomesFixed(f: Expr -> Expr, outcomes: seq<OutcomeClause>)
    requires Fixes(f, OutcomeExprs(outcomes))
    ensures MapOutcomes(f, outcomes) == outcomes
  {
    if outcomes != [] {
      MapRouteFixed(f, outcomes[0].route);
      MapOutcomesFixed(f, outcomes[1..]);
    }
  }

  lemma {:induction false} MapStatementFixed(f: Expr -> Expr, s: Statement)
    requires Fixes(f, StatementExprs(s))
    ensures MapStatement(f, s) == s
    decreases s
  {
    match s
    case Call(_, args, _, _) => MapArgsFixed(f, args);
    case Spawn(_, args) => MapArgsFixed(f, args);
    case Pipe(head, stages, end) =>
      MapStagesFixed(f, stages);
      if end.RouteEnd? {
        MapRouteFixed(f, end.target);
      }
    case Fork(_, body) => MapStatementsFixed(f, body);
    case Loop(_, _, body, _, _) => MapStatementsFixed(f, body);
    case RouteTo(target) => MapRouteFixed(f, target);
    case SubStep(step) => MapStepFixed(f, step);
    case _ =>
  }

  lemma {:induction false} MapStatementsFixed(f: Expr -> Expr, ss: seq<Statement>)
    requires Fixes(f, StatementsExprs(ss))
    ensures MapStatements(f, ss) == ss
    decreases ss
  {
    if ss != [] {
      FixesSplit(f, StatementExprs(ss[0]), StatementsExprs(ss[1..]));
      MapStatementFixed(f, ss[0]);
      MapStatementsFixed(f, ss[1..]);
      Rejoin(ss);
    }
  }

  lemma {:induction false} MapStepFixed(f: Expr -> Expr, step: Step)
    requires Fixes(f, StepExprs(step))
    ensures MapStep(f, step) == step
    decreases step
  {
    MapStatementsFixed(f, step.body);
    if step.onFailure.OnFailure? {
      MapStatementsFixed(f, step.onFailure.body);
    }
    MapOutcomesFixed(f, step.outcomes);
  }

  lemma {:induction false} MapStepsFixed(f: Expr -> Expr, steps: seq<Step>)
    requires Fixes(f, StepsExprs(steps))
    ensures MapSteps(f, steps) == steps
  {
    if steps != [] {
      FixesSplit(f, StepExprs(steps[0]), StepsExprs(steps[1..]));
      MapStepFixed(f, steps[0]);
      MapStepsFixed(f, steps[1..]);
      Rejoin(steps);
    }
  }

  lemma {:induction false} MapSubflowsFixed(f: Expr -> Expr, subflows: seq<Subflow>)
    requires Fixes(f, SubflowsExprs(subflows))
    ensures MapSubflows(f, subflows) == subflows
  {
    if subflows != [] {
      FixesSplit(f, StepsExprs(subflows[0].steps), SubflowsExprs(subflows[1..]));
      MapStepsFixed(f, subflows[0].steps);
      MapSubflowsFixed(f, subflows[1..]);
      Rejoin(subflows);
    }
  }

  lemma MapDocumentFixed(f: Expr -> Expr, d: Document)
    requires Fixes(f, DocumentExprs(d))
    ensures MapDocument(f, d) == d
  {
    MapStepsFixed(f, d.steps);
    MapSubflowsFixed(f, d.subflows);
  }
}
