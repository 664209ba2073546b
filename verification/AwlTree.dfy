/**
 What occurs in a document, said without any order or walk: which statements lie in it, which
 expressions they own, which of them are call sites. The walks of folding, of the action
 requirements and of the lowering gate are proved to reach exactly what occurs.
 */
module AwlTree {
  import opened Wrappers
  import opened Seqs
  import opened AwlAst
  import opened AwlConsts
  import opened AwlFoldExpr
  import opened AwlWalk
  import opened AwlFoldDocument
  import opened AwlRequirements

  /** `x` is `s` or nested in it. */
  ghost predicate Under(x: Statement, s: Statement)
    decreases s
  {
    || x == s
    || ((s.Fork? || s.Loop?) && UnderAny(x, s.body))
    || (s.SubStep? && UnderStep(x, s.step))
  }

  ghost predicate UnderAny(x: Statement, ss: seq<Statement>)
    decreases ss
  {
    exists s | s in ss :: Under(x, s)
  }

  ghost predicate UnderStep(x: Statement, step: Step)
    decreases step
  {
    UnderAny(x, step.body) || (step.onFailure.OnFailure? && UnderAny(x, step.onFailure.body))
  }

  /** A step of the document or of one of its subflows. */
  ghost predicate TopStep(step: Step, d: Document) {
    step in d.steps || exists subflow :: subflow in d.subflows && step in subflow.steps
  }

  ghost predicate Occurs(x: Statement, d: Document) {
    exists step :: TopStep(step, d) && UnderStep(x, step)
  }

  // ----- the expressions a statement or a step owns -----

  ghost predicate InArgs(e: Expr, args: seq<Arg>) {
    exists a :: a in args && a.value == e
  }

  ghost predicate InRoute(e: Expr, target: RouteTarget) {
    match target.payload
    case None => false
    case Some(Args(args)) => InArgs(e, args)
    case Some(Value(value)) => value == e
  }

  ghost predicate InOutcome(e: Expr, outcome: OutcomeClause) {
    outcome.guard == When(e) || InRoute(e, outcome.route)
  }

  ghost predicate StepOwns(step: Step, e: Expr) {
    step.maxVisits == Some(e) || exists outcome :: outcome in step.outcomes && InOutcome(e, outcome)
  }

  ghost predicate InStage(e: Expr, stage: PipeStage) {
    stage.Combinator? && stage.arg == Some(e)
  }

  /** The expressions that stand in the statement itself, not in one nested in it. */
  ghost predicate Owns(s: Statement, e: Expr) {
    match s
    case Call(_, args, _, _) => InArgs(e, args)
    case Spawn(_, args) => InArgs(e, args)
    case Pipe(head, stages, end) =>
      || head == e
      || (exists stage :: stage in stages && InStage(e, stage))
      || (end.RouteEnd? && InRoute(e, end.target))
    case Wait(_, _) => false
    case Sleep(_, _) => false
    case Fork(header, _) => header.Collection? && header.collection == e
    case Loop(_, seed, _, until, max) => seed == e || until == Some(e) || max == Some(e)
    case RouteTo(target) => InRoute(e, target)
    case SubStep(step) => StepOwns(step, e)
    case Distribute(_, collection) => collection == e
    case Collect(_, _) => false
  }

  ghost predicate OwnedUnder(e: Expr, s: Statement) {
    exists x :: Under(x, s) && Owns(x, e)
  }

  ghost predicate OwnedUnderAny(e: Expr, ss: seq<Statement>) {
    exists x :: UnderAny(x, ss) && Owns(x, e)
  }

  ghost predicate OwnedUnderStep(e: Expr, step: Step) {
    StepOwns(step, e) || exists x :: UnderStep(x, step) && Owns(x, e)
  }

  ghost predicate OwnedInDocument(e: Expr, d: Document) {
    exists step :: TopStep(step, d) && OwnedUnderStep(e, step)
  }

  lemma {:induction false} ArgExprsAre(args: seq<Arg>, e: Expr)
    ensures e in ArgExprs(args) <==> InArgs(e, args)
  {
    if args != [] {
      ArgExprsAre(args[1..], e);
      assert forall a :: a in args <==> a == args[0] || a in args[1..];
    }
  }

  lemma RouteExprsAre(target: RouteTarget, e: Expr)
    ensures e in RouteExprs(target) <==> InRoute(e, target)
  {
    if target.payload.Some? && target.payload.value.Args? {
      ArgExprsAre(target.payload.value.args, e);
    }
  }

  lemma {:induction false} StageExprsAre(stages: seq<PipeStage>, e: Expr)
    ensures e in StageExprs(stages) <==> exists stage :: stage in stages && InStage(e, stage)
  {
    if stages != [] {
      StageExprsAre(stages[1..], e);
      assert forall x :: x in stages <==> x == stages[0] || x in stages[1..];
      assert e in (if stages[0].Combinator? then OptExprs(stages[0].arg) else []) <==> InStage(e, stages[0]);
    }
  }

  lemma {:induction false} OutcomeExprsAre(outcomes: seq<OutcomeClause>, e: Expr)
    ensures e in OutcomeExprs(outcomes) <==> exists o :: o in outcomes && InOutcome(e, o)
  {
    if outcomes != [] {
      var first, rest := outcomes[0], outcomes[1..];
      OutcomeExprsAre(rest, e);
      RouteExprsAre(first.route, e);
      assert forall x :: x in outcomes <==> x == first || x in rest;
      assert e in GuardExprs(first.guard) <==> first.guard == When(e);
      assert e in OutcomeExprs(outcomes) <==> InOutcome(e, first) || e in OutcomeExprs(rest);
    }
  }

  /** The expressions of a statement that are not those of statements nested in it. */
  lemma {:induction false} OwnExprsAre(s: Statement, e: Expr)
    requires !s.SubStep?
    ensures Owns(s, e) ==> e in StatementExprs(s)
    ensures e in StatementExprs(s) ==> Owns(s, e) || ((s.Fork? || s.Loop?) && e in StatementsExprs(s.body))
  {
    if s.Call? || s.Spawn? {
      ArgExprsAre(s.args, e);
    } else if s.Pipe? {
      StageExprsAre(s.stages, e);
      if s.end.RouteEnd? {
        RouteExprsAre(s.end.target, e);
      }
    } else if s.RouteTo? {
      RouteExprsAre(s.target, e);
    }
  }

  lemma OwnedUnderCases(e: Expr, s: Statement)
    ensures OwnedUnder(e, s)
       <==> || Owns(s, e)
            || ((s.Fork? || s.Loop?) && OwnedUnderAny(e, s.body))
            || (s.SubStep? && OwnedUnderStep(e, s.step))
  {
    if OwnedUnder(e, s) {
      var x :| Under(x, s) && Owns(x, e);
    }
    if Owns(s, e) {
      assert Under(s, s);
    }
    if (s.Fork? || s.Loop?) && OwnedUnderAny(e, s.body) {
      var x :| UnderAny(x, s.body) && Owns(x, e);
      assert Under(x, s);
    }
    if s.SubStep? && OwnedUnderStep(e, s.step) && !StepOwns(s.step, e) {
      var x :| UnderStep(x, s.step) && Owns(x, e);
      assert Under(x, s);
    }
  }

  lemma {:induction false} StatementExprsAre(s: Statement, e: Expr)
    ensures e in StatementExprs(s) <==> OwnedUnder(e, s)
    decreases s
  {
    OwnedUnderCases(e, s);
    if s.SubStep? {
      StepExprsAre(s.step, e);
    } else {
      OwnExprsAre(s, e);
      if s.Fork? || s.Loop? {
        StatementsExprsAre(s.body, e);
      }
    }
  }

  lemma {:induction false} StatementsExprsAre(ss: seq<Statement>, e: Expr)
    ensures e in StatementsExprs(ss) <==> OwnedUnderAny(e, ss)
    decreases ss
  {
    if ss != [] {
      StatementExprsAre(ss[0], e);
      StatementsExprsAre(ss[1..], e);
      OwnedUnderSplit(e, ss);
    }
  }

  lemma OwnedUnderSplit(e: Expr, ss: seq<Statement>)
    requires ss != []
    ensures OwnedUnderAny(e, ss) <==> OwnedUnder(e, ss[0]) || OwnedUnderAny(e, ss[1..])
  {
    forall x ensures UnderAny(x, ss) <==> Under(x, ss[0]) || UnderAny(x, ss[1..]) {
      UnderSplit(x, ss);
    }
  }

  lemma UnderSplit(x: Statement, ss: seq<Statement>)
    requires ss != []
    ensures UnderAny(x, ss) <==> Under(x, ss[0]) || UnderAny(x, ss[1..])
  {
    assert forall s :: s in ss <==> s == ss[0] || s in ss[1..];
  }

  lemma {:induction false} StepExprsAre(step: Step, e: Expr)
    ensures e in StepExprs(step) <==> OwnedUnderStep(e, step)
    decreases step
  {
    StatementsExprsAre(step.body, e);
    OutcomeExprsAre(step.outcomes, e);
    assert e in OptExprs(step.maxVisits) <==> step.maxVisits == Some(e);
    if step.onFailure.OnFailure? {
      StatementsExprsAre(step.onFailure.body, e);
    }
    OwnedUnderStepCases(e, step);
  }

  lemma OwnedUnderStepCases(e: Expr, step: Step)
    ensures OwnedUnderStep(e, step)
       <==> || StepOwns(step, e) || OwnedUnderAny(e, step.body)
            || (step.onFailure.OnFailure? && OwnedUnderAny(e, step.onFailure.body))
  {
    if OwnedUnderAny(e, step.body) {
      var x :| UnderAny(x, step.body) && Owns(x, e);
      assert UnderStep(x, step);
    }
    if step.onFailure.OnFailure? && OwnedUnderAny(e, step.onFailure.body) {
      var x :| UnderAny(x, step.onFailure.body) && Owns(x, e);
      assert UnderStep(x, step);
    }
  }

  lemma {:induction false} StepsExprsAre(steps: seq<Step>, e: Expr)
    ensures e in StepsExprs(steps) <==> exists step :: step in steps && OwnedUnderStep(e, step)
  {
    if steps != [] {
      StepExprsAre(steps[0], e);
      StepsExprsAre(steps[1..], e);
      assert forall x :: x in steps <==> x == steps[0] || x in steps[1..];
    }
  }

  lemma {:induction false} SubflowsExprsAre(subflows: seq<Subflow>, e: Expr)
    ensures e in SubflowsExprs(subflows)
       <==> exists subflow, step :: subflow in subflows && step in subflow.steps && OwnedUnderStep(e, step)
  {
    if subflows != [] {
      StepsExprsAre(subflows[0].steps, e);
      SubflowsExprsAre(subflows[1..], e);
      assert forall x :: x in subflows <==> x == subflows[0] || x in subflows[1..];
    }
  }

  /** Folding visits exactly the expressions that some step or statement of the document owns. */
  lemma {:induction false} PositionsAreOwned(d: Document, e: Expr)
    ensures e in DocumentExprs(d) <==> OwnedInDocument(e, d)
  {
    StepsExprsAre(d.steps, e);
    SubflowsExprsAre(d.subflows, e);
    if OwnedInDocument(e, d) {
      var step :| TopStep(step, d) && OwnedUnderStep(e, step);
      if step !in d.steps {
        var subflow :| subflow in d.subflows && step in subflow.steps;
      }
    }
    if e in StepsExprs(d.steps) {
      var step :| step in d.steps && OwnedUnderStep(e, step);
      assert TopStep(step, d);
    }
    if e in SubflowsExprs(d.subflows) {
      var subflow, step :| subflow in d.subflows && step in subflow.steps && OwnedUnderStep(e, step);
      assert TopStep(step, d);
    }
  }

  /** So nothing that a folded document owns, at any depth, is a compile-time form or names a const. */
  lemma {:induction false} FoldedOwnsNormal(schemas: Schemas, d: Document, d': Document, e: Expr)
    requires FoldedDocument(schemas, d) == Ok(d') && OwnedInDocument(e, d')
    ensures Normal(FirstDecls(d.consts).Keys, e)
  {
    PositionsAreOwned(d', e);
    FoldReachesNormalForm(schemas, d);
  }

  // ----- call sites -----

  /** The node that a config line asks for, if it asks for one, and else the action's own. */
  ghost predicate Effective(config: Option<ConfigLine>, declared: Node, node: Node) {
    if config.Some? && config.value.node.Some? then node == config.value.node else node == declared
  }

  ghost predicate IsSite(s: Statement, action: string, declared: Node, node: Node) {
    || (s.Call? && s.name == action && Effective(s.config, declared, node))
    || (s.Pipe? && ActionStage(action) in s.stages && node == declared)
  }

  ghost predicate SiteUnder(s: Statement, action: string, declared: Node, node: Node) {
    exists x :: Under(x, s) && IsSite(x, action, declared, node)
  }

  ghost predicate SiteUnderAny(ss: seq<Statement>, action: string, declared: Node, node: Node) {
    exists x :: UnderAny(x, ss) && IsSite(x, action, declared, node)
  }

  ghost predicate SiteUnderStep(step: Step, action: string, declared: Node, node: Node) {
    exists x :: UnderStep(x, step) && IsSite(x, action, declared, node)
  }

  ghost predicate SiteInDocument(d: Document, action: string, declared: Node, node: Node) {
    exists x :: Occurs(x, d) && IsSite(x, action, declared, node)
  }

  lemma {:induction false} StageSitesAre(stages: seq<PipeStage>, action: string, declared: Node, node: Node)
    ensures node in StageSites(stages, action, declared) <==> ActionStage(action) in stages && node == declared
  {
    if stages != [] {
      StageSitesAre(stages[1..], action, declared, node);
      assert forall x :: x in stages <==> x == stages[0] || x in stages[1..];
    }
  }

  lemma SiteUnderCases(s: Statement, action: string, declared: Node, node: Node)
    ensures SiteUnder(s, action, declared, node)
       <==> || IsSite(s, action, declared, node)
            || ((s.Fork? || s.Loop?) && SiteUnderAny(s.body, action, declared, node))
            || (s.SubStep? && SiteUnderStep(s.step, action, declared, node))
  {
    if SiteUnder(s, action, declared, node) {
      var x :| Under(x, s) && IsSite(x, action, declared, node);
    }
    if IsSite(s, action, declared, node) {
      assert Under(s, s);
    }
    if (s.Fork? || s.Loop?) && SiteUnderAny(s.body, action, declared, node) {
      var x :| UnderAny(x, s.body) && IsSite(x, action, declared, node);
      assert Under(x, s);
    }
    if s.SubStep? && SiteUnderStep(s.step, action, declared, node) {
      var x :| UnderStep(x, s.step) && IsSite(x, action, declared, node);
      assert Under(x, s);
    }
  }

  lemma {:induction false} StatementSitesAre(s: Statement, action: string, declared: Node, node: Node)
    ensures node in StatementSites(s, action, declared) <==> SiteUnder(s, action, declared, node)
    decreases s
  {
    SiteUnderCases(s, action, declared, node);
    if s.Pipe? {
      StageSitesAre(s.stages, action, declared, node);
    } else if s.Fork? || s.Loop? {
      StatementsSitesAre(s.body, action, declared, node);
    } else if s.SubStep? {
      StepSitesAre(s.step, action, declared, node);
    }
  }

  lemma {:induction false} StatementsSitesAre(ss: seq<Statement>, action: string, declared: Node, node: Node)
    ensures node in StatementsSites(ss, action, declared) <==> SiteUnderAny(ss, action, declared, node)
    decreases ss
  {
    if ss != [] {
      StatementSitesAre(ss[0], action, declared, node);
      StatementsSitesAre(ss[1..], action, declared, node);
      forall x ensures UnderAny(x, ss) <==> Under(x, ss[0]) || UnderAny(x, ss[1..]) {
        UnderSplit(x, ss);
      }
    }
  }

  lemma {:induction false} StepSitesAre(step: Step, action: string, declared: Node, node: Node)
    ensures node in StepSites(step, action, declared) <==> SiteUnderStep(step, action, declared, node)
    decreases step
  {
    StatementsSitesAre(step.body, action, declared, node);
    if step.onFailure.OnFailure? {
      StatementsSitesAre(step.onFailure.body, action, declared, node);
      if SiteUnderAny(step.onFailure.body, action, declared, node) {
        var x :| UnderAny(x, step.onFailure.body) && IsSite(x, action, declared, node);
        assert UnderStep(x, step);
      }
    }
    if SiteUnderAny(step.body, action, declared, node) {
      var x :| UnderAny(x, step.body) && IsSite(x, action, declared, node);
      assert UnderStep(x, step);
    }
  }

  lemma {:induction false} StepsSitesAre(steps: seq<Step>, action: string, declared: Node, node: Node)
    ensures node in StepsSites(steps, action, declared)
       <==> exists step :: step in steps && SiteUnderStep(step, action, declared, node)
  {
    if steps != [] {
      StepSitesAre(steps[0], action, declared, node);
      StepsSitesAre(steps[1..], action, declared, node);
      assert forall x :: x in steps <==> x == steps[0] || x in steps[1..];
    }
  }

  lemma {:induction false} SubflowsSitesAre(subflows: seq<Subflow>, action: string, declared: Node, node: Node)
    ensures node in SubflowsSites(subflows, action, declared)
       <==> exists subflow, step ::
              subflow in subflows && step in subflow.steps && SiteUnderStep(step, action, declared, node)
  {
    if subflows != [] {
      StepsSitesAre(subflows[0].steps, action, declared, node);
      SubflowsSitesAre(subflows[1..], action, declared, node);
      assert forall x :: x in subflows <==> x == subflows[0] || x in subflows[1..];
    }
  }

  /** The nodes collected for an action are exactly the effective nodes of its call sites in the document. */
  lemma {:induction false} SitesAreCalls(d: Document, action: string, declared: Node, node: Node)
    ensures node in DocumentSites(d, action, declared) <==> SiteInDocument(d, action, declared, node)
  {
    StepsSitesAre(d.steps, action, declared, node);
    SubflowsSitesAre(d.subflows, action, declared, node);
    if SiteInDocument(d, action, declared, node) {
      var x :| Occurs(x, d) && IsSite(x, action, declared, node);
      var step :| TopStep(step, d) && UnderStep(x, step);
      assert SiteUnderStep(step, action, declared, node);
      if step !in d.steps {
        var subflow :| subflow in d.subflows && step in subflow.steps;
      }
    }
    if node in DocumentSites(d, action, declared) {
      var step :| TopStep(step, d) && SiteUnderStep(step, action, declared, node);
      var x :| UnderStep(x, step) && IsSite(x, action, declared, node);
      assert Occurs(x, d);
    }
  }

  ghost predicate NodeNeeded(d: Document, action: string, declared: Node, node: Node) {
    || SiteInDocument(d, action, declared, node)
    || (node == declared && forall n :: !SiteInDocument(d, action, declared, n))
  }

  /** What a row of the requirements says, in terms of the document alone. */
  ghost predicate Required(d: Document, worker: WorkerDecl, action: ActionDecl, row: ActionRequirement) {
    && row.taskQueue == worker.name && row.action == action.name
    && exists declared :: Effective(action.config, None, declared) && NodeNeeded(d, action.name, declared, row.node)
  }

  lemma {:induction false} RowsAre(taskQueue: string, action: string, nodes: seq<Node>, row: ActionRequirement)
    ensures row in Rows(taskQueue, action, nodes)
       <==> row.taskQueue == taskQueue && row.action == action && row.node in nodes
  {
    if nodes != [] {
      RowsAre(taskQueue, action, nodes[1..], row);
      assert forall n :: n in nodes <==> n == nodes[0] || n in nodes[1..];
    }
  }

  lemma {:induction false} NodesNeededAre(d: Document, action: string, declared: Node, node: Node)
    ensures node in RequiredNodes(d, action, declared) <==> NodeNeeded(d, action, declared, node)
  {
    var sites := DocumentSites(d, action, declared);
    RequiredNodesAreCallSites(d, action, declared);
    forall n ensures n in sites <==> SiteInDocument(d, action, declared, n) {
      SitesAreCalls(d, action, declared, n);
    }
    if sites == [] {
      assert forall n :: !SiteInDocument(d, action, declared, n);
    } else {
      assert sites[0] in sites;
      assert SiteInDocument(d, action, declared, sites[0]);
    }
  }

  lemma {:induction false} RequiredNodesAre(d: Document, worker: WorkerDecl, action: ActionDecl, row: ActionRequirement)
    requires row.taskQueue == worker.name && row.action == action.name
    ensures row.node in RequiredNodes(d, action.name, ConfiguredNode(action.config))
       <==> Required(d, worker, action, row)
  {
    var declared := ConfiguredNode(action.config);
    NodesNeededAre(d, action.name, declared, row.node);
    assert Effective(action.config, None, declared);
    forall n | Effective(action.config, None, n) ensures n == declared {
    }
  }

  lemma {:induction false} ActionRowsAre(d: Document, worker: WorkerDecl, actions: seq<ActionDecl>, row: ActionRequirement)
    ensures row in ActionRows(d, worker.name, actions)
       <==> exists action :: action in actions && Required(d, worker, action, row)
  {
    if actions != [] {
      var first := actions[0];
      var nodes := RequiredNodes(d, first.name, ConfiguredNode(first.config));
      ActionRowsAre(d, worker, actions[1..], row);
      RowsAre(worker.name, first.name, nodes, row);
      if row.taskQueue == worker.name && row.action == first.name {
        RequiredNodesAre(d, worker, first, row);
      }
      assert forall x :: x in actions <==> x == first || x in actions[1..];
    }
  }

  lemma {:induction false} WorkerRowsAre(d: Document, workers: seq<WorkerDecl>, row: ActionRequirement)
    ensures row in WorkerRows(d, workers)
       <==> exists worker, action :: worker in workers && action in worker.actions && Required(d, worker, action, row)
  {
    if workers != [] {
      ActionRowsAre(d, workers[0], workers[0].actions, row);
      WorkerRowsAre(d, workers[1..], row);
      assert forall x :: x in workers <==> x == workers[0] || x in workers[1..];
    }
  }

  // ----- the lowering gate -----

  ghost predicate Dependent(x: Statement) {
    x.SubStep? && x.step.after != []
  }

  ghost predicate RefusedAt(x: Statement, span: Span) {
    Dependent(x) && x.step.after[0].span == span
  }

  ghost predicate GateSays(found: Option<Span>, under: Statement -> bool) {
    if found.None? then forall x :: under(x) ==> !Dependent(x)
    else exists x :: under(x) && RefusedAt(x, found.value)
  }

  lemma {:induction false} StatementGate(s: Statement)
    ensures GateSays(StatementUnlowered(s), (x: Statement) => Under(x, s))
    decreases s
  {
    var found := StatementUnlowered(s);
    assert Under(s, s);
    if s.Fork? || s.Loop? {
      StatementsGate(s.body);
      if found.Some? {
        var x :| UnderAny(x, s.body) && RefusedAt(x, found.value);
        assert Under(x, s);
      }
    } else if s.SubStep? && s.step.after == [] {
      StepGate(s.step);
      if found.Some? {
        var x :| UnderStep(x, s.step) && RefusedAt(x, found.value);
        assert Under(x, s);
      }
    } else if s.SubStep? {
      assert RefusedAt(s, found.value);
    }
  }

  lemma {:induction false} StatementsGate(ss: seq<Statement>)
    ensures GateSays(StatementsUnlowered(ss), (x: Statement) => UnderAny(x, ss))
    decreases ss
  {
    if ss != [] {
      var found := StatementsUnlowered(ss);
      StatementGate(ss[0]);
      StatementsGate(ss[1..]);
      forall x ensures UnderAny(x, ss) <==> Under(x, ss[0]) || UnderAny(x, ss[1..]) {
        UnderSplit(x, ss);
      }
      if StatementUnlowered(ss[0]).Some? {
        var x :| Under(x, ss[0]) && RefusedAt(x, found.value);
        assert UnderAny(x, ss);
      } else if found.Some? {
        var x :| UnderAny(x, ss[1..]) && RefusedAt(x, found.value);
        assert UnderAny(x, ss);
      }
    }
  }

  lemma {:induction false} StepGate(step: Step)
    ensures GateSays(StepUnlowered(step), (x: Statement) => UnderStep(x, step))
    decreases step
  {
    var found := StepUnlowered(step);
    StatementsGate(step.body);
    if step.onFailure.OnFailure? {
      StatementsGate(step.onFailure.body);
    }
    if found.Some? {
      if StatementsUnlowered(step.body).Some? {
        var x :| UnderAny(x, step.body) && RefusedAt(x, found.value);
        assert UnderStep(x, step);
      } else {
        var x :| UnderAny(x, step.onFailure.body) && RefusedAt(x, found.value);
        assert UnderStep(x, step);
      }
    }
  }

  lemma {:induction false} StepsGate(steps: seq<Step>)
    ensures GateSays(StepsUnlowered(steps), (x: Statement) => exists step :: step in steps && UnderStep(x, step))
  {
    if steps != [] {
      var found := StepsUnlowered(steps);
      StepGate(steps[0]);
      StepsGate(steps[1..]);
      assert forall x :: x in steps <==> x == steps[0] || x in steps[1..];
      if StepUnlowered(steps[0]).Some? {
        var x :| UnderStep(x, steps[0]) && RefusedAt(x, found.value);
        assert steps[0] in steps;
      } else if found.Some? {
        var x :| (exists step :: step in steps[1..] && UnderStep(x, step)) && RefusedAt(x, found.value);
        assert exists step :: step in steps && UnderStep(x, step);
      }
    }
  }

  lemma {:induction false} SubflowsGate(subflows: seq<Subflow>)
    ensures GateSays(
              SubflowsUnlowered(subflows),
              (x: Statement) =>
                exists subflow, step :: subflow in subflows && step in subflow.steps && UnderStep(x, step))
  {
    if subflows != [] {
      var found := SubflowsUnlowered(subflows);
      StepsGate(subflows[0].steps);
      SubflowsGate(subflows[1..]);
      assert forall x :: x in subflows <==> x == subflows[0] || x in subflows[1..];
      if StepsUnlowered(subflows[0].steps).Some? {
        var x :| (exists step :: step in subflows[0].steps && UnderStep(x, step)) && RefusedAt(x, found.value);
        assert subflows[0] in subflows;
      } else if found.Some? {
        var x :| (exists subflow, step :: subflow in subflows[1..] && step in subflow.steps && UnderStep(x, step))
              && RefusedAt(x, found.value);
        assert exists subflow, step :: subflow in subflows && step in subflow.steps && UnderStep(x, step);
      }
    }
  }

  /** The gate lets a document pass exactly if no nested step in it, anywhere, has a dependency. */
  lemma {:induction false} GateIsExact(d: Document)
    ensures FirstUnlowered(d).None? <==> forall x :: Occurs(x, d) ==> !Dependent(x)
    ensures FirstUnlowered(d).Some? ==> exists x :: Occurs(x, d) && RefusedAt(x, FirstUnlowered(d).value)
  {
    StepsGate(d.steps);
    SubflowsGate(d.subflows);
    var found := FirstUnlowered(d);
    if StepsUnlowered(d.steps).Some? {
      var x :| (exists step :: step in d.steps && UnderStep(x, step)) && RefusedAt(x, found.value);
      var step :| step in d.steps && UnderStep(x, step);
      assert TopStep(step, d);
      assert Occurs(x, d);
    } else if found.Some? {
      var x :| (exists subflow, step :: subflow in d.subflows && step in subflow.steps && UnderStep(x, step))
            && RefusedAt(x, found.value);
      var subflow, step :| subflow in d.subflows && step in subflow.steps && UnderStep(x, step);
      assert TopStep(step, d);
      assert Occurs(x, d);
    } else {
      forall x | Occurs(x, d) ensures !Dependent(x) {
        var step :| TopStep(step, d) && UnderStep(x, step);
        if step !in d.steps {
          var subflow :| subflow in d.subflows && step in subflow.steps;
        }
      }
    }
  }

  // ----- source order -----

  /** Both walks take a block front to back, its body before its failure block, and steps before subflows. */
  lemma {:induction false} BlocksInOrder(a: seq<Statement>, b: seq<Statement>, action: string, declared: Node)
    ensures StatementsSites(a + b, action, declared)
         == StatementsSites(a, action, declared) + StatementsSites(b, action, declared)
    ensures StatementsExprs(a + b) == StatementsExprs(a) + StatementsExprs(b)
    decreases |a|
  {
    if a == [] {
      assert a + b == b;
    } else {
      SplitFirst(a, b);
      BlocksInOrder(a[1..], b, action, declared);
      Assoc(StatementSites(a[0], action, declared), StatementsSites(a[1..], action, declared),
            StatementsSites(b, action, declared));
      Assoc(StatementExprs(a[0]), StatementsExprs(a[1..]), StatementsExprs(b));
    }
  }

  lemma StepsInOrder(step: Step, d: Document, action: string, declared: Node)
    ensures StatementsSites(step.body, action, declared) <= StepSites(step, action, declared)
    ensures StatementsExprs(step.body) <= StepExprs(step)
    ensures step.onFailure.OnFailure? ==>
              StatementsExprs(step.body) + StatementsExprs(step.onFailure.body) <= StepExprs(step)
    ensures StepsSites(d.steps, action, declared) <= DocumentSites(d, action, declared)
    ensures StepsExprs(d.steps) <= DocumentExprs(d)
  {
  }

  lemma {:induction false} DependentsInOrder(a: seq<Statement>, b: seq<Statement>, step: Step, d: Document)
    ensures StatementsDependents(a + b) == StatementsDependents(a) + StatementsDependents(b)
    ensures StatementsDependents(step.body) <= StepDependents(step)
    ensures StepsDependents(d.steps) <= StepsDependents(d.steps) + SubflowsDependents(d.subflows)
    decreases |a|
  {
    if a == [] {
      assert a + b == b;
    } else {
      SplitFirst(a, b);
      DependentsInOrder(a[1..], b, step, d);
      Assoc(StatementDependents(a[0]), StatementsDependents(a[1..]), StatementsDependents(b));
    }
  }

  /** The rows come worker by worker, action by action, and node by node. */
  lemma {:induction false} RowsInOrder(d: Document, a: seq<WorkerDecl>, b: seq<WorkerDecl>)
    ensures WorkerRows(d, a + b) == WorkerRows(d, a) + WorkerRows(d, b)
    decreases |a|
  {
    if a == [] {
      assert a + b == b;
    } else {
      SplitFirst(a, b);
      RowsInOrder(d, a[1..], b);
      Assoc(ActionRows(d, a[0].name, a[0].actions), WorkerRows(d, a[1..]), WorkerRows(d, b));
    }
  }

  lemma {:induction false} ActionRowsInOrder(d: Document, taskQueue: string, a: seq<ActionDecl>, b: seq<ActionDecl>)
    ensures ActionRows(d, taskQueue, a + b) == ActionRows(d, taskQueue, a) + ActionRows(d, taskQueue, b)
    decreases |a|
  {
    if a == [] {
      assert a + b == b;
    } else {
      SplitFirst(a, b);
      ActionRowsInOrder(d, taskQueue, a[1..], b);
      Assoc(Rows(taskQueue, a[0].name, RequiredNodes(d, a[0].name, ConfiguredNode(a[0].config))),
            ActionRows(d, taskQueue, a[1..]), ActionRows(d, taskQueue, b));
    }
  }

  lemma {:induction false} NodeRowsInOrder(taskQueue: string, action: string, nodes: seq<Node>)
    ensures |Rows(taskQueue, action, nodes)| == |nodes|
    ensures forall i :: 0 <= i < |nodes| ==> Rows(taskQueue, action, nodes)[i].node == nodes[i]
  {
    if nodes != [] {
      NodeRowsInOrder(taskQueue, action, nodes[1..]);
    }
  }
}
