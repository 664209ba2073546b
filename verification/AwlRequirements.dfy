/**
 Two walks over the same tree as folding: the effective action requirements
 (crates/aion-awl/src/compile.rs) and the first construct that is not lowered
 (crates/aion-awl/src/unlowered.rs). Folding changes neither answer.
 */
module AwlRequirements {
  import opened Wrappers
  import opened Seqs
  import opened AwlAst
  import opened AwlConsts
  import opened AwlWalk
  import opened AwlFoldDocument

  type Node = Option<string>

  datatype ActionRequirement = ActionRequirement(taskQueue: string, action: string, node: Node)

  function ConfiguredNode(config: Option<ConfigLine>): Node {
    if config.Some? then config.value.node else None
  }

  // ----- the call sites of an action, in source order, each with its effective node -----

  ghost function StageSites(stages: seq<PipeStage>, action: string, declared: Node): seq<Node> {
    if stages == [] then []
    else
      (if stages[0].ActionStage? && stages[0].name == action then [declared] else [])
      + StageSites(stages[1..], action, declared)
  }

  /** A call-site `node` wins over the declared one; a pipe stage carries the declared one. */
  ghost function StatementSites(s: Statement, action: string, declared: Node): seq<Node>
    decreases s
  {
    match s
    case Call(name, _, _, config) =>
      if name != action then []
      else if ConfiguredNode(config).Some? then [ConfiguredNode(config)] else [declared]
    case Pipe(_, stages, _) => StageSites(stages, action, declared)
    case Fork(_, body) => StatementsSites(body, action, declared)
    case Loop(_, _, body, _, _) => StatementsSites(body, action, declared)
    case SubStep(step) => StepSites(step, action, declared)
    case _ => []
  }

  ghost function StatementsSites(ss: seq<Statement>, action: string, declared: Node): seq<Node>
    decreases ss
  {
    if ss == [] then [] else StatementSites(ss[0], action, declared) + StatementsSites(ss[1..], action, declared)
  }

  ghost function StepSites(step: Step, action: string, declared: Node): seq<Node>
    decreases step
  {
    StatementsSites(step.body, action, declared)
    + (if step.onFailure.OnFailure? then StatementsSites(step.onFailure.body, action, declared) else [])
  }

  ghost function StepsSites(steps: seq<Step>, action: string, declared: Node): seq<Node> {
    if steps == [] then [] else StepSites(steps[0], action, declared) + StepsSites(steps[1..], action, declared)
  }

  ghost function SubflowsSites(subflows: seq<Subflow>, action: string, declared: Node): seq<Node> {
    if subflows == [] then []
    else StepsSites(subflows[0].steps, action, declared) + SubflowsSites(subflows[1..], action, declared)
  }

  ghost function DocumentSites(d: Document, action: string, declared: Node): seq<Node> {
    StepsSites(d.steps, action, declared) + SubflowsSites(d.subflows, action, declared)
  }

  // ----- distinct values in order of first occurrence -----

  function PushUnique(nodes: seq<Node>, node: Node): seq<Node> {
    if node in nodes then nodes else nodes + [node]
  }

  ghost function PushAll(nodes: seq<Node>, sites: seq<Node>): seq<Node>
    decreases |sites|
  {
    if sites == [] then nodes else PushAll(PushUnique(nodes, sites[0]), sites[1..])
  }

  lemma {:induction false} PushAllConcat(nodes: seq<Node>, a: seq<Node>, b: seq<Node>)
    ensures PushAll(nodes, a + b) == PushAll(PushAll(nodes, a), b)
    decreases |a|
  {
    if a == [] {
      assert a + b == b;
    } else {
      SplitFirst(a, b);
      PushAllConcat(PushUnique(nodes, a[0]), a[1..], b);
    }
  }

  /** Some prefix of `sites` holds `a` and not `b`. */
  ghost predicate OccursBefore(sites: seq<Node>, a: Node, b: Node) {
    exists k :: 0 <= k <= |sites| && a in sites[..k] && b !in sites[..k]
  }

  /** `nodes` lists the values of `sites` once each, in order of first occurrence. */
  ghost predicate FirstOccurrences(sites: seq<Node>, nodes: seq<Node>) {
    && (forall n :: n in nodes <==> n in sites)
    && (forall i, j :: 0 <= i < j < |nodes| ==> nodes[i] != nodes[j])
    && (forall i, j :: 0 <= i < j < |nodes| ==> OccursBefore(sites, nodes[i], nodes[j]))
  }

  lemma PushUniqueKeepsFirstOccurrences(sites: seq<Node>, nodes: seq<Node>, node: Node)
    requires FirstOccurrences(sites, nodes)
    ensures FirstOccurrences(sites + [node], PushUnique(nodes, node))
  {
    var sites', nodes' := sites + [node], PushUnique(nodes, node);
    forall i, j | 0 <= i < j < |nodes'| ensures OccursBefore(sites', nodes'[i], nodes'[j]) {
      if j < |nodes| {
        assert OccursBefore(sites, nodes[i], nodes[j]);
        var k :| 0 <= k <= |sites| && nodes[i] in sites[..k] && nodes[j] !in sites[..k];
        assert sites'[..k] == sites[..k];
      } else {
        assert nodes[i] in nodes;
        assert sites'[..|sites|] == sites;
      }
    }
  }

  /** Pushing the call sites one by one leaves exactly their distinct values, in source order. */
  lemma {:induction false} PushAllIsFirstOccurrences(before: seq<Node>, nodes: seq<Node>, sites: seq<Node>)
    requires FirstOccurrences(before, nodes)
    ensures FirstOccurrences(before + sites, PushAll(nodes, sites))
    decreases |sites|
  {
    if sites == [] {
      assert before + sites == before;
    } else {
      MoveFirst(before, sites);
      PushUniqueKeepsFirstOccurrences(before, nodes, sites[0]);
      PushAllIsFirstOccurrences(before + [sites[0]], PushUnique(nodes, sites[0]), sites[1..]);
      assert PushAll(nodes, sites) == PushAll(PushUnique(nodes, sites[0]), sites[1..]);
    }
  }

  /** The nodes required for one action: its distinct call-site nodes, or the declared one if never called. */
  ghost function RequiredNodes(d: Document, action: string, declared: Node): seq<Node> {
    var nodes := PushAll([], DocumentSites(d, action, declared));
    if nodes == [] then [declared] else nodes
  }

  lemma {:induction false} RequiredNodesAreCallSites(d: Document, action: string, declared: Node)
    ensures var sites := DocumentSites(d, action, declared);
            if sites == [] then RequiredNodes(d, action, declared) == [declared]
            else FirstOccurrences(sites, RequiredNodes(d, action, declared))
  {
    DistinctSites(DocumentSites(d, action, declared));
  }

  lemma DistinctSites(sites: seq<Node>)
    ensures FirstOccurrences(sites, PushAll([], sites))
    ensures PushAll([], sites) == [] <==> sites == []
  {
    PushAllIsFirstOccurrences([], [], sites);
    assert [] + sites == sites;
    if sites != [] {
      assert sites[0] in PushAll([], sites);
    }
  }

  ghost function Rows(taskQueue: string, action: string, nodes: seq<Node>): seq<ActionRequirement> {
    if nodes == [] then [] else [ActionRequirement(taskQueue, action, nodes[0])] + Rows(taskQueue, action, nodes[1..])
  }

  ghost function ActionRows(d: Document, taskQueue: string, actions: seq<ActionDecl>): seq<ActionRequirement> {
    if actions == [] then []
    else
      Rows(taskQueue, actions[0].name, RequiredNodes(d, actions[0].name, ConfiguredNode(actions[0].config)))
      + ActionRows(d, taskQueue, actions[1..])
  }

  ghost function WorkerRows(d: Document, workers: seq<WorkerDecl>): seq<ActionRequirement> {
    if workers == [] then []
    else ActionRows(d, workers[0].name, workers[0].actions) + WorkerRows(d, workers[1..])
  }

  // ----- the walk as written: nested loops pushing into one list -----

  method StatementNodes(statements: seq<Statement>, action: string, declared: Node, nodes: seq<Node>)
    returns (r: seq<Node>)
    ensures r == PushAll(nodes, StatementsSites(statements, action, declared))
    decreases statements, 0
  {
    r := nodes;
    assert statements[0..] == statements;
    for i := 0 to |statements|
      invariant PushAll(nodes, StatementsSites(statements, action, declared))
             == PushAll(r, StatementsSites(statements[i..], action, declared))
    {
      assert statements[i..][1..] == statements[i + 1..];
      PushAllConcat(
        r, StatementSites(statements[i], action, declared), StatementsSites(statements[i + 1..], action, declared));
      r := OneStatementNodes(statements[i], action, declared, r);
    }
  }

  method OneStatementNodes(statement: Statement, action: string, declared: Node, nodes: seq<Node>)
    returns (r: seq<Node>)
    ensures r == PushAll(nodes, StatementSites(statement, action, declared))
    decreases statement, 0
  {
    r := nodes;
    match statement
    case Call(name, _, _, config) =>
      if name == action {
        var node := if ConfiguredNode(config).Some? then ConfiguredNode(config) else declared;
        PushAllOne(r, node);
        r := PushUnique(r, node);
      }
    case Pipe(_, stages, _) => r := StageNodes(stages, action, declared, r);
    case Fork(_, body) => r := StatementNodes(body, action, declared, r);
    case Loop(_, _, body, _, _) => r := StatementNodes(body, action, declared, r);
    case SubStep(step) => r := StepNodes(step, action, declared, r);
    case _ =>
  }

  method StageNodes(stages: seq<PipeStage>, action: string, declared: Node, nodes: seq<Node>) returns (r: seq<Node>)
    ensures r == PushAll(nodes, StageSites(stages, action, declared))
  {
    r := nodes;
    assert stages[0..] == stages;
    for i := 0 to |stages|
      invariant PushAll(nodes, StageSites(stages, action, declared))
             == PushAll(r, StageSites(stages[i..], action, declared))
    {
      assert stages[i..][1..] == stages[i + 1..];
      ghost var site := if stages[i].ActionStage? && stages[i].name == action then [declared] else [];
      PushAllConcat(r, site, StageSites(stages[i + 1..], action, declared));
      if stages[i].ActionStage? && stages[i].name == action {
        PushAllOne(r, declared);
        r := PushUnique(r, declared);
      }
    }
  }

  method StepNodes(step: Step, action: string, declared: Node, nodes: seq<Node>) returns (r: seq<Node>)
    ensures r == PushAll(nodes, StepSites(step, action, declared))
    decreases step, 0
  {
    ghost var onFailure :=
      if step.onFailure.OnFailure? then StatementsSites(step.onFailure.body, action, declared) else [];
    PushAllConcat(nodes, StatementsSites(step.body, action, declared), onFailure);
    r := StatementNodes(step.body, action, declared, nodes);
    if step.onFailure.OnFailure? {
      r := StatementNodes(step.onFailure.body, action, declared, r);
    }
  }

  method StepsNodes(steps: seq<Step>, action: string, declared: Node, nodes: seq<Node>) returns (r: seq<Node>)
    ensures r == PushAll(nodes, StepsSites(steps, action, declared))
  {
    r := nodes;
    assert steps[0..] == steps;
    for i := 0 to |steps|
      invariant PushAll(nodes, StepsSites(steps, action, declared))
             == PushAll(r, StepsSites(steps[i..], action, declared))
    {
      assert steps[i..][1..] == steps[i + 1..];
      PushAllConcat(r, StepSites(steps[i], action, declared), StepsSites(steps[i + 1..], action, declared));
      r := StepNodes(steps[i], action, declared, r);
    }
  }

  method DocumentNodes(d: Document, action: string, declared: Node) returns (r: seq<Node>)
    ensures r == RequiredNodes(d, action, declared)
  {
    PushAllConcat([], StepsSites(d.steps, action, declared), SubflowsSites(d.subflows, action, declared));
    r := StepsNodes(d.steps, action, declared, []);
    ghost var afterSteps := r;
    assert d.subflows[0..] == d.subflows;
    for i := 0 to |d.subflows|
      invariant PushAll(afterSteps, SubflowsSites(d.subflows, action, declared))
             == PushAll(r, SubflowsSites(d.subflows[i..], action, declared))
    {
      assert d.subflows[i..][1..] == d.subflows[i + 1..];
      PushAllConcat(
        r, StepsSites(d.subflows[i].steps, action, declared), SubflowsSites(d.subflows[i + 1..], action, declared));
      r := StepsNodes(d.subflows[i].steps, action, declared, r);
    }
    if r == [] {
      r := [declared];
    }
  }

  method ActionRequirements(d: Document) returns (r: seq<ActionRequirement>)
    ensures r == WorkerRows(d, d.workers)
  {
    r := [];
    assert d.workers[0..] == d.workers;
    for i := 0 to |d.workers|
      invariant WorkerRows(d, d.workers) == r + WorkerRows(d, d.workers[i..])
    {
      var rows := WorkerRequirements(d, d.workers[i].name, d.workers[i].actions);
      WorkerRowsStep(d, d.workers, i, r, rows);
      r := r + rows;
    }
    assert r + [] == r;
  }

  lemma WorkerRowsStep(
    d: Document, workers: seq<WorkerDecl>, i: nat, done: seq<ActionRequirement>, rows: seq<ActionRequirement>)
    requires i < |workers| && rows == ActionRows(d, workers[i].name, workers[i].actions)
    ensures done + WorkerRows(d, workers[i..]) == done + rows + WorkerRows(d, workers[i + 1..])
  {
    assert workers[i..][1..] == workers[i + 1..];
    var rest := WorkerRows(d, workers[i + 1..]);
    assert done + (rows + rest) == done + rows + rest;
  }

  method WorkerRequirements(d: Document, taskQueue: string, actions: seq<ActionDecl>)
    returns (r: seq<ActionRequirement>)
    ensures r == ActionRows(d, taskQueue, actions)
  {
    r := [];
    assert actions[0..] == actions;
    for i := 0 to |actions|
      invariant ActionRows(d, taskQueue, actions) == r + ActionRows(d, taskQueue, actions[i..])
    {
      assert actions[i..][1..] == actions[i + 1..];
      var nodes := DocumentNodes(d, actions[i].name, ConfiguredNode(actions[i].config));
      var rows := NodeRows(taskQueue, actions[i].name, nodes);
      ghost var rest := ActionRows(d, taskQueue, actions[i + 1..]);
      assert r + (rows + rest) == r + rows + rest;
      r := r + rows;
    }
    assert r + [] == r;
  }

  method NodeRows(taskQueue: string, action: string, nodes: seq<Node>) returns (r: seq<ActionRequirement>)
    ensures r == Rows(taskQueue, action, nodes)
  {
    r := [];
    assert nodes[0..] == nodes;
    for j := 0 to |nodes|
      invariant Rows(taskQueue, action, nodes) == r + Rows(taskQueue, action, nodes[j..])
    {
      assert nodes[j..][1..] == nodes[j + 1..];
      var row := ActionRequirement(taskQueue, action, nodes[j]);
      ghost var rest := Rows(taskQueue, action, nodes[j + 1..]);
      assert r + ([row] + rest) == r + [row] + rest;
      r := r + [row];
    }
    assert r + [] == r;
  }

  lemma PushAllOne(nodes: seq<Node>, node: Node)
    ensures PushAll(nodes, [node]) == PushUnique(nodes, node)
  {
    assert PushAll(PushUnique(nodes, node), [node][1..]) == PushUnique(nodes, node);
  }

  // ----- the first construct that does not lower -----

  /** `after` dependencies on a nested step are refused; the first one is reported. */
  function StatementsUnlowered(ss: seq<Statement>): Option<Span>
    decreases ss
  {
    if ss == [] then None
    else
      var found := StatementUnlowered(ss[0]);
      if found.Some? then found else StatementsUnlowered(ss[1..])
  }

  function StatementUnlowered(s: Statement): Option<Span>
    decreases s
  {
    match s
    case Fork(_, body) => StatementsUnlowered(body)
    case Loop(_, _, body, _, _) => StatementsUnlowered(body)
    case SubStep(step) => if step.after != [] then Some(step.after[0].span) else StepUnlowered(step)
    case _ => None
  }

  function StepUnlowered(step: Step): Option<Span>
    decreases step
  {
    var found := StatementsUnlowered(step.body);
    if found.Some? then found
    else if step.onFailure.OnFailure? then StatementsUnlowered(step.onFailure.body) else None
  }

  function StepsUnlowered(steps: seq<Step>): Option<Span> {
    if steps == [] then None
    else if StepUnlowered(steps[0]).Some? then StepUnlowered(steps[0]) else StepsUnlowered(steps[1..])
  }

  function SubflowsUnlowered(subflows: seq<Subflow>): Option<Span> {
    if subflows == [] then None
    else if StepsUnlowered(subflows[0].steps).Some? then StepsUnlowered(subflows[0].steps)
    else SubflowsUnlowered(subflows[1..])
  }

  function FirstUnlowered(d: Document): Option<Span> {
    if StepsUnlowered(d.steps).Some? then StepsUnlowered(d.steps) else SubflowsUnlowered(d.subflows)
  }

  /** All nested steps with dependencies, in source order. */
  ghost function StatementDependents(s: Statement): seq<Step>
    decreases s
  {
    match s
    case Fork(_, body) => StatementsDependents(body)
    case Loop(_, _, body, _, _) => StatementsDependents(body)
    case SubStep(step) => (if step.after != [] then [step] else []) + StepDependents(step)
    case _ => []
  }

  ghost function StatementsDependents(ss: seq<Statement>): seq<Step>
    decreases ss
  {
    if ss == [] then [] else StatementDependents(ss[0]) + StatementsDependents(ss[1..])
  }

  ghost function StepDependents(step: Step): seq<Step>
    decreases step
  {
    StatementsDependents(step.body)
    + (if step.onFailure.OnFailure? then StatementsDependents(step.onFailure.body) else [])
  }

  ghost function StepsDependents(steps: seq<Step>): seq<Step> {
    if steps == [] then [] else StepDependents(steps[0]) + StepsDependents(steps[1..])
  }

  ghost function SubflowsDependents(subflows: seq<Subflow>): seq<Step> {
    if subflows == [] then [] else StepsDependents(subflows[0].steps) + SubflowsDependents(subflows[1..])
  }

  ghost predicate ReportsFirst(found: Option<Span>, dependents: seq<Step>) {
    if dependents == [] then found.None?
    else dependents[0].after != [] && found == Some(dependents[0].after[0].span)
  }

  lemma {:induction false} StatementReportsFirst(s: Statement)
    ensures ReportsFirst(StatementUnlowered(s), StatementDependents(s))
    decreases s
  {
    match s
    case Fork(_, body) => StatementsReportFirst(body);
    case Loop(_, _, body, _, _) => StatementsReportFirst(body);
    case SubStep(step) => StepReportsFirst(step);
    case _ =>
  }

  lemma {:induction false} StatementsReportFirst(ss: seq<Statement>)
    ensures ReportsFirst(StatementsUnlowered(ss), StatementsDependents(ss))
    decreases ss
  {
    if ss != [] {
      StatementReportsFirst(ss[0]);
      StatementsReportFirst(ss[1..]);
    }
  }

  lemma {:induction false} StepReportsFirst(step: Step)
    ensures ReportsFirst(StepUnlowered(step), StepDependents(step))
    decreases step
  {
    StatementsReportFirst(step.body);
    if step.onFailure.OnFailure? {
      StatementsReportFirst(step.onFailure.body);
    }
  }

  lemma {:induction false} StepsReportFirst(steps: seq<Step>)
    ensures ReportsFirst(StepsUnlowered(steps), StepsDependents(steps))
  {
    if steps != [] {
      StepReportsFirst(steps[0]);
      StepsReportFirst(steps[1..]);
    }
  }

  lemma {:induction false} SubflowsReportFirst(subflows: seq<Subflow>)
    ensures ReportsFirst(SubflowsUnlowered(subflows), SubflowsDependents(subflows))
  {
    if subflows != [] {
      StepsReportFirst(subflows[0].steps);
      SubflowsReportFirst(subflows[1..]);
    }
  }

  /** The refusal names the first nested dependency anywhere in the document, or there is none. */
  lemma FirstUnloweredIsFirst(d: Document)
    ensures ReportsFirst(FirstUnlowered(d), StepsDependents(d.steps) + SubflowsDependents(d.subflows))
  {
    StepsReportFirst(d.steps);
    SubflowsReportFirst(d.subflows);
  }

  // ----- rewriting expressions changes neither walk -----

  lemma {:induction false} MapKeepsStages(f: Expr -> Expr, stages: seq<PipeStage>, action: string, declared: Node)
    ensures StageSites(MapStages(f, stages), action, declared) == StageSites(stages, action, declared)
  {
    if stages != [] {
      MapKeepsStages(f, stages[1..], action, declared);
      assert MapStages(f, stages)[1..] == MapStages(f, stages[1..]);
    }
  }

  lemma {:induction false} MapKeepsStatement(f: Expr -> Expr, s: Statement, action: string, declared: Node)
    ensures StatementSites(MapStatement(f, s), action, declared) == StatementSites(s, action, declared)
    ensures StatementUnlowered(MapStatement(f, s)) == StatementUnlowered(s)
    decreases s
  {
    match s
    case Pipe(_, stages, _) => MapKeepsStages(f, stages, action, declared);
    case Fork(_, body) => MapKeepsStatements(f, body, action, declared);
    case Loop(_, _, body, _, _) => MapKeepsStatements(f, body, action, declared);
    case SubStep(step) => MapKeepsStep(f, step, action, declared);
    case _ =>
  }

  lemma {:induction false} MapKeepsStatements(f: Expr -> Expr, ss: seq<Statement>, action: string, declared: Node)
    ensures StatementsSites(MapStatements(f, ss), action, declared) == StatementsSites(ss, action, declared)
    ensures StatementsUnlowered(MapStatements(f, ss)) == StatementsUnlowered(ss)
    decreases ss
  {
    if ss != [] {
      MapKeepsStatement(f, ss[0], action, declared);
      MapKeepsStatements(f, ss[1..], action, declared);
      assert MapStatements(f, ss)[1..] == MapStatements(f, ss[1..]);
    }
  }

  lemma {:induction false} MapKeepsStep(f: Expr -> Expr, step: Step, action: string, declared: Node)
    ensures StepSites(MapStep(f, step), action, declared) == StepSites(step, action, declared)
    ensures StepUnlowered(MapStep(f, step)) == StepUnlowered(step)
    decreases step
  {
    MapKeepsStatements(f, step.body, action, declared);
    if step.onFailure.OnFailure? {
      MapKeepsStatements(f, step.onFailure.body, action, declared);
    }
  }

  lemma {:induction false} MapKeepsSteps(f: Expr -> Expr, steps: seq<Step>, action: string, declared: Node)
    ensures StepsSites(MapSteps(f, steps), action, declared) == StepsSites(steps, action, declared)
    ensures StepsUnlowered(MapSteps(f, steps)) == StepsUnlowered(steps)
  {
    if steps != [] {
      MapKeepsStep(f, steps[0], action, declared);
      MapKeepsSteps(f, steps[1..], action, declared);
      assert MapSteps(f, steps)[1..] == MapSteps(f, steps[1..]);
    }
  }

  lemma {:induction false} MapKeepsSubflows(f: Expr -> Expr, subflows: seq<Subflow>, action: string, declared: Node)
    ensures SubflowsSites(MapSubflows(f, subflows), action, declared) == SubflowsSites(subflows, action, declared)
    ensures SubflowsUnlowered(MapSubflows(f, subflows)) == SubflowsUnlowered(subflows)
  {
    if subflows != [] {
      MapKeepsSteps(f, subflows[0].steps, action, declared);
      MapKeepsSubflows(f, subflows[1..], action, declared);
      assert MapSubflows(f, subflows)[1..] == MapSubflows(f, subflows[1..]);
    }
  }

  lemma {:induction false} SameRows(d: Document, d': Document, taskQueue: string, actions: seq<ActionDecl>)
    requires forall action, declared :: DocumentSites(d', action, declared) == DocumentSites(d, action, declared)
    ensures ActionRows(d', taskQueue, actions) == ActionRows(d, taskQueue, actions)
  {
    if actions != [] {
      SameRows(d, d', taskQueue, actions[1..]);
    }
  }

  lemma {:induction false} SameWorkerRows(d: Document, d': Document, workers: seq<WorkerDecl>)
    requires forall action, declared :: DocumentSites(d', action, declared) == DocumentSites(d, action, declared)
    ensures WorkerRows(d', workers) == WorkerRows(d, workers)
  {
    if workers != [] {
      SameRows(d, d', workers[0].name, workers[0].actions);
      SameWorkerRows(d, d', workers[1..]);
    }
  }

  /** Requirements and refusals derived from the unfolded document describe the folded one. */
  lemma {:induction false} FoldKeepsRequirementsAndRefusals(schemas: Schemas, d: Document)
    requires FoldedDocument(schemas, d).Ok?
    ensures var d' := FoldedDocument(schemas, d).value;
            && WorkerRows(d', d'.workers) == WorkerRows(d, d.workers)
            && FirstUnlowered(d') == FirstUnlowered(d)
  {
    NoConstErrorMeansAllResolve(schemas, d);
    var f := FoldWith(ConstTable(FirstDecls(d.consts), schemas), schemas);
    var d' := MapDocument(f, d);
    forall action, declared ensures DocumentSites(d', action, declared) == DocumentSites(d, action, declared) {
      MapKeepsSteps(f, d.steps, action, declared);
      MapKeepsSubflows(f, d.subflows, action, declared);
    }
    SameWorkerRows(d, d', d.workers);
    MapKeepsSteps(f, d.steps, "", None);
    MapKeepsSubflows(f, d.subflows, "", None);
  }
}
