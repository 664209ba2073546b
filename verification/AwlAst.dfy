/**
 The part of the AWL syntax tree that constant folding and the tree walks touch
 (crates/aion-awl/src/ast). Comments, doc lines and the spans that no modelled
 operation reads or writes are dropped; every expression position is kept.
 */
module AwlAst {
  import opened Wrappers

  datatype Span = Span(start: nat, end: nat, line: nat, column: nat)

  datatype DurationUnit = Seconds | Minutes | Hours | Days

  datatype BinaryOp = Or | And | Eq | Ne | Lt | Le | Gt | Ge | Concat

  datatype PredicateKind = IsEmpty | IsPresent | IsAbsent

  datatype Quantifier = Any | All

  /** A named argument `name: value`. */
  datatype Arg = Arg(name: string, value: Expr)

  datatype Expr =
    | Str(span: Span, text: string)
    | RawStr(span: Span, text: string)
    | Json(span: Span, body: string)
    | SchemaOf(span: Span, name: string, nameSpan: Span)
    | IntLit(span: Span, number: nat)
    | FloatLit(span: Span, lexeme: string)
    | BoolLit(span: Span, truth: bool)
    | Duration(span: Span, magnitude: nat, unit: DurationUnit)
    | List(span: Span, items: seq<Expr>)
    | Ref(span: Span, name: string)
    | Workflow(span: Span)
    | Variant(span: Span, name: string)
    | Record(span: Span, name: string, args: seq<Arg>)
    | Field(span: Span, base: Expr, name: string)
    | Index(span: Span, base: Expr, index: nat)
    | Accessor(span: Span, name: string)
    | Not(span: Span, operand: Expr)
    | Binary(span: Span, left: Expr, op: BinaryOp, right: Expr)
    | Predicate(span: Span, subject: Expr, kind: PredicateKind)
    | CollectionPredicate(span: Span, collection: Expr, quantifier: Quantifier, condition: Expr)

  /** A `const name = value` declaration. */
  datatype ConstDecl = ConstDecl(name: string, value: Expr)

  datatype ConfigLine = ConfigLine(node: Option<string>)

  datatype ActionDecl = ActionDecl(name: string, config: Option<ConfigLine>)

  datatype WorkerDecl = WorkerDecl(name: string, actions: seq<ActionDecl>)

  datatype RoutePayload = Args(args: seq<Arg>) | Value(value: Expr)

  datatype RouteTarget = RouteTarget(name: string, payload: Option<RoutePayload>)

  datatype PipeStage =
    | ActionStage(name: string)
    | FieldStage(name: string)
    | Combinator(kind: string, arg: Option<Expr>)

  datatype PipeEnd = Bind(name: string) | RouteEnd(target: RouteTarget)

  datatype ForkHeader = Collection(variable: string, collection: Expr, sequential: bool) | Named

  datatype Guard = When(condition: Expr) | Otherwise

  datatype OutcomeClause = OutcomeClause(name: string, guard: Guard, route: RouteTarget)

  datatype AfterRef = AfterRef(span: Span, name: string)

  datatype Statement =
    | Call(name: string, args: seq<Arg>, bind: Option<string>, config: Option<ConfigLine>)
    | Spawn(name: string, args: seq<Arg>)
    | Pipe(head: Expr, stages: seq<PipeStage>, end: PipeEnd)
    | Wait(signal: string, bind: Option<string>)
    | Sleep(magnitude: nat, unit: DurationUnit)
    | Fork(header: ForkHeader, body: seq<Statement>)
    | Loop(variable: string, seed: Expr, body: seq<Statement>, until: Option<Expr>, max: Option<Expr>)
    | RouteTo(target: RouteTarget)
    | SubStep(step: Step)
    | Distribute(variable: string, collection: Expr)
    | Collect(binding: string, into: string)

  /** The optional `on failure` block of a step. */
  datatype Compensation = NoCompensation | OnFailure(body: seq<Statement>)

  datatype Step = Step(
    name: string,
    after: seq<AfterRef>,
    body: seq<Statement>,
    onFailure: Compensation,
    outcomes: seq<OutcomeClause>,
    maxVisits: Option<Expr>)

  datatype Subflow = Subflow(name: string, steps: seq<Step>)

  datatype Document = Document(
    consts: seq<ConstDecl>,
    workers: seq<WorkerDecl>,
    subflows: seq<Subflow>,
    steps: seq<Step>)

  /** Replaces the outermost span only; nested spans keep pointing at the declaration. */
  function WithSpan(e: Expr, span: Span): Expr {
    e.(span := span)
  }
}
