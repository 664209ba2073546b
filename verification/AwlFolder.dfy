/**
 The memoising folder itself (crates/aion-awl/src/fold.rs): a table of resolved consts and a
 stack of the consts being resolved, both updated in place, followed by a rewriting of the
 step trees. Every method is proved against the table-free definitions.
 */
module AwlFolder {
  import opened Wrappers
  import opened Seqs
  import opened AwlAst
  import opened AwlConsts
  import opened AwlFoldExpr
  import opened AwlWalk
  import opened AwlFoldDocument

  /** The first declaration of `name`, if any. */
  function FindDecl(consts: seq<ConstDecl>, name: string): (r: Option<ConstDecl>)
    ensures r.Some? <==> name in FirstDecls(consts)
    ensures r.Some? ==> r.value in consts && r.value.name == name && r.value.value == FirstDecls(consts)[name]
  {
    if consts == [] then None
    else if consts[0].name == name then Some(consts[0])
    else FindDecl(consts[1..], name)
  }

  /** What rewriting a tree yields: the first error among its positions, or the rewritten tree. */
  ghost function Rewritten<T>(table: Table, schemas: Schemas, es: seq<Expr>, mapped: T): Result<T, FoldError> {
    var error := FirstError(table, schemas, es);
    if error.Some? then Err(error.value) else Ok(mapped)
  }

  /** The results so far followed by the results of the rest, if the rest succeeds. */
  ghost function Prepend<T>(done: seq<T>, rest: Result<seq<T>, FoldError>): Result<seq<T>, FoldError> {
    if rest.Ok? then Ok(done + rest.value) else rest
  }

  lemma PrependNothing<T>(rest: Result<seq<T>, FoldError>)
    ensures Prepend([], rest) == rest
  {
    if rest.Ok? {
      assert [] + rest.value == rest.value;
    }
  }

  lemma PrependOne<T>(done: seq<T>, item: T, rest: Result<seq<T>, FoldError>)
    ensures Prepend(done, Prepend([item], rest)) == Prepend(done + [item], rest)
  {
    if rest.Ok? {
      assert done + ([item] + rest.value) == done + [item] + rest.value;
    }
  }

  class Folder {
    const document: Document
    const schemas: Schemas
    var values: map<string, Expr>
    var visiting: seq<string>

    ghost function Decls(): Decls {
      FirstDecls(document.consts)
    }

    /**
     Every memo entry is the table-free value of the first declaration of its name; entries
     refer to entries only; and a const being resolved has no entry yet.
     */
    ghost predicate Valid()
      reads this
    {
      && Closed(Decls(), values.Keys)
      && forall n :: n in values ==> n !in visiting && ConstValue(Decls(), schemas, n) == Ok(values[n])
    }

    constructor (document: Document, schemas: Schemas)
      ensures this.document == document && this.schemas == schemas
      ensures values == map[] && visiting == [] && Valid()
    {
      this.document := document;
      this.schemas := schemas;
      values := map[];
      visiting := [];
    }

    /** Resolves one declaration; a name that already has a value is left alone. */
    method Resolve(decl: ConstDecl) returns (r: Result<(), FoldError>)
      requires Valid()
      requires decl.name in values
            || (decl.name in Decls() && Decls()[decl.name] == decl.value && decl.name !in visiting)
      modifies this
      ensures Valid() && visiting == old(visiting)
      ensures forall n :: n in old(values) ==> n in values && values[n] == old(values[n])
      ensures decl.name in old(values) ==> r.Ok? && values == old(values)
      ensures decl.name !in old(values) && r.Ok? ==>
                AwlConsts.Eval(Decls(), schemas, decl.value, Elements(visiting) + {decl.name}).Ok?
      ensures r.Err? ==>
                AwlConsts.Eval(Decls(), schemas, decl.value, Elements(visiting) + {decl.name}) == Err(r.error)
      ensures r.Ok? ==> decl.name in values
      decreases Decls().Keys - Elements(visiting), 0
    {
      if decl.name in values {
        return Ok(());
      }
      ghost var active := Elements(visiting);
      visiting := visiting + [decl.name];
      assert Elements(visiting) == active + {decl.name};
      var value := Eval(decl.value);
      visiting := visiting[..|visiting| - 1];
      if value.Err? {
        return Err(value.error);
      }
      EntryIsTableFree(Decls(), schemas, decl.name, values.Keys, active);
      values := values[decl.name := value.value];
      r := Ok(());
    }

    /** Evaluates a const value expression down to a literal tree, resolving consts on demand. */
    method Eval(expr: Expr) returns (r: Result<Expr, FoldError>)
      requires Valid()
      modifies this
      ensures Valid() && visiting == old(visiting)
      ensures forall n :: n in old(values) ==> n in values && values[n] == old(values[n])
      ensures r == AwlConsts.Eval(Decls(), schemas, expr, Elements(visiting))
      ensures r.Ok? ==> Refs(expr) <= values.Keys
      decreases Decls().Keys - Elements(visiting), 2, expr
    {
      match expr
      case Str(_, _) => r := Ok(expr);
      case IntLit(_, _) => r := Ok(expr);
      case FloatLit(_, _) => r := Ok(expr);
      case BoolLit(_, _) => r := Ok(expr);
      case Duration(_, _, _) => r := Ok(expr);
      case RawStr(span, text) => r := Ok(Str(span, text));
      case Json(span, body) => r := Ok(Str(span, body));
      case SchemaOf(span, name, nameSpan) =>
        if name in schemas {
          r := Ok(Str(span, schemas[name]));
        } else {
          r := Err(FoldError(nameSpan, SchemaUnavailable(name)));
        }
      case List(span, items) =>
        var values' := EvalItems(expr, items);
        r := if values'.Ok? then Ok(List(span, values'.value)) else Err(values'.error);
      case Binary(span, left, Concat, right) =>
        var a := Eval(left);
        if a.Err? {
          return a;
        }
        var b := Eval(right);
        if b.Err? {
          return b;
        }
        if a.value.Str? && b.value.Str? {
          r := Ok(Str(span, a.value.text + b.value.text));
        } else {
          r := Err(FoldError(span, ConcatOfNonStrings));
        }
      case Ref(span, name) =>
        r := ConstValueAt(name, span);
      case _ =>
        r := Err(FoldError(expr.span, NotCompileTime));
    }

    /** The items of a list literal, left to right, up to the first error. */
    method EvalItems(ghost parent: Expr, items: seq<Expr>) returns (r: Result<seq<Expr>, FoldError>)
      requires Valid() && parent.List? && parent.items == items
      modifies this
      ensures Valid() && visiting == old(visiting)
      ensures forall n :: n in old(values) ==> n in values && values[n] == old(values[n])
      ensures r == AwlConsts.EvalAll(Decls(), schemas, items, Elements(visiting))
      ensures r.Ok? ==> forall e :: e in items ==> Refs(e) <= values.Keys
      decreases Decls().Keys - Elements(visiting), 2, parent, 0
    {
      var done: seq<Expr> := [];
      ghost var active := Elements(visiting);
      PrependNothing(AwlConsts.EvalAll(Decls(), schemas, items, active));
      assert items[0..] == items;
      for i := 0 to |items|
        invariant Valid() && visiting == old(visiting)
        invariant forall n :: n in old(values) ==> n in values && values[n] == old(values[n])
        invariant forall e :: e in items[..i] ==> Refs(e) <= values.Keys
        invariant AwlConsts.EvalAll(Decls(), schemas, items, active)
               == Prepend(done, AwlConsts.EvalAll(Decls(), schemas, items[i..], active))
      {
        assert items[i..][1..] == items[i + 1..];
        var value := Eval(items[i]);
        if value.Err? {
          return Err(value.error);
        }
        PrependOne(done, value.value, AwlConsts.EvalAll(Decls(), schemas, items[i + 1..], active));
        done := done + [value.value];
        assert items[..i + 1] == items[..i] + [items[i]];
      }
      assert items[..|items|] == items;
      assert done + [] == done;
      r := Ok(done);
    }

    /** The value of the named const, re-spanned to the place that refers to it. */
    method ConstValueAt(name: string, span: Span) returns (r: Result<Expr, FoldError>)
      requires Valid()
      modifies this
      ensures Valid() && visiting == old(visiting)
      ensures forall n :: n in old(values) ==> n in values && values[n] == old(values[n])
      ensures r == AwlConsts.Eval(Decls(), schemas, Ref(span, name), Elements(visiting))
      ensures r.Ok? ==> name in values
      ensures name in old(values) ==> values == old(values) && r == Ok(WithSpan(values[name], span))
      decreases Decls().Keys - Elements(visiting), 1
    {
      ghost var active := Elements(visiting);
      if name in visiting {
        return Err(FoldError(span, SelfReference(name)));
      }
      if name !in values {
        var decl := FindDecl(document.consts, name);
        if decl.None? {
          return Err(FoldError(span, UnknownConst(name)));
        }
        var resolved := Resolve(decl.value);
        if resolved.Err? {
          return Err(resolved.error);
        }
      }
      MemoHitIsTableFree(Decls(), schemas, name, values.Keys, active);
      r := Ok(WithSpan(values[name], span));
    }

    // ----- rewriting expressions and trees, once every const is resolved -----

    /** Nothing is being resolved, so the table no longer changes. */
    ghost predicate Ready()
      reads this
    {
      Valid() && visiting == []
    }

    method FoldExpr(expr: Expr) returns (r: Result<Expr, FoldError>)
      requires Ready()
      modifies this
      ensures Ready() && values == old(values)
      ensures r == Folded(values, schemas, expr)
      decreases expr
    {
      match expr
      case RawStr(span, text) => r := Ok(Str(span, text));
      case Json(span, body) => r := Ok(Str(span, body));
      case SchemaOf(span, name, nameSpan) =>
        if name in schemas {
          r := Ok(Str(span, schemas[name]));
        } else {
          r := Err(FoldError(nameSpan, SchemaUnavailable(name)));
        }
      case Ref(span, name) =>
        if name in values {
          r := ConstValueAt(name, span);
        } else {
          r := Ok(expr);
        }
      case List(span, items) =>
        var items' := FoldItems(items);
        r := if items'.Ok? then Ok(List(span, items'.value)) else Err(items'.error);
      case Record(span, name, args) =>
        var args' := FoldArgs(args);
        r := if args'.Ok? then Ok(Record(span, name, args'.value)) else Err(args'.error);
      case Field(span, base, name) =>
        var base' := FoldExpr(base);
        r := if base'.Ok? then Ok(Field(span, base'.value, name)) else base';
      case Index(span, base, index) =>
        var base' := FoldExpr(base);
        r := if base'.Ok? then Ok(Index(span, base'.value, index)) else base';
      case Not(span, operand) =>
        var operand' := FoldExpr(operand);
        r := if operand'.Ok? then Ok(Not(span, operand'.value)) else operand';
      case Binary(span, left, op, right) =>
        var left' := FoldExpr(left);
        if left'.Err? {
          return left';
        }
        var right' := FoldExpr(right);
        r := if right'.Ok? then Ok(Binary(span, left'.value, op, right'.value)) else right';
      case Predicate(span, subject, kind) =>
        var subject' := FoldExpr(subject);
        r := if subject'.Ok? then Ok(Predicate(span, subject'.value, kind)) else subject';
      case CollectionPredicate(span, collection, quantifier, condition) =>
        var collection' := FoldExpr(collection);
        if collection'.Err? {
          return collection';
        }
        var condition' := FoldExpr(condition);
        r := if condition'.Ok?
             then Ok(CollectionPredicate(span, collection'.value, quantifier, condition'.value))
             else condition';
      case _ => r := Ok(expr);
    }

    method FoldItems(items: seq<Expr>) returns (r: Result<seq<Expr>, FoldError>)
      requires Ready()
      modifies this
      ensures Ready() && values == old(values)
      ensures r == FoldedAll(values, schemas, items)
      decreases items
    {
      var done: seq<Expr> := [];
      PrependNothing(FoldedAll(values, schemas, items));
      assert items[0..] == items;
      for i := 0 to |items|
        invariant Ready() && values == old(values)
        invariant FoldedAll(values, schemas, items) == Prepend(done, FoldedAll(values, schemas, items[i..]))
      {
        assert items[i..][1..] == items[i + 1..];
        var item := FoldExpr(items[i]);
        if item.Err? {
          return Err(item.error);
        }
        PrependOne(done, item.value, FoldedAll(values, schemas, items[i + 1..]));
        done := done + [item.value];
      }
      assert done + [] == done;
      r := Ok(done);
    }

    method FoldArgs(args: seq<Arg>) returns (r: Result<seq<Arg>, FoldError>)
      requires Ready()
      modifies this
      ensures Ready() && values == old(values)
      ensures r == FoldedArgs(values, schemas, args)
      decreases args
    {
      var done: seq<Arg> := [];
      PrependNothing(FoldedArgs(values, schemas, args));
      assert args[0..] == args;
      for i := 0 to |args|
        invariant Ready() && values == old(values)
        invariant FoldedArgs(values, schemas, args) == Prepend(done, FoldedArgs(values, schemas, args[i..]))
      {
        assert args[i..][1..] == args[i + 1..];
        var value := FoldExpr(args[i].value);
        if value.Err? {
          return Err(value.error);
        }
        PrependOne(done, Arg(args[i].name, value.value), FoldedArgs(values, schemas, args[i + 1..]));
        done := done + [Arg(args[i].name, value.value)];
      }
      assert done + [] == done;
      r := Ok(done);
    }

    // A tree is rewritten position by position; the first error stops it.

    method FoldOpt(expr: Option<Expr>) returns (r: Result<Option<Expr>, FoldError>)
      requires Ready()
      modifies this
      ensures Ready() && values == old(values)
      ensures r == Rewritten(values, schemas, OptExprs(expr), MapOpt(FoldWith(values, schemas), expr))
    {
      if expr.None? {
        return Ok(None);
      }
      var e := FoldExpr(expr.value);
      FoldedAtOne(values, schemas, expr.value);
      r := if e.Ok? then Ok(Some(e.value)) else Err(e.error);
    }

    method FoldRoute(target: RouteTarget) returns (r: Result<RouteTarget, FoldError>)
      requires Ready()
      modifies this
      ensures Ready() && values == old(values)
      ensures r == Rewritten(values, schemas, RouteExprs(target), MapRoute(FoldWith(values, schemas), target))
    {
      match target.payload
      case None => r := Ok(target);
      case Some(Args(args)) =>
        var args' := FoldArgs(args);
        FoldedArgsIsRewritten(values, schemas, args);
        r := if args'.Ok? then Ok(RouteTarget(target.name, Some(Args(args'.value)))) else Err(args'.error);
      case Some(Value(value)) =>
        var value' := FoldExpr(value);
        FoldedAtOne(values, schemas, value);
        r := if value'.Ok? then Ok(RouteTarget(target.name, Some(Value(value'.value)))) else Err(value'.error);
    }

    method FoldStages(stages: seq<PipeStage>) returns (r: Result<seq<PipeStage>, FoldError>)
      requires Ready()
      modifies this
      ensures Ready() && values == old(values)
      ensures r == Rewritten(values, schemas, StageExprs(stages), MapStages(FoldWith(values, schemas), stages))
    {
      ghost var table, f := values, FoldWith(values, schemas);
      assert stages[0..] == stages;
      var done: seq<PipeStage> := [];
      for i := 0 to |stages|
        invariant Ready() && values == old(values) == table
        invariant FirstError(table, schemas, StageExprs(stages))
               == FirstError(table, schemas, StageExprs(stages[i..]))
        invariant MapStages(f, stages) == done + MapStages(f, stages[i..])
      {
        assert stages[i..][1..] == stages[i + 1..];
        var stage := stages[i];
        FirstErrorConcat(
          table, schemas,
          if stage.Combinator? then OptExprs(stage.arg) else [], StageExprs(stages[i + 1..]));
        if stage.Combinator? {
          var arg := FoldOpt(stage.arg);
          if arg.Err? {
            return Err(arg.error);
          }
          stage := Combinator(stage.kind, arg.value);
        }
        AppendOne(done, stage, MapStages(f, stages[i + 1..]));
        done := done + [stage];
      }
      assert done + [] == done;
      r := Ok(done);
    }

    method FoldOutcomes(outcomes: seq<OutcomeClause>) returns (r: Result<seq<OutcomeClause>, FoldError>)
      requires Ready()
      modifies this
      ensures Ready() && values == old(values)
      ensures r == Rewritten(values, schemas, OutcomeExprs(outcomes), MapOutcomes(FoldWith(values, schemas), outcomes))
    {
      ghost var table, f := values, FoldWith(values, schemas);
      assert outcomes[0..] == outcomes;
      var done: seq<OutcomeClause> := [];
      for i := 0 to |outcomes|
        invariant Ready() && values == old(values) == table
        invariant FirstError(table, schemas, OutcomeExprs(outcomes))
               == FirstError(table, schemas, OutcomeExprs(outcomes[i..]))
        invariant MapOutcomes(f, outcomes) == done + MapOutcomes(f, outcomes[i..])
      {
        assert outcomes[i..][1..] == outcomes[i + 1..];
        var clause := outcomes[i];
        ghost var guardExprs := if clause.guard.When? then [clause.guard.condition] else [];
        FirstErrorConcat(table, schemas, guardExprs, RouteExprs(clause.route));
        FirstErrorConcat(
          table, schemas, guardExprs + RouteExprs(clause.route), OutcomeExprs(outcomes[i + 1..]));
        var guard := clause.guard;
        if guard.When? {
          var condition := FoldExpr(guard.condition);
          FoldedAtOne(values, schemas, guard.condition);
          if condition.Err? {
            return Err(condition.error);
          }
          guard := When(condition.value);
        }
        var route := FoldRoute(clause.route);
        if route.Err? {
          return Err(route.error);
        }
        AppendOne(done, OutcomeClause(clause.name, guard, route.value), MapOutcomes(f, outcomes[i + 1..]));
        done := done + [OutcomeClause(clause.name, guard, route.value)];
      }
      assert done + [] == done;
      r := Ok(done);
    }

    method FoldPipe(head: Expr, stages: seq<PipeStage>, end: PipeEnd) returns (r: Result<Statement, FoldError>)
      requires Ready()
      modifies this
      ensures Ready() && values == old(values)
      ensures r == Rewritten(values, schemas, StatementExprs(Pipe(head, stages, end)),
                             MapStatement(FoldWith(values, schemas), Pipe(head, stages, end)))
    {
      FirstErrorConcat(values, schemas, [head], StageExprs(stages));
      FirstErrorConcat(values, schemas, [head] + StageExprs(stages), EndExprs(end));
      var head' := FoldExpr(head);
      FoldedAtOne(values, schemas, head);
      if head'.Err? {
        return Err(head'.error);
      }
      var stages' := FoldStages(stages);
      if stages'.Err? {
        return Err(stages'.error);
      }
      var end' := end;
      if end.RouteEnd? {
        var target := FoldRoute(end.target);
        if target.Err? {
          return Err(target.error);
        }
        end' := RouteEnd(target.value);
      }
      r := Ok(Pipe(head'.value, stages'.value, end'));
    }

    method FoldFork(header: ForkHeader, body: seq<Statement>) returns (r: Result<Statement, FoldError>)
      requires Ready()
      modifies this
      ensures Ready() && values == old(values)
      ensures r == Rewritten(values, schemas, StatementExprs(Fork(header, body)),
                             MapStatement(FoldWith(values, schemas), Fork(header, body)))
      decreases body, 1
    {
      FirstErrorConcat(values, schemas, HeaderExprs(header), StatementsExprs(body));
      var header' := header;
      if header.Collection? {
        var collection := FoldExpr(header.collection);
        FoldedAtOne(values, schemas, header.collection);
        if collection.Err? {
          return Err(collection.error);
        }
        header' := header.(collection := collection.value);
      }
      var body' := FoldStatements(body);
      r := if body'.Ok? then Ok(Fork(header', body'.value)) else Err(body'.error);
    }

    method FoldLoop(
      variable: string, seed: Expr, body: seq<Statement>, until: Option<Expr>, max: Option<Expr>)
      returns (r: Result<Statement, FoldError>)
      requires Ready()
      modifies this
      ensures Ready() && values == old(values)
      ensures r == Rewritten(values, schemas, StatementExprs(Loop(variable, seed, body, until, max)),
                             MapStatement(FoldWith(values, schemas), Loop(variable, seed, body, until, max)))
      decreases body, 1
    {
      FirstErrorConcat(values, schemas, [seed], StatementsExprs(body));
      FirstErrorConcat(values, schemas, [seed] + StatementsExprs(body), OptExprs(until));
      FirstErrorConcat(values, schemas, [seed] + StatementsExprs(body) + OptExprs(until), OptExprs(max));
      var seed' := FoldExpr(seed);
      FoldedAtOne(values, schemas, seed);
      if seed'.Err? {
        return Err(seed'.error);
      }
      var body' := FoldStatements(body);
      if body'.Err? {
        return Err(body'.error);
      }
      var until' := FoldOpt(until);
      if until'.Err? {
        return Err(until'.error);
      }
      var max' := FoldOpt(max);
      r := if max'.Ok?
           then Ok(Loop(variable, seed'.value, body'.value, until'.value, max'.value))
           else Err(max'.error);
    }

    method FoldStatement(statement: Statement) returns (r: Result<Statement, FoldError>)
      requires Ready()
      modifies this
      ensures Ready() && values == old(values)
      ensures r == Rewritten(values, schemas, StatementExprs(statement),
                             MapStatement(FoldWith(values, schemas), statement))
      decreases statement, 0
    {
      match statement
      case Call(name, args, bind, config) =>
        var args' := FoldArgs(args);
        FoldedArgsIsRewritten(values, schemas, args);
        r := if args'.Ok? then Ok(Call(name, args'.value, bind, config)) else Err(args'.error);
      case Spawn(name, args) =>
        var args' := FoldArgs(args);
        FoldedArgsIsRewritten(values, schemas, args);
        r := if args'.Ok? then Ok(Spawn(name, args'.value)) else Err(args'.error);
      case Pipe(head, stages, end) => r := FoldPipe(head, stages, end);
      case Fork(header, body) => r := FoldFork(header, body);
      case Loop(variable, seed, body, until, max) => r := FoldLoop(variable, seed, body, until, max);
      case RouteTo(target) =>
        var target' := FoldRoute(target);
        r := if target'.Ok? then Ok(RouteTo(target'.value)) else Err(target'.error);
      case SubStep(step) =>
        var step' := FoldStep(step);
        r := if step'.Ok? then Ok(SubStep(step'.value)) else Err(step'.error);
      case Distribute(variable, collection) =>
        var collection' := FoldExpr(collection);
        FoldedAtOne(values, schemas, collection);
        r := if collection'.Ok? then Ok(Distribute(variable, collection'.value)) else Err(collection'.error);
      case _ => r := Ok(statement);
    }

    method FoldStatements(statements: seq<Statement>) returns (r: Result<seq<Statement>, FoldError>)
      requires Ready()
      modifies this
      ensures Ready() && values == old(values)
      ensures r == Rewritten(values, schemas, StatementsExprs(statements),
                             MapStatements(FoldWith(values, schemas), statements))
      decreases statements, 0
    {
      ghost var table, f := values, FoldWith(values, schemas);
      assert statements[0..] == statements;
      var done: seq<Statement> := [];
      for i := 0 to |statements|
        invariant Ready() && values == old(values) == table
        invariant FirstError(table, schemas, StatementsExprs(statements))
               == FirstError(table, schemas, StatementsExprs(statements[i..]))
        invariant MapStatements(f, statements) == done + MapStatements(f, statements[i..])
      {
        assert statements[i..][1..] == statements[i + 1..];
        FirstErrorConcat(table, schemas, StatementExprs(statements[i]), StatementsExprs(statements[i + 1..]));
        var statement := FoldStatement(statements[i]);
        if statement.Err? {
          return Err(statement.error);
        }
        AppendOne(done, statement.value, MapStatements(f, statements[i + 1..]));
        done := done + [statement.value];
      }
      assert done + [] == done;
      r := Ok(done);
    }

    /** Body first, then the compensation block, the outcome clauses and the visit bound. */
    method FoldStep(step: Step) returns (r: Result<Step, FoldError>)
      requires Ready()
      modifies this
      ensures Ready() && values == old(values)
      ensures r == Rewritten(values, schemas, StepExprs(step), MapStep(FoldWith(values, schemas), step))
      decreases step, 0
    {
      ghost var bodyExprs := StatementsExprs(step.body);
      ghost var failureExprs := if step.onFailure.OnFailure? then StatementsExprs(step.onFailure.body) else [];
      ghost var outcomeExprs := OutcomeExprs(step.outcomes);
      FirstErrorConcat(values, schemas, bodyExprs, failureExprs);
      FirstErrorConcat(values, schemas, bodyExprs + failureExprs, outcomeExprs);
      FirstErrorConcat(values, schemas, bodyExprs + failureExprs + outcomeExprs, OptExprs(step.maxVisits));
      var body := FoldStatements(step.body);
      if body.Err? {
        return Err(body.error);
      }
      var onFailure := step.onFailure;
      if onFailure.OnFailure? {
        var compensation := FoldStatements(onFailure.body);
        if compensation.Err? {
          return Err(compensation.error);
        }
        onFailure := OnFailure(compensation.value);
      }
      var outcomes := FoldOutcomes(step.outcomes);
      if outcomes.Err? {
        return Err(outcomes.error);
      }
      var maxVisits := FoldOpt(step.maxVisits);
      if maxVisits.Err? {
        return Err(maxVisits.error);
      }
      r := Ok(Step(step.name, step.after, body.value, onFailure, outcomes.value, maxVisits.value));
    }

    method FoldSteps(steps: seq<Step>) returns (r: Result<seq<Step>, FoldError>)
      requires Ready()
      modifies this
      ensures Ready() && values == old(values)
      ensures r == Rewritten(values, schemas, StepsExprs(steps), MapSteps(FoldWith(values, schemas), steps))
    {
      ghost var table, f := values, FoldWith(values, schemas);
      assert steps[0..] == steps;
      var done: seq<Step> := [];
      for i := 0 to |steps|
        invariant Ready() && values == old(values) == table
        invariant FirstError(table, schemas, StepsExprs(steps))
               == FirstError(table, schemas, StepsExprs(steps[i..]))
        invariant MapSteps(f, steps) == done + MapSteps(f, steps[i..])
      {
        assert steps[i..][1..] == steps[i + 1..];
        FirstErrorConcat(table, schemas, StepExprs(steps[i]), StepsExprs(steps[i + 1..]));
        var step := FoldStep(steps[i]);
        if step.Err? {
          return Err(step.error);
        }
        AppendOne(done, step.value, MapSteps(f, steps[i + 1..]));
        done := done + [step.value];
      }
      assert done + [] == done;
      r := Ok(done);
    }

    method FoldSubflows(subflows: seq<Subflow>) returns (r: Result<seq<Subflow>, FoldError>)
      requires Ready()
      modifies this
      ensures Ready() && values == old(values)
      ensures r == Rewritten(values, schemas, SubflowsExprs(subflows), MapSubflows(FoldWith(values, schemas), subflows))
    {
      ghost var table, f := values, FoldWith(values, schemas);
      assert subflows[0..] == subflows;
      var done: seq<Subflow> := [];
      for i := 0 to |subflows|
        invariant Ready() && values == old(values) == table
        invariant FirstError(table, schemas, SubflowsExprs(subflows))
               == FirstError(table, schemas, SubflowsExprs(subflows[i..]))
        invariant MapSubflows(f, subflows) == done + MapSubflows(f, subflows[i..])
      {
        assert subflows[i..][1..] == subflows[i + 1..];
        FirstErrorConcat(table, schemas, StepsExprs(subflows[i].steps), SubflowsExprs(subflows[i + 1..]));
        var steps := FoldSteps(subflows[i].steps);
        if steps.Err? {
          return Err(steps.error);
        }
        AppendOne(done, Subflow(subflows[i].name, steps.value), MapSubflows(f, subflows[i + 1..]));
        done := done + [Subflow(subflows[i].name, steps.value)];
      }
      assert done + [] == done;
      r := Ok(done);
    }

    /** Resolves the declarations in source order; the table ends up independent of that order. */
    method ResolveAll() returns (r: Result<(), FoldError>)
      requires Valid() && visiting == [] && values == map[]
      modifies this
      ensures Ready()
      ensures forall c :: c in document.consts ==> c.name in Decls()
      ensures var error := FirstConstError(Decls(), schemas, document.consts);
              r == if error.Some? then Err(error.value) else Ok(())
      ensures r.Ok? ==> AllResolve(Decls(), schemas) && values == ConstTable(Decls(), schemas)
    {
      NoConstErrorMeansAllResolve(schemas, document);
      var consts := document.consts;
      assert consts[0..] == consts;
      for i := 0 to |consts|
        invariant Ready()
        invariant forall c :: c in consts[..i] ==> c.name in values
        invariant FirstConstError(Decls(), schemas, consts) == FirstConstError(Decls(), schemas, consts[i..])
      {
        assert consts[i..][1..] == consts[i + 1..];
        FirstOccurrence(consts, i);
        assert Elements(visiting) + {consts[i].name} == {consts[i].name};
        var resolved := Resolve(consts[i]);
        if resolved.Err? {
          return Err(resolved.error);
        }
        assert consts[..i + 1] == consts[..i] + [consts[i]];
      }
      assert consts[..|consts|] == consts;
      FirstDeclsNames(consts);
      assert values == ConstTable(Decls(), schemas);
      r := Ok(());
    }
  }

  /** Resolves every const, then rewrites the steps and the subflow steps. */
  method FoldDocument(document: Document, schemas: Schemas) returns (r: Result<Document, FoldError>)
    ensures r == FoldedDocument(schemas, document)
  {
    var folder := new Folder(document, schemas);
    var resolved := folder.ResolveAll();
    if resolved.Err? {
      return Err(resolved.error);
    }
    FirstErrorConcat(folder.values, schemas, StepsExprs(document.steps), SubflowsExprs(document.subflows));
    var steps := folder.FoldSteps(document.steps);
    if steps.Err? {
      return Err(steps.error);
    }
    var subflows := folder.FoldSubflows(document.subflows);
    if subflows.Err? {
      return Err(subflows.error);
    }
    r := Ok(document.(steps := steps.value, subflows := subflows.value));
  }

  /** A declaration either repeats an earlier name or is the first of its name. */
  lemma {:induction false} FirstOccurrence(consts: seq<ConstDecl>, i: nat)
    requires i < |consts|
    ensures consts[i].name in FirstDecls(consts)
    ensures (exists c :: c in consts[..i] && c.name == consts[i].name)
         || FirstDecls(consts)[consts[i].name] == consts[i].value
  {
    if i > 0 {
      FirstOccurrence(consts[1..], i - 1);
      assert consts[..i] == [consts[0]] + consts[1..][..i - 1];
    }
  }

  lemma AppendOne<T>(done: seq<T>, item: T, rest: seq<T>)
    ensures done + ([item] + rest) == done + [item] + rest
  {
  }

  lemma FoldedAtOne(table: Table, schemas: Schemas, e: Expr)
    ensures Folded(table, schemas, e) == Rewritten(table, schemas, [e], FoldWith(table, schemas)(e))
  {
    var rest: seq<Expr> := [e][1..];
    assert FirstError(table, schemas, rest).None?;
    assert FirstError(table, schemas, [e])
        == if Folded(table, schemas, e).Err? then Some(Folded(table, schemas, e).error)
           else FirstError(table, schemas, rest);
  }

  lemma {:induction false} FoldedArgsIsRewritten(table: Table, schemas: Schemas, args: seq<Arg>)
    ensures FoldedArgs(table, schemas, args)
         == Rewritten(table, schemas, ArgExprs(args), MapArgs(FoldWith(table, schemas), args))
  {
    if args != [] {
      FoldedArgsIsRewritten(table, schemas, args[1..]);
      FirstErrorConcat(table, schemas, [args[0].value], ArgExprs(args[1..]));
    }
  }

  /** A const whose value refers to resolved consts only has a value of its own, whatever is active. */
  lemma EntryIsTableFree(decls: Decls, schemas: Schemas, name: string, known: set<string>, active: set<string>)
    requires name in decls && Closed(decls, known) && Refs(decls[name]) <= known
    requires name !in known && active !! known && name !in active
    ensures AwlConsts.Eval(decls, schemas, decls[name], active + {name}) == ConstValue(decls, schemas, name)
  {
    var names := known + {name};
    assert (active + {name}) * names == {name} == {name} * names;
    EvalIgnoresUnrelatedActive(decls, schemas, decls[name], names, active + {name}, {name});
  }

  /** Reading a memo entry gives what evaluating the reference in place would give. */
  lemma MemoHitIsTableFree(decls: Decls, schemas: Schemas, name: string, known: set<string>, active: set<string>)
    requires name in known && Closed(decls, known) && active !! known
    ensures AwlConsts.Eval(decls, schemas, decls[name], active + {name}) == ConstValue(decls, schemas, name)
  {
    assert (active + {name}) * known == {name} == {name} * known;
    EvalIgnoresUnrelatedActive(decls, schemas, decls[name], known, active + {name}, {name});
  }
}
