/**
 Folding one expression: const references are substituted and the compile-time literal
 forms become plain strings. Results: meaning is preserved, the result is in normal form,
 and normal forms are left alone.
 */
module AwlFoldExpr {
  import opened Wrappers
  import opened AwlAst
  import opened AwlConsts
  import opened AwlSemantics

  type Table = map<string, Expr>

  function Folded(table: Table, schemas: Schemas, e: Expr): (r: Result<Expr, FoldError>)
    decreases e
  {
    match e
    case RawStr(span, text) => Ok(Str(span, text))
    case Json(span, body) => Ok(Str(span, body))
    case SchemaOf(span, name, nameSpan) =>
      if name in schemas then Ok(Str(span, schemas[name]))
      else Err(FoldError(nameSpan, SchemaUnavailable(name)))
    case Ref(span, name) => if name in table then Ok(WithSpan(table[name], span)) else Ok(e)
    case List(span, items) =>
      var items' :- FoldedAll(table, schemas, items);
      Ok(List(span, items'))
    case Record(span, name, args) =>
      var args' :- FoldedArgs(table, schemas, args);
      Ok(Record(span, name, args'))
    case Field(span, base, name) =>
      var base' :- Folded(table, schemas, base);
      Ok(Field(span, base', name))
    case Index(span, base, index) =>
      var base' :- Folded(table, schemas, base);
      Ok(Index(span, base', index))
    case Not(span, operand) =>
      var operand' :- Folded(table, schemas, operand);
      Ok(Not(span, operand'))
    case Binary(span, left, op, right) =>
      var left' :- Folded(table, schemas, left);
      var right' :- Folded(table, schemas, right);
      Ok(Binary(span, left', op, right'))
    case Predicate(span, subject, kind) =>
      var subject' :- Folded(table, schemas, subject);
      Ok(Predicate(span, subject', kind))
    case CollectionPredicate(span, collection, quantifier, condition) =>
      var collection' :- Folded(table, schemas, collection);
      var condition' :- Folded(table, schemas, condition);
      Ok(CollectionPredicate(span, collection', quantifier, condition'))
    case _ => Ok(e)
  }

  function FoldedAll(table: Table, schemas: Schemas, es: seq<Expr>): (r: Result<seq<Expr>, FoldError>)
    decreases es
  {
    if es == [] then Ok([])
    else
      var first :- Folded(table, schemas, es[0]);
      var rest :- FoldedAll(table, schemas, es[1..]);
      Ok([first] + rest)
  }

  function FoldedArgs(table: Table, schemas: Schemas, args: seq<Arg>): (r: Result<seq<Arg>, FoldError>)
    decreases args
  {
    if args == [] then Ok([])
    else
      var first :- Folded(table, schemas, args[0].value);
      var rest :- FoldedArgs(table, schemas, args[1..]);
      Ok([Arg(args[0].name, first)] + rest)
  }

  // ----- normal form -----

  /** No compile-time form and no reference to a const of `names` is left, at any depth. */
  ghost predicate Normal(names: set<string>, e: Expr)
    decreases e
  {
    match e
    case RawStr(_, _) => false
    case Json(_, _) => false
    case SchemaOf(_, _, _) => false
    case Ref(_, name) => name !in names
    case List(_, items) => forall e' | e' in items :: Normal(names, e')
    case Record(_, _, args) => forall a | a in args :: Normal(names, a.value)
    case Field(_, base, _) => Normal(names, base)
    case Index(_, base, _) => Normal(names, base)
    case Not(_, operand) => Normal(names, operand)
    case Binary(_, left, _, right) => Normal(names, left) && Normal(names, right)
    case Predicate(_, subject, _) => Normal(names, subject)
    case CollectionPredicate(_, collection, _, condition) => Normal(names, collection) && Normal(names, condition)
    case _ => true
  }

  ghost predicate LiteralTable(table: Table) {
    forall n :: n in table ==> Literal(table[n])
  }

  lemma {:induction false} LiteralIsNormal(names: set<string>, e: Expr)
    requires Literal(e)
    ensures Normal(names, e)
    decreases e
  {
    match e
    case List(_, items) =>
      forall e' | e' in items ensures Normal(names, e') {
        LiteralIsNormal(names, e');
      }
    case _ =>
  }

  lemma {:induction false} FoldedIsNormal(table: Table, schemas: Schemas, e: Expr)
    requires LiteralTable(table)
    requires Folded(table, schemas, e).Ok?
    ensures Normal(table.Keys, Folded(table, schemas, e).value)
    decreases e
  {
    match e
    case Ref(span, name) =>
      if name in table {
        LiteralIsNormal(table.Keys, WithSpan(table[name], span));
      }
    case List(_, items) => FoldedAllIsNormal(table, schemas, items);
    case Record(_, _, args) => FoldedArgsIsNormal(table, schemas, args);
    case Field(_, base, _) => FoldedIsNormal(table, schemas, base);
    case Index(_, base, _) => FoldedIsNormal(table, schemas, base);
    case Not(_, operand) => FoldedIsNormal(table, schemas, operand);
    case Binary(_, left, _, right) =>
      FoldedIsNormal(table, schemas, left);
      FoldedIsNormal(table, schemas, right);
    case Predicate(_, subject, _) => FoldedIsNormal(table, schemas, subject);
    case CollectionPredicate(_, collection, _, condition) =>
      FoldedIsNormal(table, schemas, collection);
      FoldedIsNormal(table, schemas, condition);
    case _ =>
  }

  lemma {:induction false} FoldedAllIsNormal(table: Table, schemas: Schemas, es: seq<Expr>)
    requires LiteralTable(table)
    requires FoldedAll(table, schemas, es).Ok?
    ensures forall e :: e in FoldedAll(table, schemas, es).value ==> Normal(table.Keys, e)
    decreases es
  {
    if es == [] {
    } else {
      FoldedIsNormal(table, schemas, es[0]);
      FoldedAllIsNormal(table, schemas, es[1..]);
    }
  }

  lemma {:induction false} FoldedArgsIsNormal(table: Table, schemas: Schemas, args: seq<Arg>)
    requires LiteralTable(table)
    requires FoldedArgs(table, schemas, args).Ok?
    ensures forall a :: a in FoldedArgs(table, schemas, args).value ==> Normal(table.Keys, a.value)
    decreases args
  {
    if args == [] {
    } else {
      FoldedIsNormal(table, schemas, args[0].value);
      FoldedArgsIsNormal(table, schemas, args[1..]);
    }
  }

  /** Folding leaves an expression alone exactly when it is in normal form. */
  lemma {:induction false} FoldedFixesNormal(table: Table, schemas: Schemas, e: Expr)
    requires Normal(table.Keys, e)
    ensures Folded(table, schemas, e) == Ok(e)
    decreases e
  {
    match e
    case List(_, items) => FoldedAllFixesNormal(table, schemas, items);
    case Record(_, _, args) => FoldedArgsFixesNormal(table, schemas, args);
    case Field(_, base, _) => FoldedFixesNormal(table, schemas, base);
    case Index(_, base, _) => FoldedFixesNormal(table, schemas, base);
    case Not(_, operand) => FoldedFixesNormal(table, schemas, operand);
    case Binary(_, left, _, right) =>
      FoldedFixesNormal(table, schemas, left);
      FoldedFixesNormal(table, schemas, right);
    case Predicate(_, subject, _) => FoldedFixesNormal(table, schemas, subject);
    case CollectionPredicate(_, collection, _, condition) =>
      FoldedFixesNormal(table, schemas, collection);
      FoldedFixesNormal(table, schemas, condition);
    case _ =>
  }

  lemma {:induction false} FoldedAllFixesNormal(table: Table, schemas: Schemas, es: seq<Expr>)
    requires forall e :: e in es ==> Normal(table.Keys, e)
    ensures FoldedAll(table, schemas, es) == Ok(es)
    decreases es
  {
    if es == [] {
    } else {
      FoldedFixesNormal(table, schemas, es[0]);
      FoldedAllFixesNormal(table, schemas, es[1..]);
      assert [es[0]] + es[1..] == es;
    }
  }

  lemma {:induction false} FoldedArgsFixesNormal(table: Table, schemas: Schemas, args: seq<Arg>)
    requires forall a :: a in args ==> Normal(table.Keys, a.value)
    ensures FoldedArgs(table, schemas, args) == Ok(args)
    decreases args
  {
    if args == [] {
    } else {
      FoldedFixesNormal(table, schemas, args[0].value);
      FoldedArgsFixesNormal(table, schemas, args[1..]);
      assert [args[0]] + args[1..] == args;
    }
  }

  // ----- meaning -----

  /** An environment that solves the declarations: each const means what its declaration means. */
  ghost predicate ConstEnv(rt: Runtime, schemas: Schemas, decls: Decls, env: Env) {
    && env.Keys == decls.Keys
    && forall n :: n in decls ==> ValueOf(rt, schemas, decls[n], env, None) == Some(env[n])
  }

  /** Literals have one value, whatever the bindings. */
  ghost function LiteralValue(e: Expr): Val
    requires Literal(e)
    decreases e
  {
    match e
    case Str(_, text) => VStr(text)
    case IntLit(_, number) => VInt(number)
    case FloatLit(_, lexeme) => VFloat(lexeme)
    case BoolLit(_, truth) => VBool(truth)
    case Duration(_, magnitude, unit) => VDuration(magnitude, unit)
    case List(_, items) => VList(LiteralValues(items))
  }

  ghost function LiteralValues(es: seq<Expr>): (vs: seq<Val>)
    requires forall e :: e in es ==> Literal(e)
    ensures |vs| == |es|
    decreases es
  {
    if es == [] then [] else [LiteralValue(es[0])] + LiteralValues(es[1..])
  }

  ghost function AllSome(vs: seq<Val>): (ms: seq<Meaning>)
    ensures |ms| == |vs|
    ensures forall i :: 0 <= i < |vs| ==> ms[i] == Some(vs[i])
  {
    if vs == [] then [] else [Some(vs[0])] + AllSome(vs[1..])
  }

  lemma GatherAllSome(vs: seq<Val>)
    ensures Gather(AllSome(vs)) == Some(VList(vs))
  {
    assert Gather(AllSome(vs)).value.items == vs;
  }

  lemma LiteralsCons(e: Expr, es: seq<Expr>)
    requires Literal(e) && forall e' :: e' in es ==> Literal(e')
    ensures forall e' :: e' in [e] + es ==> Literal(e')
    ensures AllSome(LiteralValues([e] + es)) == [Some(LiteralValue(e))] + AllSome(LiteralValues(es))
  {
    assert ([e] + es)[1..] == es;
    assert LiteralValues([e] + es) == [LiteralValue(e)] + LiteralValues(es);
    assert ([LiteralValue(e)] + LiteralValues(es))[1..] == LiteralValues(es);
  }

  lemma {:induction false} LiteralMeans(rt: Runtime, schemas: Schemas, e: Expr, env: Env, item: Meaning)
    requires Literal(e)
    ensures ValueOf(rt, schemas, e, env, item) == Some(LiteralValue(e))
    decreases e
  {
    match e
    case List(_, items) =>
      LiteralsMean(rt, schemas, items, env, item);
      GatherAllSome(LiteralValues(items));
    case _ =>
  }

  lemma {:induction false} LiteralsMean(rt: Runtime, schemas: Schemas, es: seq<Expr>, env: Env, item: Meaning)
    requires forall e :: e in es ==> Literal(e)
    ensures ValuesOf(rt, schemas, es, env, item) == AllSome(LiteralValues(es))
    decreases es
  {
    if es == [] {
    } else {
      LiteralMeans(rt, schemas, es[0], env, item);
      LiteralsMean(rt, schemas, es[1..], env, item);
      LiteralsCons(es[0], es[1..]);
      assert [es[0]] + es[1..] == es;
    }
  }

  /** `env` gives every const that resolves the value its folded form denotes. */
  ghost predicate TableEnv(schemas: Schemas, decls: Decls, env: Env) {
    && env.Keys == decls.Keys
    && AllResolve(decls, schemas)
    && forall n :: n in decls ==>
         Literal(ConstValue(decls, schemas, n).value) && env[n] == LiteralValue(ConstValue(decls, schemas, n).value)
  }

  lemma WithSpanMeansTheSame(e: Expr, span: Span)
    requires Literal(e)
    ensures Literal(WithSpan(e, span)) && LiteralValue(WithSpan(e, span)) == LiteralValue(e)
  {
  }

  /**
   Evaluation computes the value the declarations give, in every environment that either
   solves them or is read off the table.
   */
  lemma {:induction false} EvalMeansSource(
    rt: Runtime, schemas: Schemas, decls: Decls, env: Env, e: Expr, active: set<string>)
    requires JoinsStrings(rt) && (ConstEnv(rt, schemas, decls, env) || TableEnv(schemas, decls, env))
    requires Eval(decls, schemas, e, active).Ok?
    ensures Literal(Eval(decls, schemas, e, active).value)
    ensures ValueOf(rt, schemas, e, env, None) == Some(LiteralValue(Eval(decls, schemas, e, active).value))
    decreases decls.Keys - active, e
  {
    EvalGivesLiteral(decls, schemas, e, active);
    match e
    case List(_, items) =>
      EvalAllMeansSource(rt, schemas, decls, env, items, active);
      GatherAllSome(LiteralValues(EvalAll(decls, schemas, items, active).value));
    case Binary(_, left, Concat, right) =>
      EvalMeansSource(rt, schemas, decls, env, left, active);
      EvalMeansSource(rt, schemas, decls, env, right, active);
    case Ref(span, name) =>
      EvalMeansSource(rt, schemas, decls, env, decls[name], active + {name});
      EvalWithFewerActive(decls, schemas, decls[name], active + {name}, {name});
      WithSpanMeansTheSame(Eval(decls, schemas, decls[name], active + {name}).value, span);
    case _ =>
  }

  lemma {:induction false} EvalAllMeansSource(
    rt: Runtime, schemas: Schemas, decls: Decls, env: Env, es: seq<Expr>, active: set<string>)
    requires JoinsStrings(rt) && (ConstEnv(rt, schemas, decls, env) || TableEnv(schemas, decls, env))
    requires EvalAll(decls, schemas, es, active).Ok?
    ensures forall v :: v in EvalAll(decls, schemas, es, active).value ==> Literal(v)
    ensures ValuesOf(rt, schemas, es, env, None) == AllSome(LiteralValues(EvalAll(decls, schemas, es, active).value))
    decreases decls.Keys - active, es
  {
    EvalAllGivesLiterals(decls, schemas, es, active);
    if es == [] {
    } else {
      EvalMeansSource(rt, schemas, decls, env, es[0], active);
      EvalAllMeansSource(rt, schemas, decls, env, es[1..], active);
      LiteralsCons(Eval(decls, schemas, es[0], active).value, EvalAll(decls, schemas, es[1..], active).value);
    }
  }

  /** The values the table denotes. */
  ghost function TableValues(schemas: Schemas, decls: Decls): (env: Env)
    requires AllResolve(decls, schemas)
  {
    map n | n in decls :: ConstMeaning(schemas, decls, n)
  }

  ghost function ConstMeaning(schemas: Schemas, decls: Decls, n: string): Val
    requires n in decls && ConstValue(decls, schemas, n).Ok?
  {
    EvalGivesLiteral(decls, schemas, decls[n], {n});
    LiteralValue(ConstValue(decls, schemas, n).value)
  }

  /** The declarations have exactly one solution: the values the table denotes. */
  lemma {:induction false} ConstEnvExists(rt: Runtime, schemas: Schemas, decls: Decls) returns (env: Env)
    requires JoinsStrings(rt) && AllResolve(decls, schemas)
    ensures ConstEnv(rt, schemas, decls, env)
    ensures forall env' :: ConstEnv(rt, schemas, decls, env') ==> env' == env
  {
    env := TableValues(schemas, decls);
    forall n | n in decls ensures Literal(ConstValue(decls, schemas, n).value) {
      EvalGivesLiteral(decls, schemas, decls[n], {n});
    }
    assert TableEnv(schemas, decls, env);
    forall n | n in decls ensures ValueOf(rt, schemas, decls[n], env, None) == Some(env[n]) {
      EvalMeansSource(rt, schemas, decls, env, decls[n], {n});
    }
    forall env' | ConstEnv(rt, schemas, decls, env') ensures env' == env {
      ConstEnvIsTable(rt, schemas, decls, env');
    }
  }

  lemma {:induction false} ConstEnvIsTable(rt: Runtime, schemas: Schemas, decls: Decls, env: Env)
    requires JoinsStrings(rt) && AllResolve(decls, schemas) && ConstEnv(rt, schemas, decls, env)
    ensures env == TableValues(schemas, decls)
  {
    forall n | n in decls ensures env[n] == ConstMeaning(schemas, decls, n) {
      EvalMeansSource(rt, schemas, decls, env, decls[n], {n});
    }
  }

  /** `consts` holds the value of every entry of the table. */
  ghost predicate TableMeans(table: Table, consts: Env) {
    && table.Keys == consts.Keys
    && forall n :: n in table ==> Literal(table[n]) && consts[n] == LiteralValue(table[n])
  }

  lemma {:induction false} FoldedMeansTable(
    rt: Runtime, schemas: Schemas, table: Table, consts: Env, e: Expr, env: Env, item: Meaning)
    requires TableMeans(table, consts)
    requires Folded(table, schemas, e).Ok?
    ensures ValueOf(rt, schemas, Folded(table, schemas, e).value, env, item)
         == ValueOf(rt, schemas, e, env + consts, item)
    decreases e, 2
  {
    match e
    case Ref(span, name) => FoldedRefMeansTable(rt, schemas, table, consts, span, name, env, item);
    case List(_, items) => FoldedAllMeansTable(rt, schemas, table, consts, items, env, item);
    case Record(_, _, args) => FoldedArgsMeansTable(rt, schemas, table, consts, args, env, item);
    case _ =>
      if HasOperands(e) {
        FoldedOperandsMeanTable(rt, schemas, table, consts, e, env, item);
      }
  }

  ghost predicate HasOperands(e: Expr) {
    HasOneOperand(e) || e.Binary? || e.CollectionPredicate?
  }

  ghost predicate HasOneOperand(e: Expr) {
    e.Field? || e.Index? || e.Not? || e.Predicate?
  }

  lemma {:induction false} FoldedOperandsMeanTable(
    rt: Runtime, schemas: Schemas, table: Table, consts: Env, e: Expr, env: Env, item: Meaning)
    requires TableMeans(table, consts)
    requires HasOperands(e) && Folded(table, schemas, e).Ok?
    ensures ValueOf(rt, schemas, Folded(table, schemas, e).value, env, item)
         == ValueOf(rt, schemas, e, env + consts, item)
    decreases e, 1
  {
    if e.Binary? {
      FoldedMeansTable(rt, schemas, table, consts, e.left, env, item);
      FoldedMeansTable(rt, schemas, table, consts, e.right, env, item);
    } else if e.CollectionPredicate? {
      FoldedMeansTable(rt, schemas, table, consts, e.collection, env, item);
      var over := ValueOf(rt, schemas, e.collection, env + consts, item);
      FoldedPerItemMeansTable(rt, schemas, table, consts, e.condition, env, ItemsOf(over));
      SameQuantified(
        rt, schemas, e.span, e.quantifier, e.collection, e.condition, env + consts,
        Folded(table, schemas, e.collection).value, Folded(table, schemas, e.condition).value, env, item);
    } else {
      FoldedOperandMeansTable(rt, schemas, table, consts, e, env, item);
    }
  }

  lemma {:induction false} FoldedOperandMeansTable(
    rt: Runtime, schemas: Schemas, table: Table, consts: Env, e: Expr, env: Env, item: Meaning)
    requires TableMeans(table, consts)
    requires HasOneOperand(e) && Folded(table, schemas, e).Ok?
    ensures ValueOf(rt, schemas, Folded(table, schemas, e).value, env, item)
         == ValueOf(rt, schemas, e, env + consts, item)
    decreases e, 0
  {
    var operand := if e.Not? then e.operand else if e.Predicate? then e.subject else e.base;
    FoldedMeansTable(rt, schemas, table, consts, operand, env, item);
  }

  /** A quantified condition depends on its collection's value and the values per item only. */
  lemma SameQuantified(
    rt: Runtime, schemas: Schemas, span: Span, quantifier: Quantifier, over: Expr, condition: Expr, env: Env,
    over': Expr, condition': Expr, env': Env, item: Meaning)
    requires ValueOf(rt, schemas, over', env', item) == ValueOf(rt, schemas, over, env, item)
    requires var items := ItemsOf(ValueOf(rt, schemas, over, env, item));
             ValuePerItem(rt, schemas, condition', env', items) == ValuePerItem(rt, schemas, condition, env, items)
    ensures ValueOf(rt, schemas, CollectionPredicate(span, over', quantifier, condition'), env', item)
         == ValueOf(rt, schemas, CollectionPredicate(span, over, quantifier, condition), env, item)
  {
  }

  lemma FoldedRefMeansTable(
    rt: Runtime, schemas: Schemas, table: Table, consts: Env, span: Span, name: string, env: Env, item: Meaning)
    requires TableMeans(table, consts)
    ensures ValueOf(rt, schemas, Folded(table, schemas, Ref(span, name)).value, env, item)
         == ValueOf(rt, schemas, Ref(span, name), env + consts, item)
  {
    if name in table {
      WithSpanMeansTheSame(table[name], span);
      LiteralMeans(rt, schemas, WithSpan(table[name], span), env, item);
    }
  }

  lemma {:induction false} FoldedPerItemMeansTable(
    rt: Runtime, schemas: Schemas, table: Table, consts: Env, e: Expr, env: Env, items: seq<Val>)
    requires TableMeans(table, consts)
    requires Folded(table, schemas, e).Ok?
    ensures ValuePerItem(rt, schemas, Folded(table, schemas, e).value, env, items)
         == ValuePerItem(rt, schemas, e, env + consts, items)
    decreases e, 3, |items|
  {
    if items == [] {
    } else {
      FoldedMeansTable(rt, schemas, table, consts, e, env, Some(items[0]));
      FoldedPerItemMeansTable(rt, schemas, table, consts, e, env, items[1..]);
    }
  }

  lemma {:induction false} FoldedAllMeansTable(
    rt: Runtime, schemas: Schemas, table: Table, consts: Env, es: seq<Expr>, env: Env, item: Meaning)
    requires TableMeans(table, consts)
    requires FoldedAll(table, schemas, es).Ok?
    ensures ValuesOf(rt, schemas, FoldedAll(table, schemas, es).value, env, item)
         == ValuesOf(rt, schemas, es, env + consts, item)
    decreases es
  {
    if es == [] {
    } else {
      FoldedMeansTable(rt, schemas, table, consts, es[0], env, item);
      FoldedAllMeansTable(rt, schemas, table, consts, es[1..], env, item);
      var folded := FoldedAll(table, schemas, es).value;
      assert folded[1..] == FoldedAll(table, schemas, es[1..]).value;
    }
  }

  lemma {:induction false} FoldedArgsMeansTable(
    rt: Runtime, schemas: Schemas, table: Table, consts: Env, args: seq<Arg>, env: Env, item: Meaning)
    requires TableMeans(table, consts)
    requires FoldedArgs(table, schemas, args).Ok?
    ensures ArgValuesOf(rt, schemas, FoldedArgs(table, schemas, args).value, env, item)
         == ArgValuesOf(rt, schemas, args, env + consts, item)
    ensures ArgNames(FoldedArgs(table, schemas, args).value) == ArgNames(args)
    decreases args
  {
    if args == [] {
    } else {
      FoldedMeansTable(rt, schemas, table, consts, args[0].value, env, item);
      FoldedArgsMeansTable(rt, schemas, table, consts, args[1..], env, item);
      var folded := FoldedArgs(table, schemas, args).value;
      assert folded[1..] == FoldedArgs(table, schemas, args[1..]).value;
    }
  }

  /**
   Folding preserves meaning: the folded expression, under the runtime bindings alone, means
   what the original means under the runtime bindings overridden by the consts.
   */
  lemma {:induction false} FoldedMeansSource(
    rt: Runtime, schemas: Schemas, decls: Decls, consts: Env, e: Expr, env: Env, item: Meaning)
    requires JoinsStrings(rt) && AllResolve(decls, schemas) && ConstEnv(rt, schemas, decls, consts)
    requires Folded(ConstTable(decls, schemas), schemas, e).Ok?
    ensures ValueOf(rt, schemas, Folded(ConstTable(decls, schemas), schemas, e).value, env, item)
         == ValueOf(rt, schemas, e, env + consts, item)
  {
    var table := ConstTable(decls, schemas);
    forall n | n in table ensures Literal(table[n]) && consts[n] == LiteralValue(table[n]) {
      EvalMeansSource(rt, schemas, decls, consts, decls[n], {n});
    }
    FoldedMeansTable(rt, schemas, table, consts, e, env, item);
  }

  /** Folding gives `e` the meaning it has when a runtime binding hides a const of the same name. */
  ghost predicate KeepsShadowedMeaning(
    rt: Runtime, schemas: Schemas, decls: Decls, consts: Env, env: Env, e: Expr, item: Meaning)
    requires AllResolve(decls, schemas)
  {
    var folded := Folded(ConstTable(decls, schemas), schemas, e);
    folded.Ok? ==> ValueOf(rt, schemas, folded.value, env, item) == ValueOf(rt, schemas, e, consts + env, item)
  }

  /**
   Under the scoping where a runtime binding hides a const of the same name, folding keeps
   the meaning of every expression exactly when no binding disagrees with a const it hides.
   */
  lemma {:induction false} FoldingRespectsShadowingIff(
    rt: Runtime, schemas: Schemas, decls: Decls, consts: Env, env: Env)
    requires JoinsStrings(rt) && AllResolve(decls, schemas) && ConstEnv(rt, schemas, decls, consts)
    ensures (forall e, item :: KeepsShadowedMeaning(rt, schemas, decls, consts, env, e, item))
       <==> (forall n | n in env && n in consts :: env[n] == consts[n])
  {
    if forall n | n in env && n in consts :: env[n] == consts[n] {
      assert consts + env == env + consts;
      forall e, item ensures KeepsShadowedMeaning(rt, schemas, decls, consts, env, e, item) {
        if Folded(ConstTable(decls, schemas), schemas, e).Ok? {
          FoldedMeansSource(rt, schemas, decls, consts, e, env, item);
        }
      }
    } else {
      var n :| n in env && n in consts && env[n] != consts[n];
      DisagreeingBindingChangesMeaning(rt, schemas, decls, consts, env, n);
    }
  }

  /** The witness: a bare reference to the hidden const. */
  lemma DisagreeingBindingChangesMeaning(
    rt: Runtime, schemas: Schemas, decls: Decls, consts: Env, env: Env, n: string)
    requires JoinsStrings(rt) && AllResolve(decls, schemas) && ConstEnv(rt, schemas, decls, consts)
    requires n in env && n in consts && env[n] != consts[n]
    ensures !KeepsShadowedMeaning(rt, schemas, decls, consts, env, Ref(Span(0, 0, 0, 0), n), None)
  {
    FoldedMeansSource(rt, schemas, decls, consts, Ref(Span(0, 0, 0, 0), n), env, None);
  }
}
