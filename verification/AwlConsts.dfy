/**
 Table-free evaluation of `const` declarations: the reference that the memoising
 `Folder` is proved against, and the reference graph it walks.
 */
module AwlConsts {
  import opened Wrappers
  import opened Seqs
  import opened AwlAst

  datatype FoldErrorKind =
    | SelfReference(name: string)
    | UnknownConst(name: string)
    | NotCompileTime
    | ConcatOfNonStrings
    | SchemaUnavailable(name: string)

  datatype FoldError = FoldError(span: Span, kind: FoldErrorKind)

  /** Const name to value expression, and type name to the JSON text of its derived schema. */
  type Decls = map<string, Expr>
  type Schemas = map<string, string>

  /** The first declaration of each name; later duplicates are shadowed. */
  function FirstDecls(consts: seq<ConstDecl>): Decls {
    if consts == [] then map[]
    else FirstDecls(consts[1..])[consts[0].name := consts[0].value]
  }

  /**
   Evaluates a compile-time expression to a literal tree without any memo table.
   `active` holds the consts being resolved around this expression.
   */
  function Eval(decls: Decls, schemas: Schemas, e: Expr, active: set<string>): (r: Result<Expr, FoldError>)
    decreases decls.Keys - active, e
  {
    match e
    case Str(_, _) => Ok(e)
    case IntLit(_, _) => Ok(e)
    case FloatLit(_, _) => Ok(e)
    case BoolLit(_, _) => Ok(e)
    case Duration(_, _, _) => Ok(e)
    case RawStr(span, text) => Ok(Str(span, text))
    case Json(span, body) => Ok(Str(span, body))
    case SchemaOf(span, name, nameSpan) =>
      if name in schemas then Ok(Str(span, schemas[name]))
      else Err(FoldError(nameSpan, SchemaUnavailable(name)))
    case List(span, items) =>
      var values :- EvalAll(decls, schemas, items, active);
      Ok(List(span, values))
    case Binary(span, left, Concat, right) =>
      var a :- Eval(decls, schemas, left, active);
      var b :- Eval(decls, schemas, right, active);
      if a.Str? && b.Str? then Ok(Str(span, a.text + b.text))
      else Err(FoldError(span, ConcatOfNonStrings))
    case Ref(span, name) =>
      if name in active then Err(FoldError(span, SelfReference(name)))
      else if name !in decls then Err(FoldError(span, UnknownConst(name)))
      else
        var value :- Eval(decls, schemas, decls[name], active + {name});
        Ok(WithSpan(value, span))
    case _ => Err(FoldError(e.span, NotCompileTime))
  }

  /** Evaluates items left to right, stopping at the first error. */
  function EvalAll(decls: Decls, schemas: Schemas, es: seq<Expr>, active: set<string>)
    : (r: Result<seq<Expr>, FoldError>)
    ensures r.Ok? ==> |r.value| == |es|
    decreases decls.Keys - active, es
  {
    if es == [] then Ok([])
    else
      var first :- Eval(decls, schemas, es[0], active);
      var rest :- EvalAll(decls, schemas, es[1..], active);
      Ok([first] + rest)
  }

  /** The value of a declared const, evaluated on its own. */
  function ConstValue(decls: Decls, schemas: Schemas, name: string): Result<Expr, FoldError>
    requires name in decls
  {
    Eval(decls, schemas, decls[name], {name})
  }

  /** Every declared const has a value. */
  ghost predicate AllResolve(decls: Decls, schemas: Schemas) {
    forall n :: n in decls ==> ConstValue(decls, schemas, n).Ok?
  }

  /** The table a successful resolution of every const must produce. */
  ghost function ConstTable(decls: Decls, schemas: Schemas): (t: map<string, Expr>)
    requires AllResolve(decls, schemas)
  {
    map n | n in decls :: ConstValue(decls, schemas, n).value
  }

  /** The names an expression refers to, at any depth. */
  ghost function Refs(e: Expr): set<string>
    decreases e
  {
    match e
    case Ref(_, name) => {name}
    case List(_, items) => set e', n | e' in items && n in Refs(e') :: n
    case Record(_, _, args) => set a, n | a in args && n in Refs(a.value) :: n
    case Field(_, base, _) => Refs(base)
    case Index(_, base, _) => Refs(base)
    case Not(_, operand) => Refs(operand)
    case Binary(_, left, _, right) => Refs(left) + Refs(right)
    case Predicate(_, subject, _) => Refs(subject)
    case CollectionPredicate(_, collection, _, condition) => Refs(collection) + Refs(condition)
    case _ => {}
  }

  /** A tree made of literals only: the shape of every folded const value. */
  ghost predicate Literal(e: Expr)
    decreases e
  {
    match e
    case Str(_, _) => true
    case IntLit(_, _) => true
    case FloatLit(_, _) => true
    case BoolLit(_, _) => true
    case Duration(_, _, _) => true
    case List(_, items) => forall e' | e' in items :: Literal(e')
    case _ => false
  }

  /** Evaluation yields literal trees only. */
  lemma {:induction false} EvalGivesLiteral(decls: Decls, schemas: Schemas, e: Expr, active: set<string>)
    requires Eval(decls, schemas, e, active).Ok?
    ensures Literal(Eval(decls, schemas, e, active).value)
    decreases decls.Keys - active, e
  {
    match e
    case List(_, items) => EvalAllGivesLiterals(decls, schemas, items, active);
    case Ref(_, name) => EvalGivesLiteral(decls, schemas, decls[name], active + {name});
    case _ =>
  }

  lemma {:induction false} EvalAllGivesLiterals(decls: Decls, schemas: Schemas, es: seq<Expr>, active: set<string>)
    requires EvalAll(decls, schemas, es, active).Ok?
    ensures forall v :: v in EvalAll(decls, schemas, es, active).value ==> Literal(v)
    decreases decls.Keys - active, es
  {
    if es == [] {
    } else {
      EvalGivesLiteral(decls, schemas, es[0], active);
      EvalAllGivesLiterals(decls, schemas, es[1..], active);
    }
  }

  /** A successful evaluation stays the same when fewer consts are active around it. */
  lemma {:induction false} EvalWithFewerActive(
    decls: Decls, schemas: Schemas, e: Expr, active: set<string>, fewer: set<string>)
    requires fewer <= active
    requires Eval(decls, schemas, e, active).Ok?
    ensures Eval(decls, schemas, e, fewer) == Eval(decls, schemas, e, active)
    decreases decls.Keys - active, e
  {
    match e
    case List(_, items) => EvalAllWithFewerActive(decls, schemas, items, active, fewer);
    case Binary(_, left, Concat, right) =>
      EvalWithFewerActive(decls, schemas, left, active, fewer);
      EvalWithFewerActive(decls, schemas, right, active, fewer);
    case Ref(_, name) =>
      EvalWithFewerActive(decls, schemas, decls[name], active + {name}, fewer + {name});
    case _ =>
  }

  lemma {:induction false} EvalAllWithFewerActive(
    decls: Decls, schemas: Schemas, es: seq<Expr>, active: set<string>, fewer: set<string>)
    requires fewer <= active
    requires EvalAll(decls, schemas, es, active).Ok?
    ensures EvalAll(decls, schemas, es, fewer) == EvalAll(decls, schemas, es, active)
    decreases decls.Keys - active, es
  {
    if es == [] {
    } else {
      EvalWithFewerActive(decls, schemas, es[0], active, fewer);
      EvalAllWithFewerActive(decls, schemas, es[1..], active, fewer);
    }
  }

  /** A set of consts that refer to one another only. */
  ghost predicate Closed(decls: Decls, names: set<string>) {
    forall n :: n in names ==> n in decls && Refs(decls[n]) <= names
  }

  /**
   Inside a closed set of consts only the active names of that set matter: this is why
   a memo entry computed under one resolution stack may be used under another.
   */
  lemma {:induction false} EvalIgnoresUnrelatedActive(
    decls: Decls, schemas: Schemas, e: Expr, names: set<string>, active: set<string>, other: set<string>)
    requires Closed(decls, names) && Refs(e) <= names
    requires active * names == other * names
    ensures Eval(decls, schemas, e, active) == Eval(decls, schemas, e, other)
    decreases decls.Keys - active, e
  {
    match e
    case List(_, items) => EvalAllIgnoresUnrelatedActive(decls, schemas, items, names, active, other);
    case Binary(_, left, Concat, right) =>
      EvalIgnoresUnrelatedActive(decls, schemas, left, names, active, other);
      EvalIgnoresUnrelatedActive(decls, schemas, right, names, active, other);
    case Ref(_, name) =>
      assert name in active <==> name in active * names;
      if name !in active {
        assert (active + {name}) * names == active * names + {name} == (other + {name}) * names;
        EvalIgnoresUnrelatedActive(decls, schemas, decls[name], names, active + {name}, other + {name});
      }
    case _ =>
  }

  lemma {:induction false} EvalAllIgnoresUnrelatedActive(
    decls: Decls, schemas: Schemas, es: seq<Expr>, names: set<string>, active: set<string>, other: set<string>)
    requires Closed(decls, names) && (forall e :: e in es ==> Refs(e) <= names)
    requires active * names == other * names
    ensures EvalAll(decls, schemas, es, active) == EvalAll(decls, schemas, es, other)
    decreases decls.Keys - active, es
  {
    if es == [] {
    } else {
      EvalIgnoresUnrelatedActive(decls, schemas, es[0], names, active, other);
      EvalAllIgnoresUnrelatedActive(decls, schemas, es[1..], names, active, other);
    }
  }

  // ----- the reference graph -----

  ghost predicate Edge(decls: Decls, m: string, n: string) {
    m in decls && n in Refs(decls[m])
  }

  /** A non-empty walk along references. */
  ghost predicate Walk(decls: Decls, p: seq<string>) {
    && |p| >= 1
    && forall i :: 0 <= i < |p| - 1 ==> Edge(decls, p[i], p[i + 1])
  }

  ghost predicate IsCycle(decls: Decls, p: seq<string>) {
    Walk(decls, p) && |p| >= 2 && p[0] == p[|p| - 1]
  }

  ghost predicate Acyclic(decls: Decls) {
    forall p :: !IsCycle(decls, p)
  }

  /** A successful evaluation has itself evaluated every const the expression refers to. */
  lemma {:induction false} EvalVisitsRefs(decls: Decls, schemas: Schemas, e: Expr, active: set<string>, n: string)
    requires Eval(decls, schemas, e, active).Ok?
    requires n in Refs(e)
    ensures n !in active && n in decls && Eval(decls, schemas, decls[n], active + {n}).Ok?
    decreases e
  {
    match e
    case List(_, items) =>
      var e' :| e' in items && n in Refs(e');
      EvalAllVisits(decls, schemas, items, active, e');
      EvalVisitsRefs(decls, schemas, e', active, n);
    case Binary(_, left, Concat, right) =>
      if n in Refs(left) {
        EvalVisitsRefs(decls, schemas, left, active, n);
      } else {
        EvalVisitsRefs(decls, schemas, right, active, n);
      }
    case _ =>
  }

  lemma {:induction false} EvalAllVisits(
    decls: Decls, schemas: Schemas, es: seq<Expr>, active: set<string>, e: Expr)
    requires EvalAll(decls, schemas, es, active).Ok?
    requires e in es
    ensures Eval(decls, schemas, e, active).Ok?
    decreases |es|
  {
    if e != es[0] {
      EvalAllVisits(decls, schemas, es[1..], active, e);
    }
  }

  /** Along any walk from a resolvable const, the tail evaluates with the whole walk active. */
  lemma {:induction false} WalkStaysEvaluable(decls: Decls, schemas: Schemas, p: seq<string>)
    requires Walk(decls, p) && p[0] in decls && ConstValue(decls, schemas, p[0]).Ok?
    ensures p[|p| - 1] in decls
    ensures Eval(decls, schemas, decls[p[|p| - 1]], Elements(p)).Ok?
    ensures forall i :: 0 <= i < |p| - 1 ==> p[i] != p[|p| - 1]
    decreases |p|
  {
    if |p| == 1 {
      assert Elements(p) == {p[0]};
    } else {
      var front, n := p[..|p| - 1], p[|p| - 1];
      assert forall i :: 0 <= i < |front| - 1 ==> Edge(decls, front[i], front[i + 1]) by {
        forall i | 0 <= i < |front| - 1 ensures Edge(decls, front[i], front[i + 1]) {
          assert Edge(decls, p[i], p[i + 1]);
        }
      }
      WalkStaysEvaluable(decls, schemas, front);
      assert Edge(decls, p[|p| - 2], p[|p| - 2 + 1]);
      EvalVisitsRefs(decls, schemas, decls[front[|front| - 1]], Elements(front), n);
      assert Elements(front) + {n} == Elements(p);
      assert forall i :: 0 <= i < |front| ==> front[i] in Elements(front);
    }
  }

  /** If every const resolves, no chain of references leads from a const back to itself. */
  lemma {:induction false} ResolvedIsAcyclic(decls: Decls, schemas: Schemas)
    requires AllResolve(decls, schemas)
    ensures Acyclic(decls)
  {
    forall p | IsCycle(decls, p) ensures false {
      assert Edge(decls, p[0], p[0 + 1]);
      WalkStaysEvaluable(decls, schemas, p);
    }
  }

  /**
   A "defined in terms of itself" refusal comes with a real cycle. `stack` is the walk of
   consts being resolved, its last element owning the expression being evaluated.
   */
  lemma {:induction false} SelfReferenceHasCycle(decls: Decls, schemas: Schemas, e: Expr, stack: seq<string>)
    returns (cycle: seq<string>)
    requires Walk(decls, stack) && stack[|stack| - 1] in decls
    requires Refs(e) <= Refs(decls[stack[|stack| - 1]])
    requires Eval(decls, schemas, e, Elements(stack)).Err?
    requires Eval(decls, schemas, e, Elements(stack)).error.kind.SelfReference?
    ensures IsCycle(decls, cycle)
    decreases decls.Keys - Elements(stack), e
  {
    cycle := [];
    match e
    case List(_, items) =>
      cycle := SelfReferenceInItemsHasCycle(decls, schemas, items, stack);
    case Binary(_, left, Concat, right) =>
      if Eval(decls, schemas, left, Elements(stack)).Err? {
        cycle := SelfReferenceHasCycle(decls, schemas, left, stack);
      } else {
        cycle := SelfReferenceHasCycle(decls, schemas, right, stack);
      }
    case Ref(_, name) =>
      var last := stack[|stack| - 1];
      assert Edge(decls, last, name);
      if name in stack {
        var i :| 0 <= i < |stack| && stack[i] == name;
        cycle := stack[i..] + [name];
        ExtendWalk(decls, stack, i, name);
      } else {
        ExtendWalk(decls, stack, 0, name);
        assert stack[0..] + [name] == stack + [name];
        assert Elements(stack + [name]) == Elements(stack) + {name};
        cycle := SelfReferenceHasCycle(decls, schemas, decls[name], stack + [name]);
      }
    case _ =>
  }

  lemma {:induction false} SelfReferenceInItemsHasCycle(
    decls: Decls, schemas: Schemas, es: seq<Expr>, stack: seq<string>)
    returns (cycle: seq<string>)
    requires Walk(decls, stack) && stack[|stack| - 1] in decls
    requires forall e :: e in es ==> Refs(e) <= Refs(decls[stack[|stack| - 1]])
    requires EvalAll(decls, schemas, es, Elements(stack)).Err?
    requires EvalAll(decls, schemas, es, Elements(stack)).error.kind.SelfReference?
    ensures IsCycle(decls, cycle)
    decreases decls.Keys - Elements(stack), es
  {
    if Eval(decls, schemas, es[0], Elements(stack)).Err? {
      cycle := SelfReferenceHasCycle(decls, schemas, es[0], stack);
    } else {
      cycle := SelfReferenceInItemsHasCycle(decls, schemas, es[1..], stack);
    }
  }

  lemma ExtendWalk(decls: Decls, stack: seq<string>, i: nat, name: string)
    requires Walk(decls, stack) && i < |stack|
    requires Edge(decls, stack[|stack| - 1], name)
    ensures Walk(decls, stack[i..] + [name])
  {
    var p := stack[i..] + [name];
    forall j | 0 <= j < |p| - 1 ensures Edge(decls, p[j], p[j + 1]) {
      if j < |p| - 2 {
        assert Edge(decls, stack[i + j], stack[i + j + 1]);
      }
    }
  }

  /** Stated for a declaration: if resolving a const fails with a self reference, the graph is cyclic. */
  lemma {:induction false} SelfReferenceIsCyclic(decls: Decls, schemas: Schemas, name: string)
    requires name in decls && ConstValue(decls, schemas, name).Err?
    requires ConstValue(decls, schemas, name).error.kind.SelfReference?
    ensures !Acyclic(decls)
  {
    assert Elements([name]) == {name};
    var cycle := SelfReferenceHasCycle(decls, schemas, decls[name], [name]);
  }
}
