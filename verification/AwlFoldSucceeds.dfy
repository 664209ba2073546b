/**
 When constant folding succeeds, said of the source alone: the references are acyclic, every
 const is compile-time with string operands of `+`, and every schema asked for can be derived.
 */
module AwlFoldSucceeds {
  import opened Wrappers
  import opened Seqs
  import opened AwlAst
  import opened AwlConsts
  import opened AwlFoldExpr
  import opened AwlWalk
  import opened AwlFoldDocument

  // ----- which consts resolve -----

  /** Whether an expression is a string, given which consts are. */
  ghost predicate StringShaped(e: Expr, strings: set<string>) {
    e.Str? || e.RawStr? || e.Json? || e.SchemaOf? || (e.Binary? && e.op.Concat?) || (e.Ref? && e.name in strings)
  }

  /** Compile-time, with known names, derivable schemas and string operands of `+`, at any depth. */
  ghost predicate CompileTime(decls: Decls, schemas: Schemas, strings: set<string>, e: Expr)
    decreases e
  {
    match e
    case Str(_, _) => true
    case IntLit(_, _) => true
    case FloatLit(_, _) => true
    case BoolLit(_, _) => true
    case Duration(_, _, _) => true
    case RawStr(_, _) => true
    case Json(_, _) => true
    case SchemaOf(_, name, _) => name in schemas
    case List(_, items) => forall e' | e' in items :: CompileTime(decls, schemas, strings, e')
    case Binary(_, left, op, right) =>
      && op.Concat? && StringShaped(left, strings) && StringShaped(right, strings)
      && CompileTime(decls, schemas, strings, left) && CompileTime(decls, schemas, strings, right)
    case Ref(_, name) => name in decls
    case _ => false
  }

  /** `strings` are the consts that are strings, and every declaration is compile-time under it. */
  ghost predicate Typed(decls: Decls, schemas: Schemas, strings: set<string>) {
    && strings <= decls.Keys
    && forall n :: n in decls ==>
         (n in strings <==> StringShaped(decls[n], strings)) && CompileTime(decls, schemas, strings, decls[n])
  }

  ghost function StringConsts(decls: Decls, schemas: Schemas): set<string>
    requires AllResolve(decls, schemas)
  {
    set n | n in decls && ConstValue(decls, schemas, n).value.Str?
  }

  /** What evaluates is compile-time, and is a string exactly if its shape says so. */
  lemma {:induction false} EvaluatedIsCompileTime(decls: Decls, schemas: Schemas, e: Expr, active: set<string>)
    requires AllResolve(decls, schemas) && Eval(decls, schemas, e, active).Ok?
    ensures CompileTime(decls, schemas, StringConsts(decls, schemas), e)
    ensures StringShaped(e, StringConsts(decls, schemas)) <==> Eval(decls, schemas, e, active).value.Str?
    decreases e
  {
    match e
    case List(_, items) =>
      forall e' | e' in items ensures CompileTime(decls, schemas, StringConsts(decls, schemas), e') {
        EvalAllVisits(decls, schemas, items, active, e');
        EvaluatedIsCompileTime(decls, schemas, e', active);
      }
    case Binary(_, left, Concat, right) =>
      EvaluatedIsCompileTime(decls, schemas, left, active);
      EvaluatedIsCompileTime(decls, schemas, right, active);
    case Ref(_, name) =>
      EvalWithFewerActive(decls, schemas, decls[name], active + {name}, {name});
    case _ =>
  }

  lemma {:induction false} ResolvedIsTyped(decls: Decls, schemas: Schemas)
    requires AllResolve(decls, schemas)
    ensures Typed(decls, schemas, StringConsts(decls, schemas))
  {
    forall n | n in decls
      ensures n in StringConsts(decls, schemas) <==> StringShaped(decls[n], StringConsts(decls, schemas))
      ensures CompileTime(decls, schemas, StringConsts(decls, schemas), decls[n])
    {
      EvaluatedIsCompileTime(decls, schemas, decls[n], {n});
    }
  }

  /**
   Conversely, along any walk of an acyclic typed graph, what the last const of the walk holds
   evaluates with the whole walk active, to a string exactly if its shape says so.
   */
  lemma {:induction false} CompileTimeEvaluates(
    decls: Decls, schemas: Schemas, strings: set<string>, e: Expr, stack: seq<string>)
    requires Acyclic(decls) && Typed(decls, schemas, strings)
    requires Walk(decls, stack) && stack[|stack| - 1] in decls && Refs(e) <= Refs(decls[stack[|stack| - 1]])
    requires CompileTime(decls, schemas, strings, e)
    ensures Eval(decls, schemas, e, Elements(stack)).Ok?
    ensures Eval(decls, schemas, e, Elements(stack)).value.Str? <==> StringShaped(e, strings)
    decreases decls.Keys - Elements(stack), e
  {
    if e.List? {
      AllCompileTimeEvaluate(decls, schemas, strings, e.items, stack);
    } else if e.Binary? {
      CompileTimeEvaluates(decls, schemas, strings, e.left, stack);
      CompileTimeEvaluates(decls, schemas, strings, e.right, stack);
    } else if e.Ref? {
      NextIsFresh(decls, stack, e.name);
      CompileTimeEvaluates(decls, schemas, strings, decls[e.name], stack + [e.name]);
      RefEvaluates(decls, schemas, e, Elements(stack));
    }
  }

  /** A reference is what its const is. */
  lemma RefEvaluates(decls: Decls, schemas: Schemas, e: Expr, active: set<string>)
    requires e.Ref? && e.name in decls && e.name !in active
    ensures var value := Eval(decls, schemas, decls[e.name], active + {e.name});
            value.Ok? ==> Eval(decls, schemas, e, active) == Ok(WithSpan(value.value, e.span))
  {
  }

  lemma {:induction false} AllCompileTimeEvaluate(
    decls: Decls, schemas: Schemas, strings: set<string>, es: seq<Expr>, stack: seq<string>)
    requires Acyclic(decls) && Typed(decls, schemas, strings)
    requires Walk(decls, stack) && stack[|stack| - 1] in decls
    requires forall e :: e in es ==> Refs(e) <= Refs(decls[stack[|stack| - 1]]) && CompileTime(decls, schemas, strings, e)
    ensures EvalAll(decls, schemas, es, Elements(stack)).Ok?
    decreases decls.Keys - Elements(stack), es
  {
    if es != [] {
      CompileTimeEvaluates(decls, schemas, strings, es[0], stack);
      AllCompileTimeEvaluate(decls, schemas, strings, es[1..], stack);
    }
  }

  /** A reference from the end of a walk leads out of the walk, if there is no cycle. */
  lemma NextIsFresh(decls: Decls, stack: seq<string>, name: string)
    requires Acyclic(decls) && Walk(decls, stack) && Edge(decls, stack[|stack| - 1], name)
    ensures name !in Elements(stack) && Walk(decls, stack + [name])
    ensures Elements(stack + [name]) == Elements(stack) + {name}
  {
    if i :| 0 <= i < |stack| && stack[i] == name {
      ExtendWalk(decls, stack, i, name);
      assert IsCycle(decls, stack[i..] + [name]);
    }
    ExtendWalk(decls, stack, 0, name);
    assert stack[0..] + [name] == stack + [name];
  }

  /** All consts resolve if and only if their references are acyclic and they can be typed. */
  lemma {:induction false} AllResolveIff(decls: Decls, schemas: Schemas)
    ensures AllResolve(decls, schemas) <==> Acyclic(decls) && exists strings :: Typed(decls, schemas, strings)
  {
    if AllResolve(decls, schemas) {
      ResolvedIsAcyclic(decls, schemas);
      ResolvedIsTyped(decls, schemas);
    }
    if Acyclic(decls) && exists strings :: Typed(decls, schemas, strings) {
      var strings :| Typed(decls, schemas, strings);
      forall n | n in decls ensures ConstValue(decls, schemas, n).Ok? {
        assert Elements([n]) == {n};
        CompileTimeEvaluates(decls, schemas, strings, decls[n], [n]);
      }
    }
  }

  // ----- which expressions fold -----

  /** The types whose schema an expression asks for, at any depth. */
  ghost function SchemasOf(e: Expr): set<string>
    decreases e
  {
    match e
    case SchemaOf(_, name, _) => {name}
    case List(_, items) => set e', n | e' in items && n in SchemasOf(e') :: n
    case Record(_, _, args) => set a, n | a in args && n in SchemasOf(a.value) :: n
    case Field(_, base, _) => SchemasOf(base)
    case Index(_, base, _) => SchemasOf(base)
    case Not(_, operand) => SchemasOf(operand)
    case Binary(_, left, _, right) => SchemasOf(left) + SchemasOf(right)
    case Predicate(_, subject, _) => SchemasOf(subject)
    case CollectionPredicate(_, collection, _, condition) => SchemasOf(collection) + SchemasOf(condition)
    case _ => {}
  }

  lemma {:induction false} FoldsIff(table: Table, schemas: Schemas, e: Expr)
    ensures Folded(table, schemas, e).Ok? <==> SchemasOf(e) <= schemas.Keys
    decreases e, 1
  {
    if e.List? {
      AllFoldIff(table, schemas, e.items);
      assert SchemasOf(e) <= schemas.Keys <==> forall x :: x in e.items ==> SchemasOf(x) <= schemas.Keys;
    } else if e.Record? {
      ArgsFoldIff(table, schemas, e.args);
      assert SchemasOf(e) <= schemas.Keys <==> forall a :: a in e.args ==> SchemasOf(a.value) <= schemas.Keys;
    } else {
      OperandsFoldIff(table, schemas, e);
    }
  }

  lemma {:induction false} OperandsFoldIff(table: Table, schemas: Schemas, e: Expr)
    requires !e.List? && !e.Record?
    ensures Folded(table, schemas, e).Ok? <==> SchemasOf(e) <= schemas.Keys
    decreases e, 0
  {
    match e
    case Field(_, base, _) => FoldsIff(table, schemas, base);
    case Index(_, base, _) => FoldsIff(table, schemas, base);
    case Not(_, operand) => FoldsIff(table, schemas, operand);
    case Binary(_, left, _, right) =>
      FoldsIff(table, schemas, left);
      FoldsIff(table, schemas, right);
    case Predicate(_, subject, _) => FoldsIff(table, schemas, subject);
    case CollectionPredicate(_, collection, _, condition) =>
      FoldsIff(table, schemas, collection);
      FoldsIff(table, schemas, condition);
    case _ =>
  }

  lemma {:induction false} AllFoldIff(table: Table, schemas: Schemas, es: seq<Expr>)
    ensures FoldedAll(table, schemas, es).Ok? <==> forall e :: e in es ==> SchemasOf(e) <= schemas.Keys
    decreases es
  {
    if es != [] {
      FoldsIff(table, schemas, es[0]);
      AllFoldIff(table, schemas, es[1..]);
      assert forall e :: e in es <==> e == es[0] || e in es[1..];
    }
  }

  lemma {:induction false} ArgsFoldIff(table: Table, schemas: Schemas, args: seq<Arg>)
    ensures FoldedArgs(table, schemas, args).Ok? <==> forall a :: a in args ==> SchemasOf(a.value) <= schemas.Keys
    decreases args
  {
    if args != [] {
      FoldsIff(table, schemas, args[0].value);
      ArgsFoldIff(table, schemas, args[1..]);
      assert forall a :: a in args <==> a == args[0] || a in args[1..];
    }
  }

  /**
   A document folds if and only if the references among its first declarations are acyclic, these
   can be typed, and every schema that a step expression asks for can be derived.
   */
  lemma {:induction false} FoldSucceedsIff(schemas: Schemas, d: Document)
    ensures FoldedDocument(schemas, d).Ok?
       <==> && Acyclic(FirstDecls(d.consts))
            && (exists strings :: Typed(FirstDecls(d.consts), schemas, strings))
            && forall e :: e in DocumentExprs(d) ==> SchemasOf(e) <= schemas.Keys
  {
    var decls := FirstDecls(d.consts);
    NoConstErrorMeansAllResolve(schemas, d);
    AllResolveIff(decls, schemas);
    if AllResolve(decls, schemas) {
      var table := ConstTable(decls, schemas);
      FirstErrorNone(table, schemas, DocumentExprs(d));
      forall e | e in DocumentExprs(d) ensures Folded(table, schemas, e).Ok? <==> SchemasOf(e) <= schemas.Keys {
        FoldsIff(table, schemas, e);
      }
    }
  }
}
