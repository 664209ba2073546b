/**
 Where folding points: a folded expression keeps the place of the expression it replaces, what
 lies inside a substituted const keeps the places of the declaration, and a refusal points at an
 expression that really is at fault.
 */
module AwlFoldPlaces {
  import opened Wrappers
  import opened AwlAst
  import opened AwlConsts
  import opened AwlFoldExpr
  import opened AwlWalk
  import opened AwlFoldDocument
  import opened AwlFoldSucceeds

  // ----- spans -----

  /** Evaluation keeps the span of the expression, and of every item of a list. */
  lemma {:induction false} EvalKeepsSpan(decls: Decls, schemas: Schemas, e: Expr, active: set<string>)
    requires Eval(decls, schemas, e, active).Ok?
    ensures Eval(decls, schemas, e, active).value.span == e.span
    ensures e.List? ==> Eval(decls, schemas, e, active).value.List?
                        && SameSpans(e.items, Eval(decls, schemas, e, active).value.items)
    decreases e
  {
    if e.List? {
      EvalAllKeepsSpans(decls, schemas, e.items, active);
    }
  }

  ghost predicate SameSpans(es: seq<Expr>, es': seq<Expr>) {
    |es'| == |es| && forall i :: 0 <= i < |es| ==> es'[i].span == es[i].span
  }

  lemma {:induction false} EvalAllKeepsSpans(decls: Decls, schemas: Schemas, es: seq<Expr>, active: set<string>)
    requires EvalAll(decls, schemas, es, active).Ok?
    ensures SameSpans(es, EvalAll(decls, schemas, es, active).value)
    decreases es
  {
    if es != [] {
      EvalKeepsSpan(decls, schemas, es[0], active);
      EvalAllKeepsSpans(decls, schemas, es[1..], active);
    }
  }

  /** `value` is what is inside `declared`, moved to another place: only the outermost span may differ. */
  ghost predicate MovedTo(value: Expr, declared: Expr, span: Span) {
    && value.span == span
    && match declared
       case Str(_, text) => value.Str? && value.text == text
       case IntLit(_, number) => value.IntLit? && value.number == number
       case FloatLit(_, lexeme) => value.FloatLit? && value.lexeme == lexeme
       case BoolLit(_, truth) => value.BoolLit? && value.truth == truth
       case Duration(_, magnitude, unit) => value.Duration? && value.magnitude == magnitude && value.unit == unit
       case List(_, items) => value.List? && value.items == items
       case _ => false
  }

  /** A folded reference is its const's value at the place of the reference. */
  lemma {:induction false} ReferenceMovesValue(decls: Decls, schemas: Schemas, span: Span, name: string)
    requires AllResolve(decls, schemas) && name in decls
    ensures var r := Folded(ConstTable(decls, schemas), schemas, Ref(span, name));
            r.Ok? && MovedTo(r.value, ConstValue(decls, schemas, name).value, span)
  {
    EvalGivesLiteral(decls, schemas, decls[name], {name});
  }

  /** `e'` stands where `e` stood, and so does every operand that folding leaves an operand. */
  ghost predicate Stands(e: Expr, e': Expr)
    decreases e
  {
    && e'.span == e.span
    && match e
       case List(_, items) => e'.List? && |e'.items| == |items| && forall i | 0 <= i < |items| :: Stands(items[i], e'.items[i])
       case Record(_, name, args) =>
         && e'.Record? && e'.name == name && |e'.args| == |args|
         && forall i | 0 <= i < |args| :: e'.args[i].name == args[i].name && Stands(args[i].value, e'.args[i].value)
       case Field(_, base, name) => e'.Field? && e'.name == name && Stands(base, e'.base)
       case Index(_, base, index) => e'.Index? && e'.index == index && Stands(base, e'.base)
       case Not(_, operand) => e'.Not? && Stands(operand, e'.operand)
       case Binary(_, left, op, right) => e'.Binary? && e'.op == op && Stands(left, e'.left) && Stands(right, e'.right)
       case Predicate(_, subject, kind) => e'.Predicate? && e'.kind == kind && Stands(subject, e'.subject)
       case CollectionPredicate(_, collection, quantifier, condition) =>
         && e'.CollectionPredicate? && e'.quantifier == quantifier
         && Stands(collection, e'.collection) && Stands(condition, e'.condition)
       case _ => true
  }

  /** A folded expression stands where the original stood, down to every operand. */
  lemma {:induction false} FoldedStands(table: Table, schemas: Schemas, e: Expr)
    requires Folded(table, schemas, e).Ok?
    ensures Stands(e, Folded(table, schemas, e).value)
    decreases e
  {
    match e
    case List(_, items) => FoldedAllStand(table, schemas, items);
    case Record(_, _, args) => FoldedArgsStand(table, schemas, args);
    case Field(_, base, _) => FoldedStands(table, schemas, base);
    case Index(_, base, _) => FoldedStands(table, schemas, base);
    case Not(_, operand) => FoldedStands(table, schemas, operand);
    case Binary(_, left, _, right) =>
      FoldedStands(table, schemas, left);
      FoldedStands(table, schemas, right);
    case Predicate(_, subject, _) => FoldedStands(table, schemas, subject);
    case CollectionPredicate(_, collection, _, condition) =>
      FoldedStands(table, schemas, collection);
      FoldedStands(table, schemas, condition);
    case _ =>
  }

  lemma {:induction false} FoldedAllStand(table: Table, schemas: Schemas, es: seq<Expr>)
    requires FoldedAll(table, schemas, es).Ok?
    ensures var es' := FoldedAll(table, schemas, es).value;
            |es'| == |es| && forall i :: 0 <= i < |es| ==> Stands(es[i], es'[i])
    decreases es
  {
    if es != [] {
      FoldedStands(table, schemas, es[0]);
      FoldedAllStand(table, schemas, es[1..]);
    }
  }

  lemma {:induction false} FoldedArgsStand(table: Table, schemas: Schemas, args: seq<Arg>)
    requires FoldedArgs(table, schemas, args).Ok?
    ensures var args' := FoldedArgs(table, schemas, args).value;
            |args'| == |args| && forall i :: 0 <= i < |args| ==>
              args'[i].name == args[i].name && Stands(args[i].value, args'[i].value)
    decreases args
  {
    if args != [] {
      FoldedStands(table, schemas, args[0].value);
      FoldedArgsStand(table, schemas, args[1..]);
    }
  }

  /** In a folded document every expression stands where the original stood. */
  lemma {:induction false} FoldKeepsPlaces(schemas: Schemas, d: Document, d': Document)
    requires FoldedDocument(schemas, d) == Ok(d')
    ensures |DocumentExprs(d')| == |DocumentExprs(d)|
    ensures forall i :: 0 <= i < |DocumentExprs(d)| ==> Stands(DocumentExprs(d)[i], DocumentExprs(d')[i])
  {
    PositionCount(schemas, d);
    forall i | 0 <= i < |DocumentExprs(d)| ensures Stands(DocumentExprs(d)[i], DocumentExprs(d')[i]) {
      FoldedPositions(schemas, d, i);
      FoldedStands(ConstTable(FirstDecls(d.consts), schemas), schemas, DocumentExprs(d)[i]);
    }
  }

  // ----- refusals -----

  /** `part` is `e` or lies in it, where evaluation looks. */
  ghost predicate Within(part: Expr, e: Expr)
    decreases e
  {
    || part == e
    || (e.List? && exists item | item in e.items :: Within(part, item))
    || (e.Binary? && (Within(part, e.left) || Within(part, e.right)))
  }

  /** `part` lies in `e` or in some declaration. */
  ghost predicate Occurs(decls: Decls, part: Expr, e: Expr) {
    Within(part, e) || exists n :: n in decls && Within(part, decls[n])
  }

  /** Literals, the forms that become strings, lists, joins and references: what a const may be made of. */
  ghost predicate ConstForm(e: Expr) {
    || e.Str? || e.IntLit? || e.FloatLit? || e.BoolLit? || e.Duration?
    || e.RawStr? || e.Json? || e.SchemaOf? || e.List? || e.Ref? || (e.Binary? && e.op == Concat)
  }

  /** The refusal says what is wrong with `part`, and points at it. */
  ghost predicate AtFault(decls: Decls, schemas: Schemas, part: Expr, error: FoldError) {
    match error.kind
    case SelfReference(name) => part == Ref(error.span, name)
    case UnknownConst(name) => part == Ref(error.span, name) && name !in decls
    case NotCompileTime => part.span == error.span && !ConstForm(part)
    case ConcatOfNonStrings =>
      && part.Binary? && part.op == Concat && part.span == error.span
      && exists active ::
           var a, b := Eval(decls, schemas, part.left, active), Eval(decls, schemas, part.right, active);
           a.Ok? && b.Ok? && !(a.value.Str? && b.value.Str?)
    case SchemaUnavailable(name) =>
      part.SchemaOf? && part.name == name && part.nameSpan == error.span && name !in schemas
  }

  /** Every refusal of a const points at an expression that occurs and is at fault. */
  lemma {:induction false} RefusalIsReal(decls: Decls, schemas: Schemas, e: Expr, active: set<string>)
    returns (part: Expr)
    requires Eval(decls, schemas, e, active).Err?
    ensures Occurs(decls, part, e) && AtFault(decls, schemas, part, Eval(decls, schemas, e, active).error)
    decreases decls.Keys - active, e
  {
    part := e;
    if e.List? {
      part := RefusedItemIsReal(decls, schemas, e.items, active);
      if !(exists n :: n in decls && Within(part, decls[n])) {
        var item :| item in e.items && Within(part, item);
        assert Within(part, e);
      }
    } else if e.Binary? && e.op == Concat {
      if Eval(decls, schemas, e.left, active).Err? {
        part := RefusalIsReal(decls, schemas, e.left, active);
      } else if Eval(decls, schemas, e.right, active).Err? {
        part := RefusalIsReal(decls, schemas, e.right, active);
      }
    } else if e.Ref? && e.name !in active && e.name in decls {
      part := RefusalIsReal(decls, schemas, decls[e.name], active + {e.name});
      if Within(part, decls[e.name]) {
        assert exists n :: n in decls && Within(part, decls[n]);
      }
    }
  }

  lemma {:induction false} RefusedItemIsReal(decls: Decls, schemas: Schemas, es: seq<Expr>, active: set<string>)
    returns (part: Expr)
    requires EvalAll(decls, schemas, es, active).Err?
    ensures (exists n :: n in decls && Within(part, decls[n])) || (exists e :: e in es && Within(part, e))
    ensures AtFault(decls, schemas, part, EvalAll(decls, schemas, es, active).error)
    decreases decls.Keys - active, es
  {
    if Eval(decls, schemas, es[0], active).Err? {
      part := RefusalIsReal(decls, schemas, es[0], active);
      assert es[0] in es;
    } else {
      part := RefusedItemIsReal(decls, schemas, es[1..], active);
      if e :| e in es[1..] && Within(part, e) {
        assert e in es;
      }
    }
  }

  /** Of several faulty items the first is the one refused; a join is refused for its left side first. */
  lemma {:induction false} FirstItemIsRefused(decls: Decls, schemas: Schemas, es: seq<Expr>, active: set<string>, i: nat)
    requires i < |es| && Eval(decls, schemas, es[i], active).Err?
    requires forall k :: 0 <= k < i ==> Eval(decls, schemas, es[k], active).Ok?
    ensures EvalAll(decls, schemas, es, active) == Err(Eval(decls, schemas, es[i], active).error)
    decreases i
  {
    if i > 0 {
      FirstItemIsRefused(decls, schemas, es[1..], active, i - 1);
    }
  }

  lemma LeftIsRefusedFirst(decls: Decls, schemas: Schemas, span: Span, left: Expr, right: Expr, active: set<string>)
    requires Eval(decls, schemas, left, active).Err?
    ensures Eval(decls, schemas, Binary(span, left, Concat, right), active) == Eval(decls, schemas, left, active)
  {
  }

  /** A document is refused for its first faulty declaration, and else for its first position that does not fold. */
  lemma {:induction false} FirstDeclarationIsRefused(schemas: Schemas, d: Document, i: nat)
    requires i < |d.consts| && forall c :: c in d.consts ==> c.name in FirstDecls(d.consts)
    requires ConstValue(FirstDecls(d.consts), schemas, d.consts[i].name).Err?
    requires forall k :: 0 <= k < i ==> ConstValue(FirstDecls(d.consts), schemas, d.consts[k].name).Ok?
    ensures FoldedDocument(schemas, d) == Err(ConstValue(FirstDecls(d.consts), schemas, d.consts[i].name).error)
  {
    NoConstErrorMeansAllResolve(schemas, d);
    FirstConstErrorAt(FirstDecls(d.consts), schemas, d.consts, i);
  }

  lemma {:induction false} FirstConstErrorAt(decls: Decls, schemas: Schemas, consts: seq<ConstDecl>, i: nat)
    requires (forall c :: c in consts ==> c.name in decls) && i < |consts|
    requires ConstValue(decls, schemas, consts[i].name).Err?
    requires forall k :: 0 <= k < i ==> ConstValue(decls, schemas, consts[k].name).Ok?
    ensures FirstConstError(decls, schemas, consts) == Some(ConstValue(decls, schemas, consts[i].name).error)
    decreases i
  {
    if i > 0 {
      FirstConstErrorAt(decls, schemas, consts[1..], i - 1);
    }
  }

  lemma {:induction false} FirstPositionIsRefused(schemas: Schemas, d: Document, i: nat)
    requires AllResolve(FirstDecls(d.consts), schemas) && i < |DocumentExprs(d)|
    requires var table := ConstTable(FirstDecls(d.consts), schemas);
             && Folded(table, schemas, DocumentExprs(d)[i]).Err?
             && forall k :: 0 <= k < i ==> Folded(table, schemas, DocumentExprs(d)[k]).Ok?
    ensures FoldedDocument(schemas, d)
         == Err(Folded(ConstTable(FirstDecls(d.consts), schemas), schemas, DocumentExprs(d)[i]).error)
  {
    NoConstErrorMeansAllResolve(schemas, d);
    FirstErrorAt(ConstTable(FirstDecls(d.consts), schemas), schemas, DocumentExprs(d), i);
  }

  lemma {:induction false} FirstErrorAt(table: Table, schemas: Schemas, es: seq<Expr>, i: nat)
    requires i < |es| && Folded(table, schemas, es[i]).Err?
    requires forall k :: 0 <= k < i ==> Folded(table, schemas, es[k]).Ok?
    ensures FirstError(table, schemas, es) == Some(Folded(table, schemas, es[i]).error)
    decreases i
  {
    if i > 0 {
      FirstErrorAt(table, schemas, es[1..], i - 1);
    }
  }

  // ----- when self reference is the refusal -----

  /** In typable declarations nothing but a self reference is ever refused. */
  lemma {:induction false} TypedRefusesCyclesOnly(
    decls: Decls, schemas: Schemas, strings: set<string>, e: Expr, active: set<string>)
    requires Typed(decls, schemas, strings) && CompileTime(decls, schemas, strings, e)
    ensures var r := Eval(decls, schemas, e, active);
            if r.Ok? then r.value.Str? <==> StringShaped(e, strings) else r.error.kind.SelfReference?
    decreases decls.Keys - active, e
  {
    if e.List? {
      AllTypedRefuseCyclesOnly(decls, schemas, strings, e.items, active);
    } else if e.Binary? {
      TypedRefusesCyclesOnly(decls, schemas, strings, e.left, active);
      TypedRefusesCyclesOnly(decls, schemas, strings, e.right, active);
    } else if e.Ref? && e.name !in active {
      TypedRefusesCyclesOnly(decls, schemas, strings, decls[e.name], active + {e.name});
    }
  }

  lemma {:induction false} AllTypedRefuseCyclesOnly(
    decls: Decls, schemas: Schemas, strings: set<string>, es: seq<Expr>, active: set<string>)
    requires Typed(decls, schemas, strings) && forall e :: e in es ==> CompileTime(decls, schemas, strings, e)
    ensures var r := EvalAll(decls, schemas, es, active);
            r.Err? ==> r.error.kind.SelfReference?
    decreases decls.Keys - active, es
  {
    if es != [] {
      TypedRefusesCyclesOnly(decls, schemas, strings, es[0], active);
      AllTypedRefuseCyclesOnly(decls, schemas, strings, es[1..], active);
    }
  }

  /** So a document with typable consts is refused for self reference exactly if its references are cyclic. */
  lemma {:induction false} SelfReferenceIffCyclic(schemas: Schemas, d: Document, strings: set<string>)
    requires Typed(FirstDecls(d.consts), schemas, strings)
    ensures FoldedDocument(schemas, d).Err? && FoldedDocument(schemas, d).error.kind.SelfReference?
       <==> !Acyclic(FirstDecls(d.consts))
  {
    var decls := FirstDecls(d.consts);
    CyclesDecideSelfReference(schemas, d);
    NoConstErrorMeansAllResolve(schemas, d);
    AllResolveIff(decls, schemas);
    if !Acyclic(decls) {
      ConstErrorHasDeclaration(decls, schemas, d.consts);
      var n :| n in decls
            && ConstValue(decls, schemas, n) == Err(FirstConstError(decls, schemas, d.consts).value);
      TypedRefusesCyclesOnly(decls, schemas, strings, decls[n], {n});
    }
  }

  /** What a document is refused for: a fault in a declaration, or a schema that a step asks for. */
  ghost predicate RefusedFor(schemas: Schemas, d: Document, error: FoldError) {
    var decls := FirstDecls(d.consts);
    || (exists n, part :: n in decls && Within(part, decls[n]) && AtFault(decls, schemas, part, error))
    || (error.kind.SchemaUnavailable? && error.kind.name !in schemas
        && exists e :: e in DocumentExprs(d) && AsksAt(e, error.kind.name, error.span))
  }

  /** Somewhere in `e`, at any depth, the schema of `name` is asked for at `span`. */
  ghost predicate AsksAt(e: Expr, name: string, span: Span)
    decreases e
  {
    match e
    case SchemaOf(_, n, at) => n == name && at == span
    case List(_, items) => exists item | item in items :: AsksAt(item, name, span)
    case Record(_, _, args) => exists a | a in args :: AsksAt(a.value, name, span)
    case Field(_, base, _) => AsksAt(base, name, span)
    case Index(_, base, _) => AsksAt(base, name, span)
    case Not(_, operand) => AsksAt(operand, name, span)
    case Binary(_, left, _, right) => AsksAt(left, name, span) || AsksAt(right, name, span)
    case Predicate(_, subject, _) => AsksAt(subject, name, span)
    case CollectionPredicate(_, collection, _, condition) =>
      AsksAt(collection, name, span) || AsksAt(condition, name, span)
    case _ => false
  }

  ghost predicate Unavailable(schemas: Schemas, error: FoldError) {
    error.kind.SchemaUnavailable? && error.kind.name !in schemas
  }

  lemma {:induction false} FoldedRefusalIsReal(table: Table, schemas: Schemas, e: Expr)
    requires Folded(table, schemas, e).Err?
    ensures var error := Folded(table, schemas, e).error;
            Unavailable(schemas, error) && AsksAt(e, error.kind.name, error.span)
    decreases e
  {
    match e
    case List(_, items) => FoldedAllRefusalIsReal(table, schemas, items);
    case Record(_, _, args) => FoldedArgsRefusalIsReal(table, schemas, args);
    case Field(_, base, _) => FoldedRefusalIsReal(table, schemas, base);
    case Index(_, base, _) => FoldedRefusalIsReal(table, schemas, base);
    case Not(_, operand) => FoldedRefusalIsReal(table, schemas, operand);
    case Binary(_, left, _, right) =>
      FoldedRefusalIsReal(table, schemas, if Folded(table, schemas, left).Err? then left else right);
    case Predicate(_, subject, _) => FoldedRefusalIsReal(table, schemas, subject);
    case CollectionPredicate(_, collection, _, condition) =>
      FoldedRefusalIsReal(table, schemas, if Folded(table, schemas, collection).Err? then collection else condition);
    case _ =>
  }

  lemma {:induction false} FoldedAllRefusalIsReal(table: Table, schemas: Schemas, es: seq<Expr>)
    requires FoldedAll(table, schemas, es).Err?
    ensures var error := FoldedAll(table, schemas, es).error;
            Unavailable(schemas, error) && exists e :: e in es && AsksAt(e, error.kind.name, error.span)
    decreases es
  {
    if Folded(table, schemas, es[0]).Err? {
      FoldedRefusalIsReal(table, schemas, es[0]);
    } else {
      FoldedAllRefusalIsReal(table, schemas, es[1..]);
    }
  }

  lemma {:induction false} FoldedArgsRefusalIsReal(table: Table, schemas: Schemas, args: seq<Arg>)
    requires FoldedArgs(table, schemas, args).Err?
    ensures var error := FoldedArgs(table, schemas, args).error;
            Unavailable(schemas, error) && exists a :: a in args && AsksAt(a.value, error.kind.name, error.span)
    decreases args
  {
    if Folded(table, schemas, args[0].value).Err? {
      FoldedRefusalIsReal(table, schemas, args[0].value);
    } else {
      FoldedArgsRefusalIsReal(table, schemas, args[1..]);
    }
  }

  lemma {:induction false} FirstErrorIsReal(table: Table, schemas: Schemas, es: seq<Expr>)
    requires FirstError(table, schemas, es).Some?
    ensures var error := FirstError(table, schemas, es).value;
            Unavailable(schemas, error) && exists e :: e in es && AsksAt(e, error.kind.name, error.span)
  {
    if Folded(table, schemas, es[0]).Err? {
      FoldedRefusalIsReal(table, schemas, es[0]);
    } else {
      FirstErrorIsReal(table, schemas, es[1..]);
    }
  }

  /** A refused document has such a fault, where the refusal points. */
  lemma {:induction false} DocumentRefusalIsReal(schemas: Schemas, d: Document)
    requires FoldedDocument(schemas, d).Err?
    ensures RefusedFor(schemas, d, FoldedDocument(schemas, d).error)
  {
    var decls := FirstDecls(d.consts);
    NoConstErrorMeansAllResolve(schemas, d);
    if AllResolve(decls, schemas) {
      FirstErrorIsReal(ConstTable(decls, schemas), schemas, DocumentExprs(d));
    } else {
      ConstErrorHasDeclaration(decls, schemas, d.consts);
      var n :| n in decls
            && ConstValue(decls, schemas, n) == Err(FirstConstError(decls, schemas, d.consts).value);
      var part := RefusalIsReal(decls, schemas, decls[n], {n});
    }
  }
}
