/**
 Folding a whole document: what the result is, and what every successful or failing fold
 guarantees.
 */
module AwlFoldDocument {
  import opened Wrappers
  import opened AwlAst
  import opened AwlConsts
  import opened AwlSemantics
  import opened AwlFoldExpr
  import opened AwlWalk

  /** The rewriting of one position; positions that do not fold are never rewritten. */
  ghost function FoldWith(table: Table, schemas: Schemas): Expr -> Expr {
    (e: Expr) => if Folded(table, schemas, e).Ok? then Folded(table, schemas, e).value else e
  }

  /** The error of the first position that does not fold. */
  ghost function FirstError(table: Table, schemas: Schemas, es: seq<Expr>): Option<FoldError> {
    if es == [] then None
    else if Folded(table, schemas, es[0]).Err? then Some(Folded(table, schemas, es[0]).error)
    else FirstError(table, schemas, es[1..])
  }

  lemma {:induction false} FirstErrorConcat(table: Table, schemas: Schemas, a: seq<Expr>, b: seq<Expr>)
    ensures FirstError(table, schemas, a + b)
         == if FirstError(table, schemas, a).Some? then FirstError(table, schemas, a) else FirstError(table, schemas, b)
  {
    if a == [] {
      assert a + b == b;
    } else {
      FirstErrorConcat(table, schemas, a[1..], b);
      assert (a + b)[1..] == a[1..] + b;
    }
  }

  lemma {:induction false} FirstErrorNone(table: Table, schemas: Schemas, es: seq<Expr>)
    ensures FirstError(table, schemas, es).None? <==> forall e :: e in es ==> Folded(table, schemas, e).Ok?
  {
    if es != [] {
      FirstErrorNone(table, schemas, es[1..]);
      if Folded(table, schemas, es[0]).Ok? {
        forall e | e in es[1..] ensures e in es {
        }
      } else {
        assert es[0] in es;
      }
    }
  }

  lemma {:induction false} FirstDeclsNames(consts: seq<ConstDecl>)
    ensures forall d :: d in consts ==> d.name in FirstDecls(consts)
    ensures forall n :: n in FirstDecls(consts) ==> exists d :: d in consts && d.name == n
  {
    if consts != [] {
      FirstDeclsNames(consts[1..]);
      assert forall d :: d in consts ==> d == consts[0] || d in consts[1..];
    }
  }

  /** The error of the first declaration, in source order, whose const has no value. */
  ghost function FirstConstError(decls: Decls, schemas: Schemas, consts: seq<ConstDecl>): Option<FoldError>
    requires forall d :: d in consts ==> d.name in decls
  {
    if consts == [] then None
    else if ConstValue(decls, schemas, consts[0].name).Err? then
      Some(ConstValue(decls, schemas, consts[0].name).error)
    else FirstConstError(decls, schemas, consts[1..])
  }

  lemma {:induction false} FirstConstErrorNone(decls: Decls, schemas: Schemas, consts: seq<ConstDecl>)
    requires forall d :: d in consts ==> d.name in decls
    ensures FirstConstError(decls, schemas, consts).None?
       <==> forall d :: d in consts ==> ConstValue(decls, schemas, d.name).Ok?
  {
    if consts != [] {
      FirstConstErrorNone(decls, schemas, consts[1..]);
    }
  }

  lemma NoConstErrorMeansAllResolve(schemas: Schemas, d: Document)
    ensures forall c :: c in d.consts ==> c.name in FirstDecls(d.consts)
    ensures FirstConstError(FirstDecls(d.consts), schemas, d.consts).None?
       <==> AllResolve(FirstDecls(d.consts), schemas)
  {
    FirstDeclsNames(d.consts);
    FirstConstErrorNone(FirstDecls(d.consts), schemas, d.consts);
  }

  /** What folding a document yields. Only steps and subflow steps are rewritten. */
  ghost function FoldedDocument(schemas: Schemas, d: Document): Result<Document, FoldError> {
    NoConstErrorMeansAllResolve(schemas, d);
    var decls := FirstDecls(d.consts);
    var constError := FirstConstError(decls, schemas, d.consts);
    if constError.Some? then Err(constError.value)
    else
      var table := ConstTable(decls, schemas);
      var error := FirstError(table, schemas, DocumentExprs(d));
      if error.Some? then Err(error.value) else Ok(MapDocument(FoldWith(table, schemas), d))
  }

  // ----- what a fold guarantees -----

  lemma {:induction false} MapExprsAt(f: Expr -> Expr, es: seq<Expr>, i: nat)
    requires i < |es|
    ensures |MapExprs(f, es)| == |es| && MapExprs(f, es)[i] == f(es[i])
  {
    if |es| > 1 {
      MapExprsAt(f, es[1..], if i > 0 then i - 1 else 0);
    }
  }

  lemma MapExprsLength(f: Expr -> Expr, es: seq<Expr>)
    ensures |MapExprs(f, es)| == |es|
  {
    if es != [] {
      MapExprsAt(f, es, 0);
    }
  }

  /** Positions correspond one to one, and each folds on its own. */
  lemma {:induction false} FoldedPositions(schemas: Schemas, d: Document, i: nat)
    requires FoldedDocument(schemas, d).Ok? && i < |DocumentExprs(d)|
    ensures AllResolve(FirstDecls(d.consts), schemas)
    ensures |DocumentExprs(FoldedDocument(schemas, d).value)| == |DocumentExprs(d)|
    ensures Folded(ConstTable(FirstDecls(d.consts), schemas), schemas, DocumentExprs(d)[i])
         == Ok(DocumentExprs(FoldedDocument(schemas, d).value)[i])
  {
    NoConstErrorMeansAllResolve(schemas, d);
    var table := ConstTable(FirstDecls(d.consts), schemas);
    FirstErrorNone(table, schemas, DocumentExprs(d));
    ExprsOfMappedDocument(FoldWith(table, schemas), d);
    MapExprsAt(FoldWith(table, schemas), DocumentExprs(d), i);
    assert DocumentExprs(d)[i] in DocumentExprs(d);
  }

  /** `e'` under runtime bindings alone means what `e` means with the consts on top of them. */
  ghost predicate SameMeaning(rt: Runtime, schemas: Schemas, consts: Env, e': Expr, e: Expr) {
    forall env, item :: ValueOf(rt, schemas, e', env, item) == ValueOf(rt, schemas, e, env + consts, item)
  }

  /** Every expression position of the folded document means what the original position meant. */
  lemma {:induction false} FoldPreservesMeaning(rt: Runtime, schemas: Schemas, d: Document, d': Document)
    requires JoinsStrings(rt) && FoldedDocument(schemas, d) == Ok(d')
    ensures |DocumentExprs(d')| == |DocumentExprs(d)|
    ensures forall consts, i :: ConstEnv(rt, schemas, FirstDecls(d.consts), consts) && 0 <= i < |DocumentExprs(d)| ==>
              SameMeaning(rt, schemas, consts, DocumentExprs(d')[i], DocumentExprs(d)[i])
  {
    PositionCount(schemas, d);
    forall consts, i | ConstEnv(rt, schemas, FirstDecls(d.consts), consts) && 0 <= i < |DocumentExprs(d)|
      ensures SameMeaning(rt, schemas, consts, DocumentExprs(d')[i], DocumentExprs(d)[i])
    {
      PositionKeepsMeaning(rt, schemas, d, consts, i);
    }
  }

  lemma {:induction false} PositionKeepsMeaning(rt: Runtime, schemas: Schemas, d: Document, consts: Env, i: nat)
    requires JoinsStrings(rt) && FoldedDocument(schemas, d).Ok?
    requires ConstEnv(rt, schemas, FirstDecls(d.consts), consts) && i < |DocumentExprs(d)|
    ensures i < |DocumentExprs(FoldedDocument(schemas, d).value)|
    ensures SameMeaning(rt, schemas, consts, DocumentExprs(FoldedDocument(schemas, d).value)[i], DocumentExprs(d)[i])
  {
    var decls, e := FirstDecls(d.consts), DocumentExprs(d)[i];
    FoldedPositions(schemas, d, i);
    forall env, item
      ensures ValueOf(rt, schemas, Folded(ConstTable(decls, schemas), schemas, e).value, env, item)
           == ValueOf(rt, schemas, e, env + consts, item)
    {
      FoldedMeansSource(rt, schemas, decls, consts, e, env, item);
    }
  }

  lemma ConstTableIsLiteral(decls: Decls, schemas: Schemas)
    requires AllResolve(decls, schemas)
    ensures LiteralTable(ConstTable(decls, schemas))
  {
    forall n | n in decls ensures Literal(ConstTable(decls, schemas)[n]) {
      EvalGivesLiteral(decls, schemas, decls[n], {n});
    }
  }

  ghost predicate AllNormal(names: set<string>, es: seq<Expr>) {
    forall i :: 0 <= i < |es| ==> Normal(names, es[i])
  }

  lemma PositionCount(schemas: Schemas, d: Document)
    requires FoldedDocument(schemas, d).Ok?
    ensures |DocumentExprs(FoldedDocument(schemas, d).value)| == |DocumentExprs(d)|
  {
    NoConstErrorMeansAllResolve(schemas, d);
    var f := FoldWith(ConstTable(FirstDecls(d.consts), schemas), schemas);
    ExprsOfMappedDocument(f, d);
    MapExprsLength(f, DocumentExprs(d));
  }

  /** After folding, no compile-time form and no const reference is left in any position. */
  lemma {:induction false} FoldReachesNormalForm(schemas: Schemas, d: Document)
    requires FoldedDocument(schemas, d).Ok?
    ensures AllNormal(FirstDecls(d.consts).Keys, DocumentExprs(FoldedDocument(schemas, d).value))
  {
    var decls := FirstDecls(d.consts);
    var es' := DocumentExprs(FoldedDocument(schemas, d).value);
    PositionCount(schemas, d);
    forall i | 0 <= i < |es'| ensures Normal(decls.Keys, es'[i]) {
      FoldedPositions(schemas, d, i);
      ConstTableIsLiteral(decls, schemas);
      assert ConstTable(decls, schemas).Keys == decls.Keys;
      FoldedIsNormal(ConstTable(decls, schemas), schemas, DocumentExprs(d)[i]);
    }
  }

  lemma {:induction false} NormalPositionsFold(table: Table, schemas: Schemas, es: seq<Expr>)
    requires AllNormal(table.Keys, es)
    ensures FirstError(table, schemas, es).None? && Fixes(FoldWith(table, schemas), es)
  {
    forall e | e in es ensures Folded(table, schemas, e) == Ok(e) {
      var i :| 0 <= i < |es| && es[i] == e;
      FoldedFixesNormal(table, schemas, es[i]);
    }
    FirstErrorNone(table, schemas, es);
  }

  /** A document folds to itself exactly when its consts resolve and its positions are normal. */
  lemma {:induction false} FoldsToItselfIff(schemas: Schemas, d: Document)
    ensures FoldedDocument(schemas, d) == Ok(d)
       <==> AllResolve(FirstDecls(d.consts), schemas) && AllNormal(FirstDecls(d.consts).Keys, DocumentExprs(d))
  {
    var decls := FirstDecls(d.consts);
    NoConstErrorMeansAllResolve(schemas, d);
    if FoldedDocument(schemas, d) == Ok(d) {
      FoldReachesNormalForm(schemas, d);
    } else if AllResolve(decls, schemas) && AllNormal(decls.Keys, DocumentExprs(d)) {
      var table := ConstTable(decls, schemas);
      assert table.Keys == decls.Keys;
      NormalPositionsFold(table, schemas, DocumentExprs(d));
      MapDocumentFixed(FoldWith(table, schemas), d);
    }
  }

  /** Folding a folded document changes nothing. */
  lemma {:induction false} FoldIsIdempotent(schemas: Schemas, d: Document)
    requires FoldedDocument(schemas, d).Ok?
    ensures FoldedDocument(schemas, FoldedDocument(schemas, d).value) == FoldedDocument(schemas, d)
  {
    NoConstErrorMeansAllResolve(schemas, d);
    FoldReachesNormalForm(schemas, d);
    FoldsToItselfIff(schemas, FoldedDocument(schemas, d).value);
  }

  /** The only way a step expression can fail to fold is a schema that cannot be derived. */
  lemma {:induction false} FoldedFailsOnSchemasOnly(table: Table, schemas: Schemas, e: Expr)
    requires Folded(table, schemas, e).Err?
    ensures Folded(table, schemas, e).error.kind.SchemaUnavailable?
    decreases e
  {
    match e
    case List(_, items) => FoldedAllFailsOnSchemasOnly(table, schemas, items);
    case Record(_, _, args) => FoldedArgsFailsOnSchemasOnly(table, schemas, args);
    case Field(_, base, _) => FoldedFailsOnSchemasOnly(table, schemas, base);
    case Index(_, base, _) => FoldedFailsOnSchemasOnly(table, schemas, base);
    case Not(_, operand) => FoldedFailsOnSchemasOnly(table, schemas, operand);
    case Binary(_, left, _, right) =>
      if Folded(table, schemas, left).Err? {
        FoldedFailsOnSchemasOnly(table, schemas, left);
      } else {
        FoldedFailsOnSchemasOnly(table, schemas, right);
      }
    case Predicate(_, subject, _) => FoldedFailsOnSchemasOnly(table, schemas, subject);
    case CollectionPredicate(_, collection, _, condition) =>
      if Folded(table, schemas, collection).Err? {
        FoldedFailsOnSchemasOnly(table, schemas, collection);
      } else {
        FoldedFailsOnSchemasOnly(table, schemas, condition);
      }
    case _ =>
  }

  lemma {:induction false} FoldedAllFailsOnSchemasOnly(table: Table, schemas: Schemas, es: seq<Expr>)
    requires FoldedAll(table, schemas, es).Err?
    ensures FoldedAll(table, schemas, es).error.kind.SchemaUnavailable?
    decreases es
  {
    if Folded(table, schemas, es[0]).Err? {
      FoldedFailsOnSchemasOnly(table, schemas, es[0]);
    } else {
      FoldedAllFailsOnSchemasOnly(table, schemas, es[1..]);
    }
  }

  lemma {:induction false} FoldedArgsFailsOnSchemasOnly(table: Table, schemas: Schemas, args: seq<Arg>)
    requires FoldedArgs(table, schemas, args).Err?
    ensures FoldedArgs(table, schemas, args).error.kind.SchemaUnavailable?
    decreases args
  {
    if Folded(table, schemas, args[0].value).Err? {
      FoldedFailsOnSchemasOnly(table, schemas, args[0].value);
    } else {
      FoldedArgsFailsOnSchemasOnly(table, schemas, args[1..]);
    }
  }

  lemma {:induction false} FirstErrorIsSchema(table: Table, schemas: Schemas, es: seq<Expr>)
    requires FirstError(table, schemas, es).Some?
    ensures FirstError(table, schemas, es).value.kind.SchemaUnavailable?
  {
    if Folded(table, schemas, es[0]).Err? {
      FoldedFailsOnSchemasOnly(table, schemas, es[0]);
    } else {
      FirstErrorIsSchema(table, schemas, es[1..]);
    }
  }

  lemma {:induction false} ConstErrorHasDeclaration(decls: Decls, schemas: Schemas, consts: seq<ConstDecl>)
    requires forall d :: d in consts ==> d.name in decls
    requires FirstConstError(decls, schemas, consts).Some?
    ensures exists n :: n in decls && ConstValue(decls, schemas, n) == Err(FirstConstError(decls, schemas, consts).value)
  {
    if ConstValue(decls, schemas, consts[0].name).Ok? {
      ConstErrorHasDeclaration(decls, schemas, consts[1..]);
    }
  }

  /** A fold that succeeds has an acyclic reference graph; a self-reference refusal has a cyclic one. */
  lemma {:induction false} CyclesDecideSelfReference(schemas: Schemas, d: Document)
    ensures FoldedDocument(schemas, d).Ok? ==> Acyclic(FirstDecls(d.consts))
    ensures FoldedDocument(schemas, d).Err? && FoldedDocument(schemas, d).error.kind.SelfReference? ==>
              !Acyclic(FirstDecls(d.consts))
  {
    NoConstErrorMeansAllResolve(schemas, d);
    var decls := FirstDecls(d.consts);
    if AllResolve(decls, schemas) {
      ResolvedIsAcyclic(decls, schemas);
      if FirstError(ConstTable(decls, schemas), schemas, DocumentExprs(d)).Some? {
        FirstErrorIsSchema(ConstTable(decls, schemas), schemas, DocumentExprs(d));
      }
    } else {
      ConstErrorHasDeclaration(decls, schemas, d.consts);
      var n :| n in decls
            && ConstValue(decls, schemas, n) == Err(FirstConstError(decls, schemas, d.consts).value);
      if ConstValue(decls, schemas, n).error.kind.SelfReference? {
        SelfReferenceIsCyclic(decls, schemas, n);
      }
    }
  }
}
