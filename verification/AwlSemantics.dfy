/**
 What an AWL expression means: a value, or none, in an environment of bindings.

 The runtime operators are parameters, so every result about meaning holds for every
 choice of them. Operators receive operands that may have no value, which lets a
 runtime short-circuit. Only `+` on strings is fixed, because folding computes it.
 */
module AwlSemantics {
  import opened Wrappers
  import opened AwlAst
  import opened AwlConsts

  datatype Val =
    | VStr(text: string)
    | VInt(number: nat)
    | VFloat(lexeme: string)
    | VBool(truth: bool)
    | VDuration(magnitude: nat, unit: DurationUnit)
    | VVariant(name: string)
    | VRecord(name: string, fields: map<string, Val>)
    | VList(items: seq<Val>)

  type Meaning = Option<Val>
  type Env = map<string, Val>

  datatype Operator =
    | OpBinary(op: BinaryOp)
    | OpNot
    | OpField(name: string)
    | OpIndex(index: nat)
    | OpRecord(name: string, fields: seq<string>)
    | OpVariant(name: string)
    | OpWorkflow
    | OpTest(kind: PredicateKind)
    | OpQuantify(quantifier: Quantifier)

  type Runtime = (Operator, seq<Meaning>) -> Meaning

  ghost predicate JoinsStrings(rt: Runtime) {
    forall a, b :: rt(OpBinary(Concat), [Some(VStr(a)), Some(VStr(b))]) == Some(VStr(a + b))
  }

  ghost function Gather(ms: seq<Meaning>): Meaning {
    if exists m :: m in ms && m.None? then None
    else Some(VList(seq(|ms|, i requires 0 <= i < |ms| => assert ms[i] in ms; ms[i].value)))
  }

  /** `item` is what a bare `.field` accessor reads inside a collection predicate. */
  ghost function ValueOf(rt: Runtime, schemas: Schemas, e: Expr, env: Env, item: Meaning): Meaning
    decreases e, 0
  {
    match e
    case Str(_, text) => Some(VStr(text))
    case RawStr(_, text) => Some(VStr(text))
    case Json(_, body) => Some(VStr(body))
    case SchemaOf(_, name, _) => if name in schemas then Some(VStr(schemas[name])) else None
    case IntLit(_, number) => Some(VInt(number))
    case FloatLit(_, lexeme) => Some(VFloat(lexeme))
    case BoolLit(_, truth) => Some(VBool(truth))
    case Duration(_, magnitude, unit) => Some(VDuration(magnitude, unit))
    case List(_, items) => Gather(ValuesOf(rt, schemas, items, env, item))
    case Ref(_, name) => if name in env then Some(env[name]) else None
    case Workflow(_) => rt(OpWorkflow, [])
    case Variant(_, name) => rt(OpVariant(name), [])
    case Record(_, name, args) =>
      rt(OpRecord(name, ArgNames(args)), ArgValuesOf(rt, schemas, args, env, item))
    case Field(_, base, name) => rt(OpField(name), [ValueOf(rt, schemas, base, env, item)])
    case Index(_, base, index) => rt(OpIndex(index), [ValueOf(rt, schemas, base, env, item)])
    case Accessor(_, name) => rt(OpField(name), [item])
    case Not(_, operand) => rt(OpNot, [ValueOf(rt, schemas, operand, env, item)])
    case Binary(_, left, op, right) =>
      rt(OpBinary(op), [ValueOf(rt, schemas, left, env, item), ValueOf(rt, schemas, right, env, item)])
    case Predicate(_, subject, kind) => rt(OpTest(kind), [ValueOf(rt, schemas, subject, env, item)])
    case CollectionPredicate(_, collection, quantifier, condition) =>
      var over := ValueOf(rt, schemas, collection, env, item);
      rt(OpQuantify(quantifier), [over] + ValuePerItem(rt, schemas, condition, env, ItemsOf(over)))
  }

  ghost function ItemsOf(m: Meaning): seq<Val> {
    if m.Some? && m.value.VList? then m.value.items else []
  }

  ghost function ValuePerItem(rt: Runtime, schemas: Schemas, e: Expr, env: Env, items: seq<Val>): seq<Meaning>
    decreases e, 1, |items|
  {
    if items == [] then []
    else [ValueOf(rt, schemas, e, env, Some(items[0]))] + ValuePerItem(rt, schemas, e, env, items[1..])
  }

  ghost function ValuesOf(rt: Runtime, schemas: Schemas, es: seq<Expr>, env: Env, item: Meaning): (ms: seq<Meaning>)
    decreases es
  {
    if es == [] then []
    else [ValueOf(rt, schemas, es[0], env, item)] + ValuesOf(rt, schemas, es[1..], env, item)
  }

  ghost function ArgValuesOf(rt: Runtime, schemas: Schemas, args: seq<Arg>, env: Env, item: Meaning): seq<Meaning>
    decreases args
  {
    if args == [] then []
    else [ValueOf(rt, schemas, args[0].value, env, item)] + ArgValuesOf(rt, schemas, args[1..], env, item)
  }

  ghost function ArgNames(args: seq<Arg>): seq<string> {
    if args == [] then [] else [args[0].name] + ArgNames(args[1..])
  }
}
