/**
 The two placeholder scanners of the shell worker (crates/aion-cli/src/worker_shell.rs): the
 validator a manifest passes once, and the expansion each activity performs with its input.

 Both walk the text from one `{` to the next `}`. Every text reads as exactly one `Template`, so
 what each scanner answers can be said of the template alone.
 */
module Placeholders {
  import opened Wrappers

  datatype Json =
    | Null
    | Bool(truth: bool)
    | Number(text: string)
    | String(text: string)
    | Array(items: seq<Json>)
    | Object(fields: map<string, Json>)

  datatype Hole = Whole | Field(name: string)

  datatype Template =
    | Tail(text: string)
    | Broken(text: string)
    | Piece(before: string, hole: Hole, rest: Template)

  datatype Refusal =
    | Unterminated
    | Unsupported(placeholder: string)
    | UnmatchedClose

  datatype Failure =
    | NotEncodable
    | BadTemplate(refusal: Refusal)
    | NoSuchField(field: string)
    | NotScalar(field: string)

  /** The two spellings of a placeholder: complete, and up to a field's name. */
  datatype Markers = Markers(whole: string, dot: string)

  function InputMarkers(): (m: Markers)
    ensures WellFormed(m)
  {
    Markers("{input}", "{input.")
  }

  /** All the scanners need of them: they open with `{`, differ in the last character, and close with `}`. */
  predicate WellFormed(m: Markers) {
    && |m.whole| == |m.dot| > 1 && m.whole[0] == '{' && m.dot[0] == '{'
    && Find(m.whole, '}') == |m.whole| - 1 && Find(m.dot, '}') == |m.dot|
  }

  // ----- reading a text as a template -----

  ghost predicate Without(s: string, c: char) {
    forall k :: 0 <= k < |s| ==> s[k] != c
  }

  /** Where `c` first occurs, or the length. */
  function Find(s: string, c: char): (i: nat)
    ensures i <= |s| && (forall k :: 0 <= k < i ==> s[k] != c) && (i < |s| ==> s[i] == c)
  {
    FindFrom(s, c, 0)
  }

  function FindFrom(s: string, c: char, from: nat): (i: nat)
    requires from <= |s|
    ensures from <= i <= |s| && (forall k :: from <= k < i ==> s[k] != c) && (i < |s| ==> s[i] == c)
    decreases |s| - from
  {
    if from == |s| || s[from] == c then from else FindFrom(s, c, from + 1)
  }

  lemma FindIs(s: string, c: char, i: nat)
    requires i <= |s| && (forall k :: 0 <= k < i ==> s[k] != c) && (i < |s| ==> s[i] == c)
    ensures Find(s, c) == i
  {
  }

  lemma FindInPrefix(s: string, c: char, i: nat)
    requires Find(s, c) == i < |s|
    ensures Find(s[..i + 1], c) == i
  {
    FindIs(s[..i + 1], c, i);
  }

  lemma CutTwice(s: string, i: nat, j: nat)
    requires i <= |s| && j <= |s[i..]|
    ensures s == s[..i] + s[i..][..j] + s[i..][j..]
  {
  }

  function HoleText(m: Markers, hole: Hole): string {
    match hole
    case Whole => m.whole
    case Field(name) => m.dot + name + "}"
  }

  /** The hole of a placeholder, which ends with `}`. */
  function HoleOf(m: Markers, placeholder: string): Option<Hole> {
    if placeholder == m.whole then Some(Whole)
    else if |placeholder| > |m.dot| && placeholder[..|m.dot|] == m.dot
    then Some(Field(placeholder[|m.dot|..|placeholder| - 1]))
    else None
  }

  /** How far the scan gets: no placeholder, a faulty one, or one with the text on its sides. */
  datatype Scan =
    | Clear
    | Stuck(refusal: Refusal)
    | Found(before: string, placeholder: string, hole: Hole, rest: string)

  function Next(m: Markers, text: string): Scan {
    var start := Find(text, '{');
    if start == |text| then Clear
    else
      var after := text[start..];
      var end := Find(after, '}');
      if end == |after| then Stuck(Unterminated)
      else
        var hole := HoleOf(m, after[..end + 1]);
        if hole.None? then Stuck(Unsupported(after[..end + 1]))
        else Found(text[..start], after[..end + 1], hole.value, after[end + 1..])
  }

  ghost function Show(m: Markers, t: Template): string {
    match t
    case Tail(text) => text
    case Broken(text) => text
    case Piece(before, hole, rest) => before + HoleText(m, hole) + Show(m, rest)
  }

  ghost predicate ProperPiece(before: string, hole: Hole) {
    Without(before, '{') && (hole.Field? ==> Without(hole.name, '}'))
  }

  /** Literals hold no `{`, field names no `}`, and a broken end is where the scan gets stuck. */
  ghost predicate Proper(m: Markers, t: Template) {
    match t
    case Tail(text) => Without(text, '{')
    case Broken(text) => Next(m, text).Stuck?
    case Piece(before, hole, rest) => ProperPiece(before, hole) && Proper(m, rest)
  }

  ghost function Read(m: Markers, text: string): (t: Template)
    decreases |text|
  {
    match Next(m, text)
    case Clear => Tail(text)
    case Stuck(_) => Broken(text)
    case Found(before, _, hole, rest) => Piece(before, hole, Read(m, rest))
  }

  /** A closed placeholder has no other `}`, so its hole shows as the placeholder. */
  lemma {:induction false} HoleOfShows(m: Markers, placeholder: string)
    requires WellFormed(m) && |placeholder| > 0 && HoleOf(m, placeholder).Some?
    requires Find(placeholder, '}') == |placeholder| - 1
    ensures HoleText(m, HoleOf(m, placeholder).value) == placeholder
    ensures HoleOf(m, placeholder).value.Field? ==> Without(HoleOf(m, placeholder).value.name, '}')
  {
    if placeholder != m.whole {
      var n := |placeholder| - 1;
      assert placeholder == placeholder[..|m.dot|] + placeholder[|m.dot|..n] + [placeholder[n]];
    }
  }

  lemma {:induction false} HoleShowsClosed(m: Markers, hole: Hole)
    requires WellFormed(m) && (hole.Field? ==> Without(hole.name, '}'))
    ensures HoleOf(m, HoleText(m, hole)) == Some(hole)
    ensures |HoleText(m, hole)| > 0 && HoleText(m, hole)[0] == '{'
    ensures Find(HoleText(m, hole), '}') == |HoleText(m, hole)| - 1
  {
    if hole.Field? {
      var text := HoleText(m, hole);
      FindIs(text, '}', |text| - 1);
      assert text[..|m.dot|] == m.dot && text[|m.dot|..|text| - 1] == hole.name;
      assert text[|m.dot| - 1] == m.dot[|m.dot| - 1];
    }
  }

  /** The scan of a literal, a hole and the rest finds exactly those. */
  lemma {:induction false} NextOfPiece(m: Markers, before: string, hole: Hole, rest: string, text: string)
    requires WellFormed(m) && ProperPiece(before, hole) && text == before + HoleText(m, hole) + rest
    ensures Next(m, text) == Found(before, HoleText(m, hole), hole, rest)
  {
    HoleShowsClosed(m, hole);
    var h := HoleText(m, hole);
    FindIs(text, '{', |before|);
    assert text[..|before|] == before;
    var after := text[|before|..];
    assert after == h + rest;
    FindIs(after, '}', |h| - 1);
    assert after[..|h|] == h && after[|h|..] == rest;
  }

  /** And what the scan finds is a literal, a hole and the rest. */
  lemma {:induction false} PieceOfNext(m: Markers, text: string, s: Scan)
    requires WellFormed(m) && s == Next(m, text) && s.Found?
    ensures s.placeholder == HoleText(m, s.hole) && ProperPiece(s.before, s.hole)
    ensures text == s.before + HoleText(m, s.hole) + s.rest && |s.rest| < |text|
  {
    var start := Find(text, '{');
    var end := Find(text[start..], '}');
    CutTwice(text, start, end + 1);
    FindInPrefix(text[start..], '}', end);
    HoleOfShows(m, s.placeholder);
  }

  /** Every text reads as one proper template, which shows as that text. */
  lemma {:induction false} ReadShows(m: Markers, text: string)
    requires WellFormed(m)
    ensures Proper(m, Read(m, text)) && Show(m, Read(m, text)) == text
    decreases |text|
  {
    var s := Next(m, text);
    if s.Found? {
      PieceOfNext(m, text, s);
      ReadShows(m, s.rest);
    }
  }

  /** And no other: showing a proper template and reading it again is the identity. */
  lemma {:induction false} ShowReads(m: Markers, t: Template)
    requires WellFormed(m) && Proper(m, t)
    ensures Read(m, Show(m, t)) == t
  {
    match t
    case Tail(text) =>
      FindIs(text, '{', |text|);
    case Broken(text) =>
    case Piece(before, hole, rest) =>
      NextOfPiece(m, before, hole, Show(m, rest), Show(m, t));
      ShowReads(m, rest);
  }

  // ----- validation -----

  predicate IsNameChar(c: char) {
    c == '_' || 'a' <= c <= 'z' || 'A' <= c <= 'Z' || '0' <= c <= '9'
  }

  predicate IsName(name: string) {
    name != "" && forall i :: 0 <= i < |name| ==> IsNameChar(name[i])
  }

  /** Nothing is broken and every field placeholder has a plain name. */
  ghost predicate Named(t: Template) {
    match t
    case Tail(_) => true
    case Broken(_) => false
    case Piece(_, hole, rest) => (hole.Field? ==> IsName(hole.name)) && Named(rest)
  }

  /** The text after the last placeholder. */
  ghost function End(t: Template): string {
    match t
    case Tail(text) => text
    case Broken(text) => text
    case Piece(_, _, rest) => End(rest)
  }

  /** The templates a manifest may hold. */
  ghost predicate Accepted(m: Markers, t: Template) {
    Proper(m, t) && Named(t) && Without(End(t), '}')
  }

  /** The first refusal from the left. */
  ghost function Verdict(m: Markers, t: Template): Option<Refusal>
    requires Proper(m, t)
  {
    match t
    case Tail(text) => if Without(text, '}') then None else Some(UnmatchedClose)
    case Broken(text) => Some(Next(m, text).refusal)
    case Piece(_, hole, rest) =>
      if hole.Field? && !IsName(hole.name) then Some(Unsupported(HoleText(m, hole))) else Verdict(m, rest)
  }

  /** Nothing is refused exactly in the accepted templates. */
  lemma {:induction false} NoVerdictIff(m: Markers, t: Template)
    requires Proper(m, t)
    ensures Verdict(m, t).None? <==> Accepted(m, t)
    ensures Verdict(m, t) == Some(UnmatchedClose) <==> Named(t) && !Without(End(t), '}')
  {
    if t.Piece? {
      NoVerdictIff(m, t.rest);
    }
  }

  lemma {:induction false} AcceptedIff(m: Markers, value: string)
    requires WellFormed(m)
    ensures Proper(m, Read(m, value))
    ensures Verdict(m, Read(m, value)).None? <==> exists t :: Accepted(m, t) && Show(m, t) == value
  {
    ReadShows(m, value);
    NoVerdictIff(m, Read(m, value));
    if t :| Accepted(m, t) && Show(m, t) == value {
      ShowReads(m, t);
    }
  }

  /** Accepts exactly the texts that show an accepted template, and otherwise reports the first refusal. */
  method ValidatePlaceholders(value: string) returns (r: Option<Refusal>)
    ensures var m := InputMarkers();
            Proper(m, Read(m, value)) && r == Verdict(m, Read(m, value))
    ensures r.None? <==> exists t :: Accepted(InputMarkers(), t) && Show(InputMarkers(), t) == value
  {
    AcceptedIff(InputMarkers(), value);
    r := Validate(InputMarkers(), value);
  }

  /** The validator's own test of a placeholder. */
  predicate Supported(m: Markers, placeholder: string) {
    || placeholder == m.whole
    || (|placeholder| > |m.dot| + 1 && placeholder[..|m.dot|] == m.dot
        && IsName(placeholder[|m.dot|..|placeholder| - 1]))
  }

  /** One turn of the validator's loop. */
  lemma {:induction false} VerdictStep(m: Markers, text: string, s: Scan)
    requires WellFormed(m) && s == Next(m, text) && Proper(m, Read(m, text))
    ensures s.Stuck? && s.refusal.Unsupported? ==> !Supported(m, s.refusal.placeholder)
    ensures s.Stuck? ==> Verdict(m, Read(m, text)) == Some(s.refusal)
    ensures s.Found? ==>
              && Proper(m, Read(m, s.rest))
              && Verdict(m, Read(m, text)) == if Supported(m, s.placeholder) then Verdict(m, Read(m, s.rest))
                                              else Some(Unsupported(s.placeholder))
  {
    if s.Found? {
      PieceOfNext(m, text, s);
      SupportedIff(m, s.placeholder);
    } else if s.Stuck? && s.refusal.Unsupported? {
      SupportedIff(m, s.refusal.placeholder);
    }
  }

  lemma SupportedIff(m: Markers, placeholder: string)
    ensures Supported(m, placeholder)
       <==> var hole := HoleOf(m, placeholder);
            hole.Some? && (hole.value.Field? ==> IsName(hole.value.name))
  {
  }

  method Validate(m: Markers, value: string) returns (r: Option<Refusal>)
    requires WellFormed(m)
    ensures Proper(m, Read(m, value)) && r == Verdict(m, Read(m, value))
  {
    ReadShows(m, value);
    var rest := value;
    while true
      invariant Proper(m, Read(m, rest)) && Verdict(m, Read(m, value)) == Verdict(m, Read(m, rest))
      decreases |rest|
    {
      var start := Find(rest, '{');
      if start == |rest| {
        break;
      }
      var after := rest[start..];
      var end := Find(after, '}');
      if end == |after| {
        return Some(Unterminated);
      }
      var placeholder := after[..end + 1];
      VerdictStep(m, rest, Next(m, rest));
      if !Supported(m, placeholder) {
        return Some(Unsupported(placeholder));
      }
      rest := after[end + 1..];
    }
    r := if Find(rest, '}') < |rest| then Some(UnmatchedClose) else None;
  }

  /** What stands in front of a placeholder, be it a stray `}`, does not affect the verdict. */
  lemma {:induction false} StrayCloseIsMissed(m: Markers, before: string, hole: Hole, value: string, text: string)
    requires WellFormed(m) && Without(before, '{') && (hole.Field? ==> IsName(hole.name))
    requires text == before + HoleText(m, hole) + value
    ensures Proper(m, Read(m, value)) && Proper(m, Read(m, text))
    ensures Verdict(m, Read(m, text)) == Verdict(m, Read(m, value))
  {
    ReadShows(m, value);
    NextOfPiece(m, before, hole, value, text);
  }

  /** Without a placeholder behind it, a stray `}` is refused. */
  lemma {:induction false} StrayCloseIsSeen(m: Markers, text: string)
    requires WellFormed(m) && Without(text, '{')
    ensures Proper(m, Read(m, text))
    ensures Verdict(m, Read(m, text)) == if Without(text, '}') then None else Some(UnmatchedClose)
  {
    FindIs(text, '{', |text|);
  }

  // ----- expansion -----

  function Get(input: Json, field: string): Option<Json> {
    if input.Object? && field in input.fields then Some(input.fields[field]) else None
  }

  function Scalar(field: string, value: Json): Result<string, Failure> {
    match value
    case String(text) => Ok(text)
    case Number(text) => Ok(text)
    case Bool(truth) => Ok(if truth then "true" else "false")
    case Null => Err(NotScalar(field))
    case Array(_) => Err(NotScalar(field))
    case Object(_) => Err(NotScalar(field))
  }

  /** What stands for a placeholder, given the input and its JSON text. */
  function Projection(hole: Hole, input: Json, whole: string): Result<string, Failure> {
    match hole
    case Whole => Ok(whole)
    case Field(name) =>
      var value := Get(input, name);
      if value.None? then Err(NoSuchField(name)) else Scalar(name, value.value)
  }

  /** The expansion of a template: the first problem from the left decides. */
  ghost function Expansion(m: Markers, t: Template, input: Json, whole: string): Result<string, Failure>
    requires Proper(m, t)
  {
    match t
    case Tail(text) => Ok(text)
    case Broken(text) => Err(BadTemplate(Next(m, text).refusal))
    case Piece(before, hole, rest) =>
      var text :- Projection(hole, input, whole);
      var more :- Expansion(m, rest, input, whole);
      Ok(before + text + more)
  }

  ghost function Prefixed(output: string, r: Result<string, Failure>): Result<string, Failure> {
    if r.Ok? then Ok(output + r.value) else r
  }

  /** Expands any text as the template it reads as; `encoded` is the input's JSON text, if it has one. */
  method Expand(template: string, input: Json, encoded: Option<string>) returns (r: Result<string, Failure>)
    ensures encoded.None? ==> r == Err(NotEncodable)
    ensures encoded.Some? ==> forall t :: Proper(InputMarkers(), t) && Show(InputMarkers(), t) == template ==>
              r == Expansion(InputMarkers(), t, input, encoded.value)
  {
    if encoded.None? {
      return Err(NotEncodable);
    }
    ghost var m := InputMarkers();
    forall t | Proper(m, t) && Show(m, t) == template ensures t == Read(m, template) {
      ShowReads(m, t);
    }
    r := ExpandEncoded(InputMarkers(), template, input, encoded.value);
  }

  method ExpandEncoded(m: Markers, template: string, input: Json, whole: string) returns (r: Result<string, Failure>)
    requires WellFormed(m)
    ensures Proper(m, Read(m, template)) && r == Expansion(m, Read(m, template), input, whole)
  {
    ReadShows(m, template);
    var output, rest := "", template;
    ghost var expected := Expansion(m, Read(m, template), input, whole);
    assert expected.Ok? ==> "" + expected.value == expected.value;
    while true
      invariant Proper(m, Read(m, rest))
      invariant expected == Prefixed(output, Expansion(m, Read(m, rest), input, whole))
      decreases |rest|
    {
      var scan := Next(m, rest);
      ExpansionStep(m, output, rest, scan, input, whole);
      if scan.Clear? {
        break;
      }
      if scan.Stuck? {
        return Err(BadTemplate(scan.refusal));
      }
      var text := Projection(scan.hole, input, whole);
      if text.Err? {
        return text;
      }
      output := output + scan.before + text.value;
      NextShrinks(m, rest, scan);
      rest := scan.rest;
    }
    r := Ok(output + rest);
  }

  lemma NextShrinks(m: Markers, text: string, s: Scan)
    requires s == Next(m, text) && s.Found?
    ensures |s.rest| < |text|
  {
  }

  /** One turn of the expansion's loop. */
  lemma {:induction false} ExpansionStep(
    m: Markers, output: string, text: string, s: Scan, input: Json, whole: string)
    requires s == Next(m, text) && Proper(m, Read(m, text))
    ensures s.Clear? ==> Prefixed(output, Expansion(m, Read(m, text), input, whole)) == Ok(output + text)
    ensures s.Stuck? ==> Expansion(m, Read(m, text), input, whole) == Err(BadTemplate(s.refusal))
    ensures s.Found? && Projection(s.hole, input, whole).Err? ==>
              Expansion(m, Read(m, text), input, whole) == Projection(s.hole, input, whole)
    ensures s.Found? && Projection(s.hole, input, whole).Ok? ==>
              && Proper(m, Read(m, s.rest))
              && Prefixed(output, Expansion(m, Read(m, text), input, whole))
                 == Prefixed(
                      output + s.before + Projection(s.hole, input, whole).value,
                      Expansion(m, Read(m, s.rest), input, whole))
  {
    if s.Found? {
      var value, more := Projection(s.hole, input, whole), Expansion(m, Read(m, s.rest), input, whole);
      if value.Ok? && more.Ok? {
        Regroup(output, s.before, value.value, more.value);
      }
    }
  }

  lemma Regroup(a: string, b: string, c: string, d: string)
    ensures a + (b + c + d) == a + b + c + d
  {
  }

  // ----- what validation promises to expansion -----

  ghost function Literals(t: Template): (r: seq<string>)
    ensures |r| == |Holes(t)| + 1
  {
    match t
    case Tail(text) => [text]
    case Broken(text) => [text]
    case Piece(before, _, rest) => [before] + Literals(rest)
  }

  ghost function Holes(t: Template): seq<Hole> {
    match t
    case Tail(_) => []
    case Broken(_) => []
    case Piece(_, hole, rest) => [hole] + Holes(rest)
  }

  /** Literals with one text between each two. */
  ghost function Interleaved(literals: seq<string>, texts: seq<string>): string
    requires |literals| == |texts| + 1
  {
    if texts == [] then literals[0] else literals[0] + texts[0] + Interleaved(literals[1..], texts[1..])
  }

  ghost function HoleTexts(m: Markers, holes: seq<Hole>): (r: seq<string>)
    ensures |r| == |holes|
  {
    if holes == [] then [] else [HoleText(m, holes[0])] + HoleTexts(m, holes[1..])
  }

  ghost predicate Projects(hole: Hole, input: Json) {
    hole.Field? ==>
      && input.Object? && hole.name in input.fields
      && var value := input.fields[hole.name];
      (value.String? || value.Number? || value.Bool?)
  }

  ghost predicate AllProject(holes: seq<Hole>, input: Json) {
    forall i :: 0 <= i < |holes| ==> Projects(holes[i], input)
  }

  /** Hole `k` is the leftmost that does not project, and `failure` says why. */
  ghost predicate FailsAt(holes: seq<Hole>, input: Json, k: nat, failure: Failure)
    requires k < |holes|
  {
    && AllProject(holes[..k], input) && holes[k].Field?
    && var name := holes[k].name;
    if !input.Object? || name !in input.fields then failure == NoSuchField(name)
    else !Projects(holes[k], input) && failure == NotScalar(name)
  }

  ghost function Values(holes: seq<Hole>, input: Json, whole: string): (r: seq<string>)
    requires AllProject(holes, input)
    ensures |r| == |holes|
  {
    if holes == [] then []
    else
      assert Projects(holes[0], input);
      [Projection(holes[0], input, whole).value] + Values(holes[1..], input, whole)
  }

  /** A template's text is its literals with the placeholders between them. */
  lemma {:induction false} ShowInterleaves(m: Markers, t: Template)
    ensures Show(m, t) == Interleaved(Literals(t), HoleTexts(m, Holes(t)))
  {
    if t.Piece? {
      ShowInterleaves(m, t.rest);
      assert Literals(t)[1..] == Literals(t.rest);
      assert Holes(t)[1..] == Holes(t.rest);
      assert HoleTexts(m, Holes(t))[1..] == HoleTexts(m, Holes(t.rest));
    }
  }

  /** If all fields project, the expansion is the same literals with the projected texts between them. */
  lemma {:induction false} ExpansionInterleaves(m: Markers, t: Template, input: Json, whole: string)
    requires Proper(m, t) && Named(t) && AllProject(Holes(t), input)
    ensures Expansion(m, t, input, whole) == Ok(Interleaved(Literals(t), Values(Holes(t), input, whole)))
  {
    if t.Piece? {
      assert Holes(t)[0] == t.hole && Holes(t)[1..] == Holes(t.rest);
      assert forall i :: 0 <= i < |Holes(t.rest)| ==> Holes(t.rest)[i] == Holes(t)[i + 1];
      ExpansionInterleaves(m, t.rest, input, whole);
      assert Literals(t)[1..] == Literals(t.rest);
      assert Values(Holes(t), input, whole)[1..] == Values(Holes(t.rest), input, whole);
    }
  }

  /** Otherwise the leftmost field that does not project is the failure. */
  lemma {:induction false} LeftmostFieldFails(m: Markers, t: Template, input: Json, whole: string, k: nat)
    requires Proper(m, t) && k < |Holes(t)| && !Projects(Holes(t)[k], input) && AllProject(Holes(t)[..k], input)
    ensures Expansion(m, t, input, whole).Err? && FailsAt(Holes(t), input, k, Expansion(m, t, input, whole).error)
  {
    if k > 0 {
      assert Holes(t)[..k][0] == t.hole;
      assert Holes(t)[..k][1..] == Holes(t.rest)[..k - 1];
      LeftmostFieldFails(m, t.rest, input, whole, k - 1);
    }
  }

  lemma {:induction false} LeftmostFailure(holes: seq<Hole>, input: Json) returns (k: nat)
    requires !AllProject(holes, input)
    ensures k < |holes| && !Projects(holes[k], input) && AllProject(holes[..k], input)
  {
    if !Projects(holes[0], input) {
      k := 0;
    } else {
      var rest := holes[1..];
      assert forall i :: 1 <= i < |holes| ==> holes[i] == rest[i - 1];
      k := LeftmostFailure(rest, input);
      assert holes[..k + 1] == [holes[0]] + rest[..k];
      k := k + 1;
    }
  }

  /**
   An accepted template expands for every encodable input, unless one of the fields it names is
   missing from the input or is not a scalar; it then fails for the leftmost such field.
   */
  method ExpandAccepted(template: string, input: Json, whole: string, ghost t: Template)
    returns (r: Result<string, Failure>)
    requires Accepted(InputMarkers(), t) && Show(InputMarkers(), t) == template
    ensures r.Ok? <==> AllProject(Holes(t), input)
    ensures r.Ok? ==> r.value == Interleaved(Literals(t), Values(Holes(t), input, whole))
    ensures r.Err? ==> exists k: nat :: k < |Holes(t)| && FailsAt(Holes(t), input, k, r.error)
  {
    r := Expand(template, input, Some(whole));
    ghost var m := InputMarkers();
    if AllProject(Holes(t), input) {
      ExpansionInterleaves(m, t, input, whole);
    } else {
      ghost var k := LeftmostFailure(Holes(t), input);
      LeftmostFieldFails(m, t, input, whole, k);
    }
  }

  // ----- the spellings, said outright -----

  /** How the two kinds of placeholder are spelt. */
  lemma PlaceholdersAreSpelt(name: string)
    ensures HoleText(InputMarkers(), Whole) == "{input}"
    ensures HoleText(InputMarkers(), Field(name)) == "{input." + name + "}"
  {
  }

  const DIGITS := {'0', '1', '2', '3', '4', '5', '6', '7', '8', '9'}

  const CAPITALS :=
    {'A', 'B', 'C', 'D', 'E', 'F', 'G', 'H', 'I', 'J', 'K', 'L', 'M',
     'N', 'O', 'P', 'Q', 'R', 'S', 'T', 'U', 'V', 'W', 'X', 'Y', 'Z'}

  const SMALL :=
    {'a', 'b', 'c', 'd', 'e', 'f', 'g', 'h', 'i', 'j', 'k', 'l', 'm',
     'n', 'o', 'p', 'q', 'r', 's', 't', 'u', 'v', 'w', 'x', 'y', 'z'}

  /** Names are made of these characters. */
  lemma NamesAreMadeOf(c: char)
    ensures IsNameChar(c) <==> c == '_' || c in DIGITS || c in CAPITALS || c in SMALL
  {
  }

  /** What each field of an input projects to, by the kind of its value; the whole input to its JSON text. */
  lemma FieldsProjectAs(name: string, fields: map<string, Json>, whole: string)
    ensures Projection(Whole, Object(fields), whole) == Ok(whole)
    ensures name !in fields ==> Projection(Field(name), Object(fields), whole) == Err(NoSuchField(name))
    ensures name in fields ==>
              Projection(Field(name), Object(fields), whole)
              == match fields[name]
                 case String(text) => Ok(text)
                 case Number(text) => Ok(text)
                 case Bool(true) => Ok("true")
                 case Bool(false) => Ok("false")
                 case Null => Err(NotScalar(name))
                 case Array(_) => Err(NotScalar(name))
                 case Object(_) => Err(NotScalar(name))
  {
  }

  /** An input that is no object has no fields. */
  lemma OnlyObjectsHaveFields(name: string, input: Json, whole: string)
    requires !input.Object?
    ensures Projection(Field(name), input, whole) == Err(NoSuchField(name))
  {
  }

  /** What the scan is stuck at: a `{` with no `}` behind it, or the text from it to the next `}`. */
  lemma {:induction false} StuckAt(m: Markers, before: string, after: string)
    requires Without(before, '{') && after != "" && after[0] == '{'
    ensures Next(m, before + after) == Stuck(Unterminated) <==> Without(after, '}')
    ensures forall placeholder, rest ::
              after == placeholder + rest && Closed(placeholder) && HoleOf(m, placeholder).None? ==>
              Next(m, before + after) == Stuck(Unsupported(placeholder))
  {
    var text := before + after;
    FindIs(text, '{', |before|);
    assert text[|before|..] == after;
    forall placeholder, rest | after == placeholder + rest && Closed(placeholder) && HoleOf(m, placeholder).None?
      ensures Next(m, text) == Stuck(Unsupported(placeholder))
    {
      FindIs(after, '}', |placeholder| - 1);
      assert after[..|placeholder|] == placeholder;
    }
  }

  /** Ends with its only `}`. */
  ghost predicate Closed(placeholder: string) {
    placeholder != "" && placeholder[|placeholder| - 1] == '}' && Without(placeholder[..|placeholder| - 1], '}')
  }
}
