/**
 Byte offsets and UTF-16 positions (crates/aion-awl-lsp/src/analysis.rs), as the "Position"
 section of the Language Server Protocol 3.17 defines them, with `\n` as the only line break.

 A text is a sequence of Unicode scalar values; an index into it is a character boundary.
 */
module Positions {
  import opened Wrappers

  const MAX_U32: nat := 0xFFFF_FFFF

  type U32 = n: nat | n <= MAX_U32

  datatype Position = Position(line: U32, character: U32)

  function Utf8Len(c: char): nat {
    var n := c as int;
    if n < 0x80 then 1 else if n < 0x800 then 2 else if n < 0x1_0000 then 3 else 4
  }

  function Utf16Width(c: char): nat {
    if c as int >= 0x1_0000 then 2 else 1
  }

  function SaturatingAdd(a: U32, b: nat): U32 {
    if a + b <= MAX_U32 then a + b else MAX_U32
  }

  // ----- what a boundary's offset and position are -----

  ghost function Bytes(text: string): nat {
    if text == "" then 0 else Bytes(text[..|text| - 1]) + Utf8Len(text[|text| - 1])
  }

  ghost function Lines(text: string): nat {
    if text == "" then 0 else Lines(text[..|text| - 1]) + (if text[|text| - 1] == '\n' then 1 else 0)
  }

  /** UTF-16 units since the last line break. */
  ghost function Column(text: string): nat {
    if text == "" then 0
    else if text[|text| - 1] == '\n' then 0
    else Column(text[..|text| - 1]) + Utf16Width(text[|text| - 1])
  }

  function Capped(n: nat): U32 {
    if n <= MAX_U32 then n else MAX_U32
  }

  ghost function PositionOf(prefix: string): Position {
    Position(Capped(Lines(prefix)), Capped(Column(prefix)))
  }

  lemma PrefixStep(text: string, i: nat)
    requires i < |text|
    ensures Bytes(text[..i + 1]) == Bytes(text[..i]) + Utf8Len(text[i])
    ensures Lines(text[..i + 1]) == Lines(text[..i]) + (if text[i] == '\n' then 1 else 0)
    ensures Column(text[..i + 1]) == if text[i] == '\n' then 0 else Column(text[..i]) + Utf16Width(text[i])
  {
    assert text[..i + 1][..i] == text[..i];
  }

  /** Later boundaries have strictly larger offsets and no smaller lines. */
  lemma {:induction false} BoundariesIncrease(text: string, i: nat, j: nat)
    requires i < j <= |text|
    ensures Bytes(text[..i]) < Bytes(text[..j]) && Lines(text[..i]) <= Lines(text[..j])
    decreases j
  {
    PrefixStep(text, j - 1);
    if i < j - 1 {
      BoundariesIncrease(text, i, j - 1);
    }
  }

  lemma BoundariesInOrder(text: string, i: nat, j: nat)
    requires i <= j <= |text|
    ensures Bytes(text[..i]) <= Bytes(text[..j]) && Lines(text[..i]) <= Lines(text[..j])
  {
    if i < j {
      BoundariesIncrease(text, i, j);
    }
  }

  /** `i` is the last boundary at or before `offset`. */
  ghost predicate IsFloor(text: string, offset: nat, i: nat) {
    i <= |text| && Bytes(text[..i]) <= offset && (i == |text| || offset < Bytes(text[..i + 1]))
  }

  lemma {:induction false} FloorIsMonotone(text: string, m: nat, n: nat, i: nat, j: nat)
    requires IsFloor(text, m, i) && IsFloor(text, n, j) && m <= n
    ensures i <= j
  {
    if j < i {
      BoundariesInOrder(text, j + 1, i);
    }
  }

  lemma {:induction false} FloorUnique(text: string, offset: nat, i: nat, j: nat)
    requires IsFloor(text, offset, i) && IsFloor(text, offset, j)
    ensures i == j
  {
    FloorIsMonotone(text, offset, offset, i, j);
    FloorIsMonotone(text, offset, offset, j, i);
  }

  /** Lines and columns never exceed the byte count, so short texts do not saturate. */
  lemma {:induction false} CountsFit(text: string)
    ensures Lines(text) <= Bytes(text) && Column(text) <= Bytes(text)
  {
    if text != "" {
      CountsFit(text[..|text| - 1]);
    }
  }

  lemma {:induction false} ShortTextsAreExact(text: string, i: nat)
    requires i <= |text| && Bytes(text) <= MAX_U32
    ensures PositionOf(text[..i]).line == Lines(text[..i]) && PositionOf(text[..i]).character == Column(text[..i])
  {
    CountsFit(text[..i]);
    assert text[..|text|] == text;
    BoundariesInOrder(text, i, |text|);
  }

  /** Counters stop at the largest number that a position can hold. */
  lemma CountersSaturate(prefix: string)
    ensures Lines(prefix) >= MAX_U32 ==> PositionOf(prefix).line == 0xFFFF_FFFF
    ensures Column(prefix) >= MAX_U32 ==> PositionOf(prefix).character == 0xFFFF_FFFF
  {
  }

  // ----- offset to position -----

  /** Places an offset inside a character before it, and one past the end at the end. */
  method PositionAt(source: string, byteOffset: nat) returns (r: Position)
    ensures exists i: nat :: IsFloor(source, byteOffset, i) && r == PositionOf(source[..i])
  {
    var length := ByteLength(source);
    var target := if byteOffset <= length then byteOffset else length;
    var line: U32, character: U32, offset: nat, n: nat := 0, 0, 0, 0;
    assert source[..|source|] == source;
    while n < |source|
      invariant n <= |source| && offset == Bytes(source[..n]) <= target
      invariant line == Capped(Lines(source[..n])) && character == Capped(Column(source[..n]))
    {
      var ch := source[n];
      PrefixStep(source, n);
      if offset >= target || offset + Utf8Len(ch) > target {
        BoundariesInOrder(source, n + 1, |source|);
        break;
      }
      if ch == '\n' {
        line, character := SaturatingAdd(line, 1), 0;
      } else {
        character := SaturatingAdd(character, Utf16Width(ch));
      }
      offset := offset + Utf8Len(ch);
      n := n + 1;
    }
    r := Position(line, character);
    assert IsFloor(source, byteOffset, n);
  }

  method ByteLength(source: string) returns (length: nat)
    ensures length == Bytes(source)
  {
    length := 0;
    for n := 0 to |source|
      invariant length == Bytes(source[..n])
    {
      PrefixStep(source, n);
      length := length + Utf8Len(source[n]);
    }
    assert source[..|source|] == source;
  }

  // ----- position to offset -----

  /**
   The boundary a position is clamped to: on its line as far as its column, or the end of the text.
   The column counter saturates, so the largest column may be passed by half of a wide character.
   */
  ghost predicate IsClamp(text: string, p: Position, j: nat) {
    && j <= |text|
    && if Lines(text) < p.line then j == |text|
       else
         && Lines(text[..j]) == p.line
         && (Column(text[..j]) <= p.character || StraddlesMax(text, p, j))
         && (j < |text| && text[j] != '\n' ==>
               p.character <= Column(text[..j]) || p.character < Capped(Column(text[..j + 1])))
  }

  ghost predicate StraddlesMax(text: string, p: Position, j: nat)
    requires j <= |text|
  {
    p.character == MAX_U32 && j > 0 && Column(text[..j - 1]) == MAX_U32 - 1 && Column(text[..j]) == MAX_U32 + 1
  }

  /** Every position is mapped to a boundary of the text, the one it is clamped to. */
  method ByteOffsetAt(source: string, position: Position) returns (r: nat)
    ensures exists j: nat :: IsClamp(source, position, j) && r == Bytes(source[..j])
  {
    assert source[..|source|] == source;
    var line: U32, start: nat, lineStart: nat, offset: nat, n: nat := 0, 0, 0, 0, 0;
    while n < |source| && line != position.line
      invariant n <= |source| && offset == Bytes(source[..n]) && line == Lines(source[..n]) <= position.line
      invariant start <= n && lineStart == Bytes(source[..start])
      invariant line == position.line ==> start == n && Column(source[..n]) == 0
    {
      PrefixStep(source, n);
      if source[n] == '\n' {
        line := SaturatingAdd(line, 1);
        lineStart, start := offset + Utf8Len('\n'), n + 1;
      }
      offset := offset + Utf8Len(source[n]);
      n := n + 1;
    }
    if line < position.line {
      var length := ByteLength(source);
      assert IsClamp(source, position, |source|);
      return length;
    }
    BoundariesInOrder(source, n, |source|);
    r := AdvanceOnLine(source, position, start, lineStart);
  }

  /** From the start of the line, as far as the column allows without leaving the line. */
  method AdvanceOnLine(source: string, position: Position, start: nat, lineStart: nat) returns (r: nat)
    requires start <= |source| && lineStart == Bytes(source[..start])
    requires Lines(source[..start]) == position.line && Column(source[..start]) == 0
    ensures exists j: nat :: IsClamp(source, position, j) && r == Bytes(source[..j])
  {
    assert source[..|source|] == source;
    BoundariesInOrder(source, start, |source|);
    var utf16: U32, offset: nat, n: nat := 0, lineStart, start;
    while n < |source|
      invariant start <= n <= |source| && offset == Bytes(source[..n])
      invariant Lines(source[..n]) == position.line <= Lines(source)
      invariant utf16 == Capped(Column(source[..n]))
      invariant Column(source[..n]) <= position.character || StraddlesMax(source, position, n)
    {
      PrefixStep(source, n);
      BoundariesInOrder(source, n + 1, |source|);
      if source[n] == '\n' || utf16 >= position.character {
        assert IsClamp(source, position, n);
        return offset;
      }
      var next := SaturatingAdd(utf16, Utf16Width(source[n]));
      if next > position.character {
        assert IsClamp(source, position, n);
        return offset;
      }
      utf16 := next;
      offset := offset + Utf8Len(source[n]);
      n := n + 1;
    }
    assert IsClamp(source, position, n);
    r := offset;
  }

  // ----- how the two mappings fit together -----

  /** Within a line, later boundaries have strictly larger columns. */
  lemma {:induction false} ColumnsIncrease(text: string, i: nat, j: nat)
    requires i < j <= |text| && Lines(text[..i]) == Lines(text[..j])
    ensures Column(text[..i]) < Column(text[..j]) && text[i] != '\n'
    ensures Lines(text[..i + 1]) == Lines(text[..i])
    decreases j
  {
    PrefixStep(text, j - 1);
    PrefixStep(text, i);
    BoundariesInOrder(text, i, j - 1);
    BoundariesInOrder(text, i + 1, j);
    if i < j - 1 {
      ColumnsIncrease(text, i, j - 1);
    }
  }

  /** Positions in document order. */
  ghost predicate Before(p: Position, q: Position) {
    p.line < q.line || (p.line == q.line && p.character <= q.character)
  }

  /** A later position is never clamped to an earlier boundary. */
  lemma {:induction false} ClampIsMonotone(text: string, p: Position, q: Position, i: nat, j: nat)
    requires IsClamp(text, p, i) && IsClamp(text, q, j) && Before(p, q)
    ensures i <= j && Bytes(text[..i]) <= Bytes(text[..j])
  {
    assert text[..|text|] == text;
    if j < i {
      BoundariesInOrder(text, j, i);
      BoundariesInOrder(text, i, |text|);
      if Lines(text[..i]) == Lines(text[..j]) {
        ColumnsIncrease(text, j, i);
        if j + 1 < i {
          BoundariesInOrder(text, j, i - 1);
          BoundariesInOrder(text, i - 1, i);
          BoundariesInOrder(text, j + 1, i);
          ColumnsIncrease(text, j, i - 1);
          ColumnsIncrease(text, j + 1, i);
        }
      }
    } else {
      BoundariesInOrder(text, i, j);
    }
  }

  /** So the boundary of a position is unique. */
  lemma ClampUnique(text: string, p: Position, i: nat, j: nat)
    requires IsClamp(text, p, i) && IsClamp(text, p, j)
    ensures i == j
  {
    ClampIsMonotone(text, p, p, i, j);
    ClampIsMonotone(text, p, p, j, i);
  }

  /** Boundaries in order have positions in order, and different boundaries different positions. */
  lemma {:induction false} PositionsAreMonotone(text: string, i: nat, j: nat)
    requires i < j <= |text| && Bytes(text) <= MAX_U32
    ensures Before(PositionOf(text[..i]), PositionOf(text[..j])) && PositionOf(text[..i]) != PositionOf(text[..j])
  {
    ShortTextsAreExact(text, i);
    ShortTextsAreExact(text, j);
    BoundariesInOrder(text, i, j);
    if Lines(text[..i]) == Lines(text[..j]) {
      ColumnsIncrease(text, i, j);
    }
  }

  /** The position of a boundary is clamped back to that boundary. */
  lemma {:induction false} BoundaryRoundTrip(text: string, i: nat)
    requires i <= |text| && Bytes(text) <= MAX_U32
    ensures IsClamp(text, PositionOf(text[..i]), i)
  {
    ShortTextsAreExact(text, i);
    assert text[..|text|] == text;
    BoundariesInOrder(text, i, |text|);
    if i < |text| {
      PrefixStep(text, i);
    }
  }

  /** Mapping the offset of a boundary to a position and back is the identity. */
  method OffsetRoundTrip(source: string, byteOffset: nat, ghost i: nat) returns (back: nat)
    requires Bytes(source) <= MAX_U32 && i <= |source| && byteOffset == Bytes(source[..i])
    ensures back == byteOffset
  {
    var p := PositionAt(source, byteOffset);
    ghost var floor: nat :| IsFloor(source, byteOffset, floor) && p == PositionOf(source[..floor]);
    if i < |source| {
      BoundariesIncrease(source, i, i + 1);
    }
    FloorUnique(source, byteOffset, i, floor);
    BoundaryRoundTrip(source, i);
    back := ByteOffsetAt(source, p);
    ghost var j: nat :| IsClamp(source, p, j) && back == Bytes(source[..j]);
    ClampUnique(source, p, i, j);
  }

  // ----- ranges and the formatter's edit -----

  datatype Range = Range(start: Position, end: Position)

  /** `r` runs from the boundary at `i` to the one at `j`, and editors read it so. */
  ghost predicate RunsFromTo(text: string, r: Range, i: nat, j: nat) {
    && i <= j <= |text| && r == Range(PositionOf(text[..i]), PositionOf(text[..j]))
    && (Bytes(text) <= MAX_U32 ==> Before(r.start, r.end) && IsClamp(text, r.start, i) && IsClamp(text, r.end, j))
  }

  lemma RangeOfBoundaries(text: string, i: nat, j: nat)
    requires i <= j <= |text|
    ensures RunsFromTo(text, Range(PositionOf(text[..i]), PositionOf(text[..j])), i, j)
  {
    if Bytes(text) <= MAX_U32 {
      BoundaryRoundTrip(text, i);
      BoundaryRoundTrip(text, j);
      if i < j {
        PositionsAreMonotone(text, i, j);
      }
    }
  }

  /** The range of a span runs between the last boundaries at or before its ends; it is never reversed. */
  method RangeForSpan(source: string, spanStart: nat, spanEnd: nat) returns (r: Range)
    ensures exists i: nat, j: nat ::
              && IsFloor(source, spanStart, i)
              && IsFloor(source, if spanEnd <= spanStart then spanStart else spanEnd, j)
              && RunsFromTo(source, r, i, j)
  {
    var start := PositionAt(source, spanStart);
    ghost var i: nat :| IsFloor(source, spanStart, i) && start == PositionOf(source[..i]);
    if spanEnd <= spanStart {
      r := Range(start, start);
      RangeOfBoundaries(source, i, i);
    } else {
      var end := PositionAt(source, spanEnd);
      ghost var j: nat :| IsFloor(source, spanEnd, j) && end == PositionOf(source[..j]);
      r := Range(start, end);
      FloorIsMonotone(source, spanStart, spanEnd, i, j);
      RangeOfBoundaries(source, i, j);
    }
  }

  datatype TextEdit = TextEdit(range: Range, newText: string)

  /** What an editor makes of an edit: the text between the two boundaries is replaced. */
  ghost predicate Edited(source: string, edit: TextEdit, result: string) {
    exists i: nat, j: nat :: i <= j <= |source|
      && IsClamp(source, edit.range.start, i) && IsClamp(source, edit.range.end, j)
      && result == source[..i] + edit.newText + source[j..]
  }

  /** No edit for an unparsable or already canonical text, otherwise one edit of the whole text. */
  method FormattingEdits(source: string, formatted: Option<string>) returns (edits: seq<TextEdit>)
    ensures formatted.None? || formatted.value == source ==> edits == []
    ensures formatted.Some? && formatted.value != source ==> |edits| == 1
    ensures formatted.Some? && formatted.value != source && Bytes(source) <= MAX_U32 ==>
              forall result :: Edited(source, edits[0], result) <==> result == formatted.value
  {
    if formatted.None? || formatted.value == source {
      return [];
    }
    var length := ByteLength(source);
    var end := PositionAt(source, length);
    ghost var n: nat :| IsFloor(source, length, n) && end == PositionOf(source[..n]);
    assert source[..|source|] == source;
    FloorUnique(source, length, n, |source|);
    edits := [TextEdit(Range(Position(0, 0), end), formatted.value)];
    if Bytes(source) <= MAX_U32 {
      WholeTextEdit(source, edits[0]);
    }
  }

  /** An edit from the origin to the position of the end replaces all of the text. */
  lemma {:induction false} WholeTextEdit(source: string, edit: TextEdit)
    requires Bytes(source) <= MAX_U32
    requires edit.range == Range(Position(0, 0), PositionOf(source))
    ensures forall result :: Edited(source, edit, result) <==> result == edit.newText
  {
    assert source[..|source|] == source && source[..0] == "" && source[|source|..] == "";
    BoundaryRoundTrip(source, 0);
    BoundaryRoundTrip(source, |source|);
    assert PositionOf("") == Position(0, 0);
    assert "" + edit.newText + "" == edit.newText;
    forall result | Edited(source, edit, result) ensures result == edit.newText {
      var i: nat, j: nat :| i <= j <= |source|
               && IsClamp(source, edit.range.start, i) && IsClamp(source, edit.range.end, j)
               && result == source[..i] + edit.newText + source[j..];
      ClampUnique(source, edit.range.start, i, 0);
      ClampUnique(source, edit.range.end, j, |source|);
    }
  }
}
