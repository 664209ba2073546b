/**
 The encodings behind byte offsets and UTF-16 positions: a text's offset is the length of its
 UTF-8 form, and a column the length of the UTF-16 form of what follows the last line break.
 */
module TextEncodings {
  import opened Seqs
  import opened Positions

  // ----- one character -----

  /** The UTF-8 form of a scalar value. */
  function Utf8(c: char): seq<int> {
    var n := c as int;
    if n < 0x80 then [n]
    else if n < 0x800 then [0xC0 + n / 0x40, 0x80 + n % 0x40]
    else if n < 0x1_0000 then [0xE0 + n / 0x1000, 0x80 + n / 0x40 % 0x40, 0x80 + n % 0x40]
    else [0xF0 + n / 0x4_0000, 0x80 + n / 0x1000 % 0x40, 0x80 + n / 0x40 % 0x40, 0x80 + n % 0x40]
  }

  /** The scalar value that a lead byte and its continuation bytes stand for. */
  function FromUtf8(bytes: seq<int>): int
    requires 1 <= |bytes| <= 4
  {
    var lead := bytes[0];
    if |bytes| == 1 then lead
    else if |bytes| == 2 then (lead - 0xC0) * 0x40 + (bytes[1] - 0x80)
    else if |bytes| == 3 then (lead - 0xE0) * 0x1000 + (bytes[1] - 0x80) * 0x40 + (bytes[2] - 0x80)
    else (lead - 0xF0) * 0x4_0000 + (bytes[1] - 0x80) * 0x1000 + (bytes[2] - 0x80) * 0x40 + (bytes[3] - 0x80)
  }

  /** How many bytes a lead byte announces. */
  function Announced(lead: int): nat {
    if lead < 0x80 then 1 else if lead < 0xE0 then 2 else if lead < 0xF0 then 3 else 4
  }

  ghost predicate Continuation(b: int) {
    0x80 <= b < 0xC0
  }

  /** The width by which offsets advance is that of the UTF-8 form, which is well-formed and stands for `c`. */
  lemma Utf8IsWellFormed(c: char)
    ensures |Utf8(c)| == Utf8Len(c) == Announced(Utf8(c)[0])
    ensures forall i :: 1 <= i < |Utf8(c)| ==> Continuation(Utf8(c)[i])
    ensures Utf8(c)[0] < 0x80 || 0xC2 <= Utf8(c)[0] <= 0xF4
    ensures FromUtf8(Utf8(c)) == c as int
  {
    var n := c as int;
    if n >= 0x1_0000 {
      Digits(n, 0x1000);
      assert n / 0x1000 == n / 0x4_0000 * 0x40 + n / 0x1000 % 0x40;
    } else if n >= 0x800 {
      Digits(n, 0x1000);
    }
  }

  /** Splitting off the two lowest groups of six bits. */
  lemma Digits(n: nat, high: nat)
    requires high == 0x1000
    ensures n == n / high * high + n / 0x40 % 0x40 * 0x40 + n % 0x40
  {
    assert n / 0x40 / 0x40 == n / 0x1000;
  }

  /** The UTF-16 form of a scalar value: one code unit, or a surrogate pair. */
  function Utf16(c: char): seq<int> {
    var n := c as int;
    if n < 0x1_0000 then [n]
    else [0xD800 + (n - 0x1_0000) / 0x400, 0xDC00 + (n - 0x1_0000) % 0x400]
  }

  function FromUtf16(units: seq<int>): int
    requires 1 <= |units| <= 2
  {
    if |units| == 1 then units[0] else 0x1_0000 + (units[0] - 0xD800) * 0x400 + (units[1] - 0xDC00)
  }

  /** The width by which columns advance is that of the UTF-16 form, which is well-formed and stands for `c`. */
  lemma Utf16IsWellFormed(c: char)
    ensures |Utf16(c)| == Utf16Width(c)
    ensures |Utf16(c)| == 2 ==> 0xD800 <= Utf16(c)[0] < 0xDC00 && 0xDC00 <= Utf16(c)[1] < 0xE000
    ensures |Utf16(c)| == 1 ==> !(0xD800 <= Utf16(c)[0] < 0xE000)
    ensures FromUtf16(Utf16(c)) == c as int
  {
  }

  // ----- texts -----

  ghost function Utf8Text(text: string): seq<int> {
    if text == "" then [] else Utf8Text(text[..|text| - 1]) + Utf8(text[|text| - 1])
  }

  ghost function Utf16Text(text: string): seq<int> {
    if text == "" then [] else Utf16Text(text[..|text| - 1]) + Utf16(text[|text| - 1])
  }

  /** The offset of a boundary is the length in UTF-8 of what precedes it. */
  lemma {:induction false} BytesAreUtf8(text: string)
    ensures Bytes(text) == |Utf8Text(text)|
  {
    if text != "" {
      BytesAreUtf8(text[..|text| - 1]);
      Utf8IsWellFormed(text[|text| - 1]);
    }
  }

  ghost predicate OneLine(text: string) {
    forall i :: 0 <= i < |text| ==> text[i] != '\n'
  }

  /** Where the last line begins. */
  ghost predicate LastLineAt(text: string, k: nat) {
    k <= |text| && OneLine(text[k..]) && (k == 0 || text[k - 1] == '\n')
  }

  lemma {:induction false} OneLineColumn(text: string)
    requires OneLine(text)
    ensures Column(text) == |Utf16Text(text)|
  {
    if text != "" {
      OneLineColumn(text[..|text| - 1]);
      Utf16IsWellFormed(text[|text| - 1]);
    }
  }

  /** The column of a boundary is the length in UTF-16 of what lies between the last line break and it. */
  lemma {:induction false} ColumnIsUtf16(text: string, k: nat)
    requires LastLineAt(text, k)
    ensures Column(text) == |Utf16Text(text[k..])|
    decreases |text|
  {
    if k == |text| {
      assert text[k..] == "";
    } else {
      var front := text[..|text| - 1];
      assert text[k..][|text| - 1 - k] == text[|text| - 1] != '\n';
      assert text[k..][..|text| - 1 - k] == front[k..];
      assert forall i :: 0 <= i < |front[k..]| ==> front[k..][i] == text[k..][i];
      ColumnIsUtf16(front, k);
      Utf16IsWellFormed(text[|text| - 1]);
    }
  }

  /** The positions of the line breaks of a text. */
  ghost function Breaks(text: string): set<int> {
    set i | 0 <= i < |text| && text[i] == '\n'
  }

  /** The line of a boundary is the number of line breaks before it. */
  lemma {:induction false} LinesAreBreaks(text: string)
    ensures Lines(text) == |Breaks(text)|
  {
    if text != "" {
      var front, last := text[..|text| - 1], text[|text| - 1];
      LinesAreBreaks(front);
      assert Breaks(text) == Breaks(front) + (if last == '\n' then {|front|} else {});
    }
  }
}
