/**
 * The rust-peg input traits on a string view: `Parse` (`start`, `is_eof`,
 * `position_repr`), `ParseElem`, `ParseLiteral` and `ParseSlice`. Each
 * takes the view's visible text; positions are byte offsets into it.
 */
module Peg {
  import opened Utf8

  /** `RuleResult<T>`: a match that ends at `pos` with a value, or a failure. */
  datatype RuleResult<+T> = Matched(pos: nat, value: T) | Failed

  /** `LineCol`: a 1-based line and column and the byte offset they describe. */
  datatype LineCol = LineCol(line: nat, column: nat, offset: nat)

  /** The byte `b'\n'`. */
  const NEWLINE: u8 := 0x0A

  /** The number of newline bytes in `s`. */
  function CountNewlines(s: Bytes): (n: nat)
    ensures n <= |s|
  {
    if s == [] then 0 else (if s[0] == NEWLINE then 1 else 0) + CountNewlines(s[1..])
  }

  /** The number of newline characters in `cs`. */
  function CountNewlineChars(cs: seq<char>): (n: nat)
    ensures n <= |cs|
  {
    if cs == [] then 0 else (if cs[0] == '\n' then 1 else 0) + CountNewlineChars(cs[1..])
  }

  /** The number of characters after the last newline of `cs` (all of them without one). */
  function TrailingColumn(cs: seq<char>): (n: nat)
    ensures n <= |cs|
    ensures forall k :: |cs| - n <= k < |cs| ==> cs[k] != '\n'
    ensures n < |cs| ==> cs[|cs| - n - 1] == '\n'
  {
    if cs == [] then 0
    else if cs[|cs| - 1] == '\n' then 0
    else TrailingColumn(cs[..|cs| - 1]) + 1
  }

  /** `start`: parsing starts at offset 0. */
  function Start(text: Bytes): (pos: nat)
    ensures IsCharBoundary(text, pos) && (IsEof(text, pos) <==> text == [])
  {
    0
  }

  /** `is_eof`: whether `pos` is at or past the end of the view. */
  function IsEof(text: Bytes, pos: nat): bool {
    pos >= |text|
  }

  /**
   * `position_repr`: the line is one more than the newlines before `pos`,
   * the column one more than the characters since the last of them.
   * Slicing the text at `pos` panics unless `pos` is a boundary.
   */
  function PositionRepr(text: Bytes, pos: nat): (r: LineCol)
    requires Valid(text) && IsCharBoundary(text, pos)
    ensures r.offset == pos && r.line >= 1 && r.column >= 1
    ensures r.line == CountNewlineChars(CharsBefore(text, pos)) + 1
    ensures r.column <= |CharsBefore(text, pos)| + 1
  {
    var before := text[..pos];
    var cs := CharsBefore(text, pos);
    NewlineBytesAreChars(before);
    LineCol(CountNewlines(before) + 1, TrailingColumn(cs) + 1, pos)
  }

  lemma {:induction false} CountNewlinesConcat(a: Bytes, b: Bytes)
    ensures CountNewlines(a + b) == CountNewlines(a) + CountNewlines(b)
    decreases |a|
  {
    if a == [] {
      assert a + b == b;
    } else {
      assert (a + b)[1..] == a[1..] + b;
      CountNewlinesConcat(a[1..], b);
    }
  }

  lemma {:induction false} CountNewlineCharsConcat(a: seq<char>, b: seq<char>)
    ensures CountNewlineChars(a + b) == CountNewlineChars(a) + CountNewlineChars(b)
    decreases |a|
  {
    if a == [] {
      assert a + b == b;
    } else {
      assert (a + b)[1..] == a[1..] + b;
      CountNewlineCharsConcat(a[1..], b);
    }
  }

  /** The encoding of a character holds a newline byte exactly when the character is a newline: multi-byte sequences have only bytes from 0x80 up. */
  lemma {:induction false} NewlinesOfEncode(c: char)
    ensures CountNewlines(Encode(c)) == if c == '\n' then 1 else 0
  {
    var e := Encode(c);
    if LenUtf8(c) == 1 {
      assert e[1..] == [];
    } else {
      assert e[0] >= 0x80 && forall k :: 0 <= k < |e| ==> e[k] >= 0x80;
      NoNewlineBytes(e);
    }
  }

  lemma {:induction false} NoNewlineBytes(s: Bytes)
    requires forall k :: 0 <= k < |s| ==> s[k] != NEWLINE
    ensures CountNewlines(s) == 0
    decreases |s|
  {
    if s != [] {
      NoNewlineBytes(s[1..]);
    }
  }

  /** Counting newline bytes counts newline characters: a newline is encoded as that one byte, and no other character's encoding contains it. */
  lemma {:induction false} NewlineBytesAreChars(s: Bytes)
    requires Valid(s)
    ensures CountNewlines(s) == CountNewlineChars(Chars(s))
  {
    CharsRoundTrip(s);
    EncodedNewlines(Chars(s));
  }

  lemma {:induction false} EncodedNewlines(cs: seq<char>)
    ensures CountNewlines(EncodeAll(cs)) == CountNewlineChars(cs)
    decreases |cs|
  {
    if cs != [] {
      EncodedNewlines(cs[1..]);
      CountNewlinesConcat(Encode(cs[0]), EncodeAll(cs[1..]));
      NewlinesOfEncode(cs[0]);
    }
  }

  /**
   * `parse_elem`: the character at `pos` and the offset just past it, or a
   * failure at the end. Slicing the text at `pos` panics unless `pos` is a
   * boundary.
   */
  function ParseElem(text: Bytes, pos: nat): (r: RuleResult<char>)
    requires Valid(text) && IsCharBoundary(text, pos)
    ensures r.Failed? <==> pos == |text|
    ensures r.Matched? ==>
      && r.value == CharsAfter(text, pos)[0]
      && r.pos == pos + LenUtf8(r.value) <= |text|
      && IsCharBoundary(text, r.pos)
      && text[pos..r.pos] == Encode(r.value)
  {
    var rest := CharsAfter(text, pos);
    if rest == [] then Failed
    else
      CharsAfterStep(text, pos);
      Matched(pos + LenUtf8(rest[0]), rest[0])
  }

  /** `is_eof` holds exactly where `parse_elem` fails. */
  lemma {:induction false} EofIffNoElem(text: Bytes, pos: nat)
    requires Valid(text) && IsCharBoundary(text, pos)
    ensures IsEof(text, pos) <==> ParseElem(text, pos).Failed?
  {
  }

  /** The characters read by calling `parse_elem` from `pos` until it fails. */
  function ElemsFrom(text: Bytes, pos: nat): seq<char>
    requires Valid(text) && IsCharBoundary(text, pos)
    decreases |text| - pos
  {
    match ParseElem(text, pos)
    case Failed => []
    case Matched(next, c) => [c] + ElemsFrom(text, next)
  }

  /** Before the end, `parse_elem` reads the first character after `pos`, and the characters after it follow. */
  lemma {:induction false} ParseElemStep(text: Bytes, pos: nat)
    requires Valid(text) && IsCharBoundary(text, pos) && pos < |text|
    ensures ParseElem(text, pos).Matched?
    ensures CharsAfter(text, pos) == [ParseElem(text, pos).value] + CharsAfter(text, ParseElem(text, pos).pos)
  {
    var rest := CharsAfter(text, pos);
    CharsAfterTail(text, pos, LenUtf8(rest[0]));
    assert rest == [rest[0]] + rest[1..];
  }

  /** Reading elements from a boundary until the end yields exactly the characters after it. */
  lemma {:induction false} ElemsSpellText(text: Bytes, pos: nat)
    requires Valid(text) && IsCharBoundary(text, pos)
    ensures ElemsFrom(text, pos) == CharsAfter(text, pos)
    decreases |text| - pos
  {
    if pos < |text| {
      var e := ParseElem(text, pos);
      ParseElemStep(text, pos);
      ElemsSpellText(text, e.pos);
      assert ElemsFrom(text, pos) == [e.value] + ElemsFrom(text, e.pos);
    } else {
      assert ParseElem(text, pos).Failed?;
    }
  }

  /**
   * `parse_string_literal`: a match just past `literal` when the bytes at
   * `pos` spell it, and otherwise a failure.
   */
  function ParseStringLiteral(text: Bytes, pos: nat, literal: Bytes): (r: RuleResult<()>)
    ensures r.Matched? <==> pos + |literal| <= |text| && text[pos..pos + |literal|] == literal
    ensures r.Matched? ==> r.pos == pos + |literal|
  {
    var l := |literal|;
    if |text| >= pos + l && text[pos..pos + l] == literal then Matched(pos + l, ()) else Failed
  }

  /** A well-formed literal matched at a boundary ends at a boundary, so the parser's positions stay on boundaries. */
  lemma {:induction false} LiteralEndsAtBoundary(text: Bytes, pos: nat, literal: Bytes)
    requires Valid(text) && IsCharBoundary(text, pos) && Valid(literal)
    requires ParseStringLiteral(text, pos, literal).Matched?
    ensures IsCharBoundary(text, ParseStringLiteral(text, pos, literal).pos)
  {
    var end := pos + |literal|;
    assert text[pos..end] == literal;
    JoinSlices(text, pos, end);
    ValidSplit(text, pos);
    ValidPrefixRest(literal, text[end..]);
    DropBoundary(text, pos, |literal|);
  }

  /** Matching the encoding of one character as a literal agrees with `parse_elem` reading that character. */
  lemma {:induction false} LiteralOfOneChar(text: Bytes, pos: nat, c: char)
    requires Valid(text) && IsCharBoundary(text, pos)
    ensures ParseStringLiteral(text, pos, Encode(c)).Matched? <==> ParseElem(text, pos) == Matched(pos + LenUtf8(c), c)
  {
    if ParseStringLiteral(text, pos, Encode(c)).Matched? {
      EncodingStartsChars(text, pos, c);
    }
  }

  /** Bytes after a boundary that begin with the encoding of `c` decode to characters beginning with `c`. */
  lemma {:induction false} EncodingStartsChars(text: Bytes, pos: nat, c: char)
    requires Valid(text) && IsCharBoundary(text, pos)
    requires pos + |Encode(c)| <= |text| && text[pos..pos + |Encode(c)|] == Encode(c)
    ensures CharsAfter(text, pos) != [] && CharsAfter(text, pos)[0] == c
  {
    var e := Encode(c);
    var end := pos + |e|;
    var rest := CharsAfter(text, pos);
    EncodeChars(c);
    JoinSlices(text, pos, end);
    assert text[pos..] == e + text[end..];
    ValidPrefixRest(e, text[end..]);
    ValidConcat(e, text[end..]);
    assert rest == [c] + Chars(text[end..]);
  }

  /** `parse_slice`: the text between two boundaries; other offsets panic. */
  function ParseSlice(text: Bytes, p1: nat, p2: nat): (s: Bytes)
    requires p1 <= p2 <= |text| && IsCharBoundary(text, p1) && IsCharBoundary(text, p2)
    ensures |s| == p2 - p1 && text[..p1] + s + text[p2..] == text
  {
    JoinSlices(text, p1, p2);
    text[p1..p2]
  }

  /** The slice between a position and where a match from it ends is well-formed; for a literal it is the literal, for an element its encoding. */
  lemma {:induction false} SliceOfMatch(text: Bytes, pos: nat, literal: Bytes)
    requires Valid(text) && IsCharBoundary(text, pos)
    ensures ParseElem(text, pos).Matched? ==>
      ParseSlice(text, pos, ParseElem(text, pos).pos) == Encode(ParseElem(text, pos).value)
    ensures Valid(literal) && ParseStringLiteral(text, pos, literal).Matched? ==>
      && IsCharBoundary(text, pos + |literal|)
      && ParseSlice(text, pos, pos + |literal|) == literal
  {
    if Valid(literal) && ParseStringLiteral(text, pos, literal).Matched? {
      LiteralEndsAtBoundary(text, pos, literal);
    }
  }

  /** The line and column start at 1, 1. */
  lemma {:induction false} PositionReprStart(text: Bytes)
    requires Valid(text)
    ensures PositionRepr(text, 0) == LineCol(1, 1, 0)
  {
    assert text[..0] == [];
  }

  /**
   * Reading one character moves to the next line at column 1 for a
   * newline, and one column on otherwise: `position_repr` agrees with a
   * line and column counter run over the characters.
   */
  lemma {:induction false} PositionReprStep(text: Bytes, pos: nat)
    requires Valid(text) && IsCharBoundary(text, pos) && pos < |text|
    ensures ParseElem(text, pos).Matched?
    ensures var e := ParseElem(text, pos);
      var before, after := PositionRepr(text, pos), PositionRepr(text, e.pos);
      && after.offset == e.pos
      && (e.value == '\n' ==> after.line == before.line + 1 && after.column == 1)
      && (e.value != '\n' ==> after.line == before.line && after.column == before.column + 1)
  {
    LineStep(text, pos);
    ColumnStep(text, pos);
  }

  lemma {:induction false} LineStep(text: Bytes, pos: nat)
    requires Valid(text) && IsCharBoundary(text, pos) && pos < |text|
    ensures var e := ParseElem(text, pos);
      e.Matched? && PositionRepr(text, e.pos).line == PositionRepr(text, pos).line + (if e.value == '\n' then 1 else 0)
  {
    var e := ParseElem(text, pos);
    var c := e.value;
    var cs := CharsBefore(text, pos);
    CharsBeforeStep(text, pos);
    CountNewlineCharsConcat(cs, [c]);
    assert CountNewlineChars([c]) == if c == '\n' then 1 else 0 by {
      assert [c][1..] == [];
    }
  }

  lemma {:induction false} ColumnStep(text: Bytes, pos: nat)
    requires Valid(text) && IsCharBoundary(text, pos) && pos < |text|
    ensures var e := ParseElem(text, pos);
      e.Matched? && PositionRepr(text, e.pos).column == if e.value == '\n' then 1 else PositionRepr(text, pos).column + 1
  {
    var e := ParseElem(text, pos);
    var c := e.value;
    var cs := CharsBefore(text, pos);
    CharsBeforeStep(text, pos);
    var ds := cs + [c];
    assert CharsBefore(text, e.pos) == ds;
    assert ds[..|ds| - 1] == cs && ds[|ds| - 1] == c;
    assert TrailingColumn(ds) == if c == '\n' then 0 else TrailingColumn(cs) + 1;
    assert PositionRepr(text, e.pos).column == TrailingColumn(ds) + 1;
    assert PositionRepr(text, pos).column == TrailingColumn(cs) + 1;
  }

  /** The characters before the end of the element at `pos` are those before `pos` and that element. */
  lemma {:induction false} CharsBeforeStep(text: Bytes, pos: nat)
    requires Valid(text) && IsCharBoundary(text, pos) && pos < |text|
    ensures var e := ParseElem(text, pos);
      e.Matched? && CharsBefore(text, e.pos) == CharsBefore(text, pos) + [e.value]
  {
    var e := ParseElem(text, pos);
    var c, next := e.value, e.pos;
    JoinSlices(text, 0, pos);
    JoinSlices(text, pos, next);
    assert text[0..pos] == text[..pos] && text[0..next] == text[..next];
    var a := text[..pos];
    assert text[..next] == a + Encode(c);
    ValidSplit(text, pos);
    EncodeChars(c);
    ValidConcat(a, Encode(c));
  }
}
