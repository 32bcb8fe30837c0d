/**
 * The std `String` edits that the string view's appending operations hand
 * to `unchecked_append`: `push`, `push_str`, `insert`, `insert_str` and the
 * three `Extend` implementations. Each edit inserts a piece of well-formed
 * text at one character boundary of the text it is applied to.
 */
module Edits {
  import opened Utf8

  datatype Edit =
    | Push(c: char)
    | PushStr(s: Bytes)
    | Insert(index: nat, c: char)
    | InsertStr(index: nat, s: Bytes)
    | ExtendChars(cs: seq<char>)
    | ExtendStrs(ss: seq<Bytes>)

  /** The texts of `ss`, one after the other. */
  function Join(ss: seq<Bytes>): Bytes {
    if ss == [] then [] else ss[0] + Join(ss[1..])
  }

  /** The bytes an edit inserts. */
  function Piece(e: Edit): Bytes {
    match e
    case Push(c) => Encode(c)
    case PushStr(s) => s
    case Insert(_, c) => Encode(c)
    case InsertStr(_, s) => s
    case ExtendChars(cs) => EncodeAll(cs)
    case ExtendStrs(ss) => Join(ss)
  }

  /** Where an edit inserts its piece: the given index, or the end of the text. */
  function Index(e: Edit, text: Bytes): nat {
    match e
    case Insert(i, _) => i
    case InsertStr(i, _) => i
    case _ => |text|
  }

  /**
   * What the std `String` method demands: the inserted text is well-formed
   * (it is a `&str`), and an insertion index is a character boundary (the
   * std methods panic otherwise).
   */
  predicate Allowed(e: Edit, text: Bytes) {
    match e
    case Push(_) => true
    case PushStr(s) => Valid(s)
    case Insert(i, _) => IsCharBoundary(text, i)
    case InsertStr(i, s) => IsCharBoundary(text, i) && Valid(s)
    case ExtendChars(_) => true
    case ExtendStrs(ss) => forall k :: 0 <= k < |ss| ==> Valid(ss[k])
  }

  /** Well-formed texts joined together are well-formed. */
  lemma {:induction false} JoinValid(ss: seq<Bytes>)
    requires forall k :: 0 <= k < |ss| ==> Valid(ss[k])
    ensures Valid(Join(ss))
  {
    if ss != [] {
      JoinValid(ss[1..]);
      ValidConcat(ss[0], Join(ss[1..]));
    }
  }

  /** The piece an allowed edit inserts is well-formed text, and the index is inside the text. */
  lemma {:induction false} PieceValid(e: Edit, text: Bytes)
    requires Allowed(e, text)
    ensures Valid(Piece(e))
    ensures Index(e, text) <= |text| && IsCharBoundary(text, Index(e, text))
  {
    match e
    case Push(c) => EncodeAllRoundTrip([c]); assert EncodeAll([c]) == Encode(c) + [];
    case Insert(_, c) => EncodeAllRoundTrip([c]); assert EncodeAll([c]) == Encode(c) + [];
    case ExtendChars(cs) => EncodeAllRoundTrip(cs);
    case ExtendStrs(ss) => JoinValid(ss);
    case PushStr(_) =>
    case InsertStr(_, _) =>
  }

  /**
   * The std `String` result of an edit: the text with the piece inserted at
   * the index. Applied to well-formed text it gives well-formed text.
   */
  function Apply(e: Edit, text: Bytes): (r: Bytes)
    requires Valid(text) && Allowed(e, text)
    ensures Valid(r)
    ensures |r| == |text| + |Piece(e)|
    ensures IsCharBoundary(r, Index(e, text)) && IsCharBoundary(r, Index(e, text) + |Piece(e)|)
    ensures r == text[..Index(e, text)] + Piece(e) + text[Index(e, text)..]
  {
    var i := Index(e, text);
    PieceValid(e, text);
    ValidSplit(text, i);
    ValidConcat(text[..i], Piece(e));
    ValidConcat(text[..i] + Piece(e), text[i..]);
    ValidConcat(Piece(e), text[i..]);
    ConcatBoundary(text[..i], Piece(e) + text[i..]);
    ConcatBoundary(text[..i] + Piece(e), text[i..]);
    ConcatAssoc(text[..i], Piece(e), text[i..]);
    (text[..i] + Piece(e)) + text[i..]
  }

  /** An edit keeps the characters before and after the index and puts the piece's characters between them. */
  lemma {:induction false} ApplyChars(e: Edit, text: Bytes)
    requires Valid(text) && Allowed(e, text)
    ensures var i := Index(e, text);
      && i <= |text| && Valid(text[..i]) && Valid(text[i..]) && Valid(Piece(e))
      && Chars(Apply(e, text)) == Chars(text[..i]) + Chars(Piece(e)) + Chars(text[i..])
  {
    var i := Index(e, text);
    PieceValid(e, text);
    ValidSplit(text, i);
    ValidConcat(text[..i], Piece(e));
    ValidConcat(text[..i] + Piece(e), text[i..]);
  }

  /** The characters an edit inserts: the pushed character, the inserted text's characters, the extension. */
  lemma {:induction false} PieceChars(e: Edit)
    ensures e.Push? || e.Insert? ==> Valid(Piece(e)) && Chars(Piece(e)) == [e.c]
    ensures e.ExtendChars? ==> Valid(Piece(e)) && Chars(Piece(e)) == e.cs
  {
    match e
    case Push(c) => EncodeAllRoundTrip([c]); assert EncodeAll([c]) == Encode(c) + [];
    case Insert(_, c) => EncodeAllRoundTrip([c]); assert EncodeAll([c]) == Encode(c) + [];
    case ExtendChars(cs) => EncodeAllRoundTrip(cs);
    case _ =>
  }

  /** `push(c)` appends `c` to the characters; `extend(cs)` appends all of `cs`. */
  lemma {:induction false} AppendChars(e: Edit, text: Bytes)
    requires Valid(text) && (e.Push? || e.ExtendChars?)
    ensures Chars(Apply(e, text)) == Chars(text) + (if e.Push? then [e.c] else e.cs)
  {
    ApplyChars(e, text);
    PieceChars(e);
    assert text[..|text|] == text && text[|text|..] == [];
  }

  /** `insert_str(0, s)` prepends `s` and `insert_str(len, s)` appends it, exactly as `push_str` does. */
  lemma {:induction false} InsertStrAtEnds(text: Bytes, s: Bytes)
    requires Valid(text) && Valid(s)
    ensures Apply(InsertStr(0, s), text) == s + text
    ensures Apply(InsertStr(|text|, s), text) == text + s == Apply(PushStr(s), text)
  {
    InsertStrAtStart(text, s);
    InsertStrAtEnd(text, s);
    PushStrAppends(text, s);
  }

  lemma {:induction false} InsertStrAtStart(text: Bytes, s: Bytes)
    requires Valid(text) && Valid(s)
    ensures Apply(InsertStr(0, s), text) == s + text
  {
    assert text[..0] == [] && text[0..] == text;
    assert [] + s == s;
  }

  lemma {:induction false} InsertStrAtEnd(text: Bytes, s: Bytes)
    requires Valid(text) && Valid(s)
    ensures Apply(InsertStr(|text|, s), text) == text + s
  {
    assert text[..|text|] == text && text[|text|..] == [];
    assert s + [] == s;
  }

  lemma {:induction false} PushStrAppends(text: Bytes, s: Bytes)
    requires Valid(text) && Valid(s)
    ensures Apply(PushStr(s), text) == text + s
  {
    assert text[..|text|] == text && text[|text|..] == [];
    assert s + [] == s;
  }
}
