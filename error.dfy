/** The error taxonomy of slicing (`SliceError`) and its human-readable messages. */
module Error {

  /** Why a range could not be used to slice a string view. */
  datatype SliceError =
    | StartOutOfBounds
    | EndOutOfBounds
    | EndBeforeStart
    | StartNotAligned
    | EndNotAligned

  /** The errors that blame the start of the range rather than its end. */
  predicate BlamesStart(e: SliceError) {
    e.StartOutOfBounds? || e.StartNotAligned?
  }

  predicate IsPrefix(p: string, s: string) {
    |p| <= |s| && s[..|p|] == p
  }

  predicate IsSuffix(p: string, s: string) {
    |p| <= |s| && s[|s| - |p|..] == p
  }

  /** The `Display` text of an error: the offset it blames, then what is wrong with it. */
  function Display(e: SliceError): (msg: string)
    ensures |msg| > 0
  {
    match e
    case StartOutOfBounds => "start offset " + "out of bounds"
    case StartNotAligned => "start offset " + "in multibyte UTF-8 sequence"
    case EndOutOfBounds => "end offset " + "out of bounds"
    case EndNotAligned => "end offset " + "in multibyte UTF-8 sequence"
    case EndBeforeStart => "end offset " + "before start offset"
  }

  lemma {:induction false} PrefixOfConcat(p: string, q: string, s: string)
    requires IsPrefix(p, q)
    ensures IsPrefix(p, q + s)
  {
    assert (q + s)[..|p|] == q[..|p|];
  }

  lemma {:induction false} SuffixOfConcat(p: string, q: string)
    ensures IsSuffix(p, q + p)
  {
    assert (q + p)[|q + p| - |p|..] == p;
  }

  /** The message opens with the offset it blames. */
  lemma {:induction false} DisplayNamesOffset(e: SliceError)
    ensures IsPrefix("start offset", Display(e)) <==> BlamesStart(e)
    ensures IsPrefix("end offset", Display(e)) <==> !BlamesStart(e)
  {
    var m := Display(e);
    assert IsPrefix("start offset", "start offset ") && IsPrefix("end offset", "end offset ");
    match e
    case StartOutOfBounds =>
      PrefixOfConcat("start offset", "start offset ", "out of bounds");
      assert m[0] != "end offset"[0];
    case StartNotAligned =>
      PrefixOfConcat("start offset", "start offset ", "in multibyte UTF-8 sequence");
      assert m[0] != "end offset"[0];
    case EndOutOfBounds =>
      PrefixOfConcat("end offset", "end offset ", "out of bounds");
      assert m[0] != "start offset"[0];
    case EndNotAligned =>
      PrefixOfConcat("end offset", "end offset ", "in multibyte UTF-8 sequence");
      assert m[0] != "start offset"[0];
    case EndBeforeStart =>
      PrefixOfConcat("end offset", "end offset ", "before start offset");
      assert m[0] != "start offset"[0];
  }

  /** Both bounds errors end in the same words, and no other error does. */
  lemma {:induction false} DisplayGroupsBounds(e: SliceError)
    ensures IsSuffix("out of bounds", Display(e)) <==> e.StartOutOfBounds? || e.EndOutOfBounds?
  {
    var m := Display(e);
    match e
    case StartOutOfBounds => SuffixOfConcat("out of bounds", "start offset ");
    case EndOutOfBounds => SuffixOfConcat("out of bounds", "end offset ");
    case StartNotAligned => assert m[|m| - 1] == 'e';
    case EndNotAligned => assert m[|m| - 1] == 'e';
    case EndBeforeStart => assert m[|m| - 1] == 't';
  }

  /** Both alignment errors end in the same words, and no other error does. */
  lemma {:induction false} DisplayGroupsAlignment(e: SliceError)
    ensures IsSuffix("in multibyte UTF-8 sequence", Display(e)) <==> e.StartNotAligned? || e.EndNotAligned?
  {
    var m := Display(e);
    match e
    case StartNotAligned => SuffixOfConcat("in multibyte UTF-8 sequence", "start offset ");
    case EndNotAligned => SuffixOfConcat("in multibyte UTF-8 sequence", "end offset ");
    case StartOutOfBounds => assert m[|m| - 1] == 's';
    case EndOutOfBounds => assert m[|m| - 1] == 's';
    case EndBeforeStart => assert m[|m| - 1] == 't';
  }

  /** Every variant has a message of its own. */
  lemma {:induction false} DisplayInjective(a: SliceError, b: SliceError)
    ensures Display(a) == Display(b) ==> a == b
  {
  }
}
