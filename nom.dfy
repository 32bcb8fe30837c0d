/**
 * The nom input traits on a string view: `InputTake`, `InputLength`,
 * `InputIter::position`/`slice_index`, `InputTakeAtPosition` and `Offset`.
 * Each takes the view's visible text; a view the method returns is given
 * as a range of that text (the method makes it with `slice`, so the view
 * shows exactly those bytes).
 */
module Nom {
  import opened Utf8
  import opened Wrappers
  import opened Ranges

  /** `nom::Needed`. */
  datatype Needed = Unknown | Size(n: nat)

  /**
   * An `IResult<Self, Self, E>`: `Ok((rest, taken))`, `Err(Incomplete(needed))`,
   * or `Err(Error(e))` where `e` is built from a clone of the whole input.
   */
  datatype Outcome = Done(rest: Range, taken: Range) | Incomplete(needed: Needed) | Failure(input: Range)

  /** The text of a range of a text. */
  function Part(text: Bytes, r: Range): Bytes
    requires r.Within(|text|)
  {
    text[r.start..r.end]
  }

  /** `input_len`: the byte length of the view. */
  function InputLen(text: Bytes): nat {
    |text|
  }

  /** `take`: the view of the first `count` bytes (`slice(..count)`, which panics off a boundary). */
  function Take(text: Bytes, count: nat): (taken: Range)
    requires count <= |text| && IsCharBoundary(text, count)
    ensures Aligned(text, taken) && InputLen(Part(text, taken)) == count
    ensures Part(text, taken) == text[..count]
    ensures count <= USIZE_MAX ==> TrySliceIntended(text, Bounds(Unbounded, Excluded(count))) == Ok(taken)
  {
    Range(0, count)
  }

  /** `take_split`: the rest after `count` bytes, then the first `count` bytes. */
  function TakeSplit(text: Bytes, count: nat): (pair: (Range, Range))
    requires count <= |text| && IsCharBoundary(text, count)
    ensures pair.1 == Take(text, count)
    ensures Aligned(text, pair.0) && Aligned(text, pair.1)
    ensures Part(text, pair.1) + Part(text, pair.0) == text
    ensures count <= USIZE_MAX ==> TrySliceIntended(text, Bounds(Included(count), Unbounded)) == Ok(pair.0)
  {
    assert text[..count] + text[count..] == text;
    (Range(count, |text|), Take(text, count))
  }

  /** The two pieces of `take_split` hold the characters of the view, in order. */
  lemma {:induction false} TakeSplitChars(text: Bytes, count: nat)
    requires Valid(text) && count <= |text| && IsCharBoundary(text, count)
    ensures var (rest, taken) := TakeSplit(text, count);
      && Valid(Part(text, taken)) && Valid(Part(text, rest))
      && Chars(Part(text, taken)) + Chars(Part(text, rest)) == Chars(text)
  {
    var (rest, taken) := TakeSplit(text, count);
    assert Part(text, rest) == text[count..];
    ValidSplit(text, count);
  }

  /** The index of the first character satisfying `p`. */
  function FirstMatch(cs: seq<char>, p: char -> bool): (k: Option<nat>)
    ensures k.Some? ==> k.value < |cs| && p(cs[k.value])
    ensures k.Some? ==> forall j :: 0 <= j < k.value ==> !p(cs[j])
    ensures k.None? ==> forall j :: 0 <= j < |cs| ==> !p(cs[j])
  {
    if cs == [] then None
    else if p(cs[0]) then Some(0)
    else match FirstMatch(cs[1..], p)
      case None => None
      case Some(k) => Some(k + 1)
  }

  /** No character of the text satisfies `p`. */
  ghost predicate NoMatch(text: Bytes, p: char -> bool)
    requires Valid(text)
  {
    forall c :: c in Chars(text) ==> !p(c)
  }

  /** The first character that satisfies `p` starts at byte `i`. */
  ghost predicate FirstMatchAt(text: Bytes, p: char -> bool, i: nat)
    requires Valid(text)
  {
    && i < |text| && IsCharBoundary(text, i)
    && p(CharsAfter(text, i)[0])
    && forall c :: c in CharsBefore(text, i) ==> !p(c)
  }

  /**
   * `InputIter::position`, and the `str::find` that every split method
   * starts with: the byte index of the first character satisfying `p`.
   */
  function Find(text: Bytes, p: char -> bool): (i: Option<nat>)
    requires Valid(text)
    ensures i.Some? ==> FirstMatchAt(text, p, i.value)
    ensures i.None? <==> NoMatch(text, p)
  {
    var cs := Chars(text);
    match FirstMatch(cs, p)
    case None => None
    case Some(k) =>
      FirstMatchLocated(text, p, k);
      Some(CharStart(cs, k))
  }

  /** The first matching character, counted in characters, starts at the byte offset of that many characters. */
  lemma {:induction false} FirstMatchLocated(text: Bytes, p: char -> bool, k: nat)
    requires Valid(text) && FirstMatch(Chars(text), p) == Some(k)
    ensures FirstMatchAt(text, p, CharStart(Chars(text), k))
    ensures !NoMatch(text, p)
  {
    var cs := Chars(text);
    CharStartSplit(text, k);
    var i := CharStart(cs, k);
    assert CharsAfter(text, i) == cs[k..];
    assert CharsBefore(text, i) == cs[..k];
    assert cs[k] in cs;
  }

  /** The character that starts at one boundary is among the characters before any later boundary. */
  lemma {:induction false} CharBeforeLaterBoundary(text: Bytes, i: nat, j: nat)
    requires Valid(text) && i < j <= |text| && IsCharBoundary(text, i) && IsCharBoundary(text, j)
    ensures CharsAfter(text, i)[0] in CharsBefore(text, j)
  {
    var pre, mid, post := text[..i], text[i..j], text[j..];
    ValidSlice(text, i, j);
    ValidSplit(text, i);
    ValidSplit(text, j);
    JoinSlices(text, i, j);
    ValidConcat(mid, post);
    assert mid != [];
    var m := Chars(mid);
    assert CharsAfter(text, i) == m + Chars(post);
    ValidConcat(pre, mid);
    assert CharsBefore(text, j) == Chars(pre) + m;
    assert m[0] == (Chars(pre) + m)[|Chars(pre)|];
  }

  /** A text has at most one first match. */
  lemma {:induction false} FirstMatchUnique(text: Bytes, p: char -> bool, i: nat, j: nat)
    requires Valid(text) && FirstMatchAt(text, p, i) && FirstMatchAt(text, p, j)
    ensures i == j
  {
    if i < j {
      CharBeforeLaterBoundary(text, i, j);
    } else if j < i {
      CharBeforeLaterBoundary(text, j, i);
    }
  }

  /** `split_at_position`: split before the first match, or ask for one more character. */
  function SplitAtPosition(text: Bytes, p: char -> bool): (o: Outcome)
    requires Valid(text)
    ensures o.Done? || o.Incomplete?
    ensures o.Done? ==> o.taken == Range(0, o.rest.start) && o.rest.end == |text|
    ensures o.Done? ==> FirstMatchAt(text, p, o.rest.start)
    ensures o.Incomplete? <==> NoMatch(text, p)
    ensures o.Incomplete? ==> o.needed == Size(1)
  {
    match Find(text, p)
    case Some(i) => Done(Range(i, |text|), Range(0, i))
    case None => Incomplete(Size(1))
  }

  /** `split_at_position1`: as `split_at_position`, except that a match at the very start is an error. */
  function SplitAtPosition1(text: Bytes, p: char -> bool): (o: Outcome)
    requires Valid(text)
    ensures o.Failure? <==> FirstMatchAt(text, p, 0)
    ensures o.Failure? ==> o.input == Range(0, |text|)
    ensures !o.Failure? ==> o == SplitAtPosition(text, p)
    ensures o.Done? ==> o.taken.end > 0
  {
    match Find(text, p)
    case Some(0) => Failure(Range(0, |text|))
    case Some(i) => Done(Range(i, |text|), Range(0, i))
    case None => Incomplete(Size(1))
  }

  /** `split_at_position_complete`: as `split_at_position`, except that without a match the whole input is taken. */
  function SplitAtPositionComplete(text: Bytes, p: char -> bool): (o: Outcome)
    requires Valid(text)
    ensures o.Done?
    ensures NoMatch(text, p) ==> o == Done(Range(|text|, |text|), Range(0, |text|))
    ensures !NoMatch(text, p) ==> o == SplitAtPosition(text, p)
  {
    match Find(text, p)
    case Some(i) => Done(Range(i, |text|), Range(0, i))
    case None => Done(Range(|text|, |text|), Range(0, |text|))
  }

  /**
   * `split_at_position1_complete`: as `split_at_position_complete`, except
   * that a match at the very start, or an empty input, is an error.
   */
  function SplitAtPosition1Complete(text: Bytes, p: char -> bool): (o: Outcome)
    requires Valid(text)
    ensures o.Failure? <==> FirstMatchAt(text, p, 0) || text == []
    ensures o.Failure? ==> o.input == Range(0, |text|)
    ensures !o.Failure? ==> o == SplitAtPositionComplete(text, p)
    ensures o.Done? ==> o.taken.end > 0
  {
    match Find(text, p)
    case Some(0) => Failure(Range(0, |text|))
    case Some(i) => Done(Range(i, |text|), Range(0, i))
    case None =>
      if text == [] then Failure(Range(0, |text|))
      else Done(Range(|text|, |text|), Range(0, |text|))
  }

  /**
   * The split `split_at_position_complete` makes, which is the one every
   * split method returns when it succeeds: the taken part and the rest are
   * views at character boundaries that put the input back together.
   */
  lemma {:induction false} SplitReassembles(text: Bytes, p: char -> bool)
    requires Valid(text)
    ensures var o := SplitAtPositionComplete(text, p);
      && Aligned(text, o.taken) && Aligned(text, o.rest) && o.taken.end == o.rest.start
      && Part(text, o.taken) + Part(text, o.rest) == text
  {
    var f := Find(text, p);
    var i := if f.Some? then f.value else |text|;
    assert SplitAtPositionComplete(text, p) == Done(Range(i, |text|), Range(0, i));
    assert IsCharBoundary(text, i);
    assert text[0..i] == text[..i];
    TakeDrop(text, i);
  }

  /**
   * No character of the part `split_at_position_complete` takes satisfies
   * the predicate, and the rest is empty or starts with a character that does.
   */
  lemma {:induction false} SplitStopsAtMatch(text: Bytes, p: char -> bool)
    requires Valid(text)
    ensures var o := SplitAtPositionComplete(text, p);
      && o.taken.start == 0 && o.taken.end <= |text| && IsCharBoundary(text, o.taken.end)
      && (forall c :: c in CharsBefore(text, o.taken.end) ==> !p(c))
      && (o.rest.start < |text| ==> p(CharsAfter(text, o.rest.start)[0]))
  {
    var o := SplitAtPositionComplete(text, p);
    if Find(text, p).None? {
      assert text[..|text|] == text;
    }
  }

  /** A character at or past the end: `slice_index` finds it at its byte index, or at the length for one past the last. */
  lemma {:induction false} CharStartAtEnd(text: Bytes)
    requires Valid(text)
    ensures CharStart(Chars(text), |Chars(text)|) == |text|
  {
    CharsRoundTrip(text);
    assert Chars(text)[..|Chars(text)|] == Chars(text);
  }

  /**
   * `slice_index`: the byte index where character number `count` starts,
   * the length when `count` is the number of characters, and
   * `Needed::Unknown` beyond that. Like the source it walks the characters
   * with their indices and a counter.
   */
  method SliceIndex(text: Bytes, count: nat) returns (r: Result<nat, Needed>)
    requires Valid(text)
    ensures count < |Chars(text)| ==> r == Ok(CharStart(Chars(text), count))
    ensures count == |Chars(text)| ==> r == Ok(|text|)
    ensures count > |Chars(text)| <==> r == Err(Unknown)
  {
    ghost var cs := Chars(text);
    var cnt := 0;
    var index := 0;
    CharStartSplit(text, 0);
    while index < |text|
      invariant cnt <= |cs| && cnt <= count
      invariant index == CharStart(cs, cnt) <= |text|
      invariant Valid(text[index..]) && Chars(text[index..]) == cs[cnt..]
      decreases |text| - index
    {
      if cnt == count {
        return Ok(index);
      }
      var c := Chars(text[index..])[0];
      CharStartStep(cs, cnt);
      CharStartSplit(text, cnt + 1);
      index := index + LenUtf8(c);
      cnt := cnt + 1;
    }
    assert cnt == |cs|;
    CharStartAtEnd(text);
    if cnt == count {
      return Ok(|text|);
    }
    return Err(Unknown);
  }

  /**
   * `offset`: how far the second view starts after the first, in bytes.
   * The `usize` subtraction wraps when the second starts first.
   */
  function Offset(first: Range, second: Range): (d: nat)
    requires first.start <= USIZE_MAX && second.start <= USIZE_MAX
    ensures d <= USIZE_MAX
    ensures first.start <= second.start ==> first.start + d == second.start
    ensures second.start < first.start ==> d == second.start - first.start + USIZE_MAX + 1
  {
    if first.start <= second.start then second.start - first.start
    else second.start - first.start + USIZE_MAX + 1
  }

  /** A view sliced at `r` lies `r.start` bytes into the view it was sliced from. */
  lemma {:induction false} OffsetOfSlice(view: Range, r: Range)
    requires view.start <= view.end <= USIZE_MAX && r.Within(view.end - view.start)
    ensures Offset(view, Nest(view, r)) == r.start
  {
  }
}
