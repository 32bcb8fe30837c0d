/**
 * The offset arithmetic of the string view: how a `RangeBounds<usize>` is
 * resolved to byte offsets, the checks `try_slice` and `try_set_offset`
 * make on them, how a borrowed byte slice is located inside the backing
 * buffer, and the offset updates of `truncate` and `try_split_off`.
 *
 * Where the library's arithmetic does not do what its documentation says,
 * the function modelling the code as written is kept beside the corrected
 * function, together with a lemma exhibiting an input on which they differ;
 * the string view itself uses the corrected functions.
 */
module Ranges {
  import opened Utf8
  import opened Error
  import opened Wrappers

  const USIZE_MAX: nat := 0xFFFF_FFFF_FFFF_FFFF

  type usize = x: nat | x <= USIZE_MAX

  /** `Range<usize>`: the bytes `start..end` of a buffer. */
  datatype Range = Range(start: nat, end: nat) {
    /** A range that can slice a buffer of `len` bytes. */
    predicate Within(len: nat) {
      start <= end <= len
    }
  }

  /** A range that slices a well-formed text at two character boundaries. */
  predicate Aligned(text: Bytes, r: Range) {
    r.Within(|text|) && IsCharBoundary(text, r.start) && IsCharBoundary(text, r.end)
  }

  /** One end of a `RangeBounds<usize>`. */
  datatype Bound = Included(value: usize) | Excluded(value: usize) | Unbounded

  /**
   * A `RangeBounds<usize>`: `a..b` is `Bounds(Included(a), Excluded(b))`,
   * `a..=b` is `Bounds(Included(a), Included(b))`, `..` is
   * `Bounds(Unbounded, Unbounded)`.
   */
  datatype Bounds = Bounds(lo: Bound, hi: Bound)

  function Min(a: int, b: int): int {
    if a <= b then a else b
  }

  /** The first offset a start bound admits; `usize` addition wraps as in a release build. */
  function StartOf(b: Bound): (start: usize)
    ensures b.Included? ==> start == b.value
    ensures b.Excluded? ==> start == (b.value + 1) % (USIZE_MAX + 1)
    ensures b.Unbounded? ==> start == 0
  {
    match b
    case Included(v) => v
    case Excluded(v) => if v == USIZE_MAX then 0 else v + 1
    case Unbounded => 0
  }

  /**
   * The end offset as the library computes it: an inclusive end `v`
   * resolves to `v - 1` (wrapping to `usize::MAX` for 0) where the offset
   * one past `v` was meant.
   */
  function EndOf(b: Bound, len: nat): (end: nat)
    ensures b.Included? ==> end == (b.value - 1) % (USIZE_MAX + 1)
    ensures b.Excluded? ==> end == b.value
    ensures b.Unbounded? ==> end == len
  {
    match b
    case Included(v) => if v == 0 then USIZE_MAX else v - 1
    case Excluded(v) => v
    case Unbounded => len
  }

  /** The end offset a bound evidently means: one past an inclusive end. */
  function EndOfIntended(b: Bound, len: nat): (end: nat)
    ensures b.Included? ==> end == b.value + 1
    ensures !b.Included? ==> end == EndOf(b, len)
  {
    match b
    case Included(v) => v + 1
    case Excluded(v) => v
    case Unbounded => len
  }

  /**
   * The checks of `try_slice` on resolved offsets, in the order it makes
   * them: bounds before alignment, the start before the end.
   */
  function CheckSlice(text: Bytes, start: nat, end: nat): (r: Result<Range, SliceError>)
    ensures r.Ok? <==> Aligned(text, Range(start, end))
    ensures r.Ok? ==> r.value == Range(start, end)
    ensures r == Err(StartOutOfBounds) <==> start > |text|
    ensures r == Err(EndBeforeStart) <==> start <= |text| && end < start
    ensures r == Err(EndOutOfBounds) <==> start <= |text| < end
    ensures r == Err(StartNotAligned) <==> start <= end <= |text| && !IsCharBoundary(text, start)
    ensures r == Err(EndNotAligned) <==>
      start <= end <= |text| && IsCharBoundary(text, start) && !IsCharBoundary(text, end)
  {
    if start > |text| then Err(StartOutOfBounds)
    else if end < start then Err(EndBeforeStart)
    else if end > |text| then Err(EndOutOfBounds)
    else if !IsCharBoundary(text, start) then Err(StartNotAligned)
    else if !IsCharBoundary(text, end) then Err(EndNotAligned)
    else Ok(Range(start, end))
  }

  /** `try_slice` as written, on the visible text: the range it accepts, relative to the view. */
  function TrySlice(text: Bytes, b: Bounds): (r: Result<Range, SliceError>)
    ensures r.Ok? ==> Aligned(text, r.value)
    ensures r.Ok? ==> r.value.start == StartOf(b.lo) && r.value.end == EndOf(b.hi, |text|)
  {
    CheckSlice(text, StartOf(b.lo), EndOf(b.hi, |text|))
  }

  /** `try_slice` with inclusive ends resolved as documented; this is what the string view uses. */
  function TrySliceIntended(text: Bytes, b: Bounds): (r: Result<Range, SliceError>)
    ensures r.Ok? ==> Aligned(text, r.value)
    ensures !b.hi.Included? ==> r == TrySlice(text, b)
  {
    CheckSlice(text, StartOf(b.lo), EndOfIntended(b.hi, |text|))
  }

  /** `"hello"` as bytes. */
  function Hello(): Bytes {
    [0x68, 0x65, 0x6C, 0x6C, 0x6F]
  }

  /** As written, `0..=1` selects nothing instead of `"he"`, and `0..=0` is out of bounds instead of `"h"`. */
  lemma {:induction false} InclusiveEndCounterexample()
    ensures TrySlice(Hello(), Bounds(Included(0), Included(1))) == Ok(Range(0, 0))
    ensures TrySlice(Hello(), Bounds(Included(0), Included(0))) == Err(EndOutOfBounds)
  {
  }

  /** With the intended resolution, `a..=v` selects the bytes `a` through `v`, both included. */
  lemma {:induction false} InclusiveEndIntended(text: Bytes, a: usize, v: usize)
    requires a <= v < |text|
    requires IsCharBoundary(text, a) && IsCharBoundary(text, v + 1)
    ensures TrySliceIntended(text, Bounds(Included(a), Included(v))) == Ok(Range(a, v + 1))
    ensures text[a..v + 1][v - a] == text[v]
  {
  }

  /** Slicing up to `end`: the prefix when `end` is a boundary, otherwise the error that blames the end. */
  lemma {:induction false} TrySlicePrefix(text: Bytes, end: usize)
    requires end <= |text| + 1
    ensures end <= |text| && IsCharBoundary(text, end) ==> TrySlice(text, Bounds(Unbounded, Excluded(end))) == Ok(Range(0, end))
    ensures end <= |text| && !IsCharBoundary(text, end) ==> TrySlice(text, Bounds(Unbounded, Excluded(end))) == Err(EndNotAligned)
    ensures end == |text| + 1 ==> TrySlice(text, Bounds(Unbounded, Excluded(end))) == Err(EndOutOfBounds)
  {
  }

  /** Slicing from `start`: the suffix when `start` is a boundary, otherwise the error that blames the start. */
  lemma {:induction false} TrySliceSuffix(text: Bytes, start: usize)
    requires start <= |text| + 1
    ensures start <= |text| && IsCharBoundary(text, start) ==> TrySlice(text, Bounds(Included(start), Unbounded)) == Ok(Range(start, |text|))
    ensures start <= |text| && !IsCharBoundary(text, start) ==> TrySlice(text, Bounds(Included(start), Unbounded)) == Err(StartNotAligned)
    ensures start == |text| + 1 ==> TrySlice(text, Bounds(Included(start), Unbounded)) == Err(StartOutOfBounds)
  {
  }

  /** Slicing a non-empty text past its first character (`slice(c.len_utf8()..)`) succeeds and leaves the other characters. */
  lemma {:induction false} SlicePastFirst(text: Bytes)
    requires Valid(text) && text != []
    ensures var n := LenUtf8(Chars(text)[0]);
      && TrySliceIntended(text, Bounds(Included(n), Unbounded)) == Ok(Range(n, |text|))
      && text[n..|text|] == text[n..]
      && Chars(text[n..]) == Chars(text)[1..]
  {
    FirstChar(text);
    TrySliceSuffix(text, LenUtf8(Chars(text)[0]));
  }

  /** The absolute offsets of a range taken relative to a view (`slice_unchecked`). */
  function Nest(view: Range, r: Range): Range
  {
    Range(view.start + r.start, view.start + r.end)
  }

  /** A sub-slice of an aligned view is an aligned slice of the backing buffer with the same bytes. */
  lemma {:induction false} NestAligned(backing: Bytes, view: Range, r: Range)
    requires Aligned(backing, view)
    requires Aligned(backing[view.start..view.end], r)
    ensures Aligned(backing, Nest(view, r))
    ensures backing[Nest(view, r).start..Nest(view, r).end] == backing[view.start..view.end][r.start..r.end]
  {
    SliceBoundary(backing, view.start, view.end, r.start);
    SliceBoundary(backing, view.start, view.end, r.end);
    assert backing[view.start..view.end][r.start..r.end] == backing[view.start + r.start..view.start + r.end];
  }

  /**
   * The checks of `try_set_offset`: absolute offsets into the backing
   * buffer, with an unbounded end resolved to the length of the current
   * view. Offsets past the buffer fail the boundary test, so they are
   * reported as misaligned rather than out of bounds.
   */
  function CheckOffset(backing: Bytes, start: nat, end: nat): (r: Result<Range, SliceError>)
    ensures r.Ok? <==> Aligned(backing, Range(start, end))
    ensures r.Ok? ==> r.value == Range(start, end)
    ensures r.Err? ==> r.error in {EndBeforeStart, StartNotAligned, EndNotAligned}
    ensures r == Err(EndBeforeStart) <==> end < start
    ensures r == Err(StartNotAligned) <==> start <= end && !IsCharBoundary(backing, start)
    ensures r == Err(EndNotAligned) <==> start <= end && IsCharBoundary(backing, start) && !IsCharBoundary(backing, end)
  {
    if end < start then Err(EndBeforeStart)
    else if !IsCharBoundary(backing, start) then Err(StartNotAligned)
    else if !IsCharBoundary(backing, end) then Err(EndNotAligned)
    else Ok(Range(start, end))
  }

  /** A byte slice as its address and its length (`slice_ptr_range`). */
  datatype Region = Region(addr: int, len: nat) {
    function End(): int {
      addr + len
    }
  }

  /**
   * `try_slice_offset`: where `candidate` sits inside `current`, as offsets
   * relative to `current`'s first byte, or `None` when it is not inside.
   */
  function SliceOffset(current: Region, candidate: Region): (r: Option<Range>)
    ensures r.Some? <==> current.addr <= candidate.addr && candidate.End() <= current.End()
    ensures r.Some? ==> r.value.Within(current.len)
    ensures r.Some? ==> current.addr + r.value.start == candidate.addr
    ensures r.Some? ==> r.value.end - r.value.start == candidate.len
  {
    if current.addr <= candidate.addr && candidate.End() <= current.End() then
      Some(Range(candidate.addr - current.addr, candidate.End() - current.addr))
    else
      None
  }

  /**
   * As written, `try_slice_ref` accepts a byte slice of the backing buffer
   * that cuts a character in two: the first byte of `"é"` becomes a view.
   */
  lemma {:induction false} SliceRefCounterexample(base: int)
    ensures var backing: Bytes := [0xC3, 0xA9];
      && SliceOffset(Region(base, |backing|), Region(base, 1)) == Some(Range(0, 1))
      && !IsCharBoundary(backing, 1)
  {
  }

  /**
   * `try_slice_ref` as documented: the offsets of `candidate` in the backing
   * buffer at `base`, provided it is inside and its ends are boundaries.
   */
  function SliceRef(backing: Bytes, base: int, candidate: Region): (r: Option<Range>)
    ensures r.Some? <==>
      && base <= candidate.addr && candidate.addr + candidate.len <= base + |backing|
      && Aligned(backing, Range(candidate.addr - base, candidate.addr + candidate.len - base))
    ensures r.Some? ==> Aligned(backing, r.value) && base + r.value.start == candidate.addr
    ensures r.Some? ==> r.value.end - r.value.start == candidate.len
  {
    match SliceOffset(Region(base, |backing|), candidate)
    case Some(range) => if Aligned(backing, range) then Some(range) else None
    case None => None
  }

  /** When `slice_ref` finds the region, the view it gives covers exactly the bytes at that region. */
  lemma {:induction false} SliceRefReads(backing: Bytes, base: int, candidate: Region, text: Bytes)
    requires |text| == candidate.len
    requires base <= candidate.addr && candidate.End() <= base + |backing| ==>
      backing[candidate.addr - base..candidate.End() - base] == text
    ensures SliceRef(backing, base, candidate).Some? ==>
      var r := SliceRef(backing, base, candidate).value;
      r.start <= r.end <= |backing| && backing[r.start..r.end] == text
  {
  }

  /** A non-empty slice lying inside the buffer at `base` whose bytes are well-formed, as those of a `&str` are. */
  predicate StrInside(backing: Bytes, base: int, candidate: Region) {
    && candidate.len > 0 && base <= candidate.addr && candidate.End() <= base + |backing|
    && Valid(backing[candidate.addr - base..candidate.End() - base])
  }

  /**
   * A non-empty well-formed text lying inside a well-formed buffer starts
   * and ends at boundaries of it, so `slice_ref` finds it: on a `&str`,
   * the boundary checks only ever turn away an empty slice.
   */
  lemma {:induction false} WellFormedSliceFound(backing: Bytes, base: int, candidate: Region)
    requires Valid(backing) && StrInside(backing, base, candidate)
    ensures SliceRef(backing, base, candidate).Some?
    ensures SliceRef(backing, base, candidate).value == Range(candidate.addr - base, candidate.End() - base)
  {
    var r := Range(candidate.addr - base, candidate.End() - base);
    PieceBoundaries(backing, r.start, r.end);
    assert SliceOffset(Region(base, |backing|), candidate) == Some(r);
    assert Aligned(backing, r);
  }

  /** What `truncate` leaves behind, or `Panic` when `String::truncate` panics. */
  datatype Truncation = Panic | Truncated(backing: Bytes, offset: Range)

  /**
   * `truncate` as written. `exclusive` says whether `get_mut` granted write
   * access; the backing buffer is then cut at `start + n`, which panics when
   * that is inside a character, even one past the end of the view.
   */
  function TruncateAsWritten(backing: Bytes, offset: Range, exclusive: bool, n: nat): (t: Truncation)
    ensures t.Panic? <==> exclusive && !IsCharBoundary(backing, offset.start + n) && offset.start + n < |backing|
    ensures t.Truncated? ==> t.offset.start == offset.start && t.offset.end <= offset.end
    ensures t.Truncated? ==> t.offset.end == Min(offset.end, offset.start + n)
    ensures t.Truncated? && exclusive && offset.start + n <= |backing| ==> t.backing == backing[..offset.start + n]
    ensures t.Truncated? && (!exclusive || offset.start + n > |backing|) ==> t.backing == backing
  {
    var length := offset.start + n;
    if exclusive && length <= |backing| then
      if IsCharBoundary(backing, length) then Truncated(backing[..length], Range(offset.start, Min(offset.end, length)))
      else Panic
    else
      Truncated(backing, Range(offset.start, Min(offset.end, length)))
  }

  /** On a shared buffer, truncating `"é"` to one byte leaves a view that cuts the character in two. */
  lemma {:induction false} TruncateSharedCounterexample()
    ensures var backing: Bytes := [0xC3, 0xA9];
      && TruncateAsWritten(backing, Range(0, 2), false, 1) == Truncated(backing, Range(0, 1))
      && !Aligned(backing, Range(0, 1))
  {
  }

  /**
   * On an exclusively held buffer `"aé"` viewed as `"a"`, truncating to 2
   * bytes, which is longer than the view, panics instead of doing nothing.
   */
  lemma {:induction false} TruncatePastEndCounterexample()
    ensures var backing: Bytes := [0x61, 0xC3, 0xA9];
      TruncateAsWritten(backing, Range(0, 1), true, 2) == Panic
  {
  }

  /**
   * `truncate` as documented: keep the first `n` bytes of the view, cutting
   * an exclusively held buffer at the new end; when `n` is not smaller than
   * the view's length, nothing changes. The documented panic for a cut
   * inside a character is the precondition.
   */
  function Truncate(backing: Bytes, offset: Range, exclusive: bool, n: nat): (t: Truncation)
    requires Valid(backing) && Aligned(backing, offset)
    requires n >= offset.end - offset.start || IsCharBoundary(backing[offset.start..offset.end], n)
    ensures t.Truncated?
    ensures Valid(t.backing) && Aligned(t.backing, t.offset)
    ensures t.offset == Range(offset.start, Min(offset.end, offset.start + n))
    ensures t.backing[t.offset.start..t.offset.end] ==
      backing[offset.start..offset.end][..Min(n, offset.end - offset.start)]
    ensures n >= offset.end - offset.start ==> t == Truncated(backing, offset)
    ensures exclusive && n < offset.end - offset.start ==> t.backing == backing[..offset.start + n]
    ensures !exclusive ==> t.backing == backing
  {
    if n >= offset.end - offset.start then Truncated(backing, offset)
    else
      var end := offset.start + n;
      CutView(backing, offset, end);
      if exclusive then Truncated(backing[..end], Range(offset.start, end))
      else Truncated(backing, Range(offset.start, end))
  }

  /**
   * The documented `truncate` and the code as written agree on a shared
   * buffer, and on an exclusively held one whenever `n` is shorter than the
   * view; they part only when `n` reaches past the view of an exclusively
   * held buffer.
   */
  lemma {:induction false} TruncateAgrees(backing: Bytes, offset: Range, exclusive: bool, n: nat)
    requires Valid(backing) && Aligned(backing, offset)
    requires n >= offset.end - offset.start || IsCharBoundary(backing[offset.start..offset.end], n)
    requires !exclusive || n < offset.end - offset.start
    ensures TruncateAsWritten(backing, offset, exclusive, n) == Truncate(backing, offset, exclusive, n)
  {
    if n < offset.end - offset.start {
      CutView(backing, offset, offset.start + n);
    }
  }

  /** Cutting an aligned view at a boundary inside it: the facts `Truncate` relies on. */
  lemma {:induction false} CutView(backing: Bytes, offset: Range, end: nat)
    requires Valid(backing) && Aligned(backing, offset) && offset.start <= end <= offset.end
    requires IsCharBoundary(backing[offset.start..offset.end], end - offset.start)
    ensures IsCharBoundary(backing, end) && Aligned(backing, Range(offset.start, end))
    ensures Valid(backing[..end]) && Aligned(backing[..end], Range(offset.start, end))
    ensures backing[..end][offset.start..end] == backing[offset.start..end]
    ensures backing[offset.start..end] == backing[offset.start..offset.end][..end - offset.start]
  {
    SliceBoundary(backing, offset.start, offset.end, end - offset.start);
    ValidSplit(backing, end);
    PrefixBoundary(backing, end, offset.start);
    NestedSlices(backing, offset.start, end, offset.end);
    NestedSlices(backing, offset.start, end, end);
  }

  /**
   * `pop` on a view: its last character and the view that ends just before
   * that character's encoding, or nothing for an empty view. The buffer is
   * not touched.
   */
  function PopView(backing: Bytes, offset: Range): (r: Option<(char, Range)>)
    requires Valid(backing) && Aligned(backing, offset)
    ensures r.None? <==> offset.start == offset.end
    ensures r.Some? ==>
      var (c, v) := r.value;
      && v.start == offset.start && v.end == offset.end - LenUtf8(c) && Aligned(backing, v)
      && backing[offset.start..offset.end] == backing[v.start..v.end] + Encode(c)
      && Valid(backing[offset.start..offset.end]) && Valid(backing[v.start..v.end])
      && Chars(backing[offset.start..offset.end]) == Chars(backing[v.start..v.end]) + [c]
  {
    if offset.start == offset.end then None
    else
      var text := backing[offset.start..offset.end];
      ValidSlice(backing, offset.start, offset.end);
      LastChar(text);
      var cs := Chars(text);
      var m := |text| - LenUtf8(cs[|cs| - 1]);
      PrefixView(backing, offset, m);
      assert backing[offset.start..offset.start + m] == text[..m];
      Some((cs[|cs| - 1], Range(offset.start, offset.start + m)))
  }

  /**
   * `try_split_off` as written: it compares `position` with the absolute end
   * and builds the two views' offsets from `position` without adding the
   * view's start.
   */
  function SplitOffAsWritten(backing: Bytes, offset: Range, position: nat): (r: Option<(Range, Range)>)
    requires offset.Within(|backing|)
    ensures r.Some? ==> r.value.0.end == position && r.value.1.start == position
  {
    if position > offset.end then None
    else if !IsCharBoundary(backing[offset.start..offset.end], position) then None
    else Some((Range(offset.start, position), Range(position, offset.end)))
  }

  /** `"Hello, World!"` as bytes. */
  function HelloWorld(): Bytes {
    [0x48, 0x65, 0x6C, 0x6C, 0x6F, 0x2C, 0x20, 0x57, 0x6F, 0x72, 0x6C, 0x64, 0x21]
  }

  /**
   * Splitting the view `"World!"` (bytes 7..13) at 2, as written, keeps an
   * inverted range `7..2` and hands out `"llo, World!"` instead of `"rld!"`.
   */
  lemma {:induction false} SplitOffCounterexample()
    ensures SplitOffAsWritten(HelloWorld(), Range(7, 13), 2) == Some((Range(7, 2), Range(2, 13)))
    ensures !Range(7, 2).Within(13)
    ensures HelloWorld()[2..13] != HelloWorld()[7..13][2..]
  {
    assert HelloWorld()[7..13][2] == 0x72 != HelloWorld()[2];
  }

  /**
   * `try_split_off` as documented: the view keeps bytes `..position` and the
   * new view gets `position..`, both as absolute offsets; `None` when the
   * position is past the end or inside a character.
   */
  function SplitOff(backing: Bytes, offset: Range, position: nat): (r: Option<(Range, Range)>)
    requires Aligned(backing, offset)
    ensures r.Some? <==> IsCharBoundary(backing[offset.start..offset.end], position)
    ensures r.Some? ==> Aligned(backing, r.value.0) && Aligned(backing, r.value.1)
    ensures r.Some? ==> r.value.0.start == offset.start && r.value.1.end == offset.end
    ensures r.Some? ==> r.value.0.end == r.value.1.start
    ensures r.Some? ==>
      && backing[r.value.0.start..r.value.0.end] == backing[offset.start..offset.end][..position]
      && backing[r.value.1.start..r.value.1.end] == backing[offset.start..offset.end][position..]
  {
    var view := backing[offset.start..offset.end];
    if position > |view| || !IsCharBoundary(view, position) then None
    else
      SliceBoundary(backing, offset.start, offset.end, position);
      NestedSlices(backing, offset.start, offset.start + position, offset.end);
      assert view[position..] == backing[offset.start + position..offset.end];
      Some((Range(offset.start, offset.start + position), Range(offset.start + position, offset.end)))
  }

  /** For a view that starts at the beginning of its buffer, the code as written does what is documented. */
  lemma {:induction false} SplitOffAgreesAtStart(backing: Bytes, offset: Range, position: nat)
    requires Aligned(backing, offset) && offset.start == 0
    ensures SplitOffAsWritten(backing, offset, position) == SplitOff(backing, offset, position)
  {
  }

  /** A prefix of an aligned view that ends at one of its boundaries is an aligned view of the buffer. */
  lemma {:induction false} PrefixView(backing: Bytes, offset: Range, m: nat)
    requires Aligned(backing, offset) && m <= offset.end - offset.start
    requires IsCharBoundary(backing[offset.start..offset.end], m)
    ensures Aligned(backing, Range(offset.start, offset.start + m))
    ensures backing[offset.start..offset.start + m] == backing[offset.start..offset.end][..m]
  {
    SliceBoundary(backing, offset.start, offset.end, m);
  }
}
