/**
 * `ImString`: an immutable-looking string that is a view (`offset`) into a
 * backing buffer held through a storage handle (`Data`). Clones and slices
 * share the buffer when the strategy shares; an operation that changes the
 * text writes the buffer in place only when the handle grants exclusive
 * access, and otherwise forks a fresh buffer (copy on write).
 *
 * Offsets and lengths are bytes; the visible text is always well-formed
 * UTF-8 cut at character boundaries. Where the library's offset arithmetic
 * differs from its documentation (see the `Ranges` module), the view
 * follows the documented behaviour.
 */
module Strings {
  import opened Utf8
  import opened Error
  import opened Wrappers
  import opened Ranges
  import opened Data
  import opened Edits

  class ImString {
    var data: Handle<Bytes>
    var offset: Range

    /** The view invariant: a live handle, a well-formed buffer, and an offset cut at two boundaries of it. */
    ghost predicate Valid()
      reads this, data.alloc
    {
      && data.Valid()
      && Utf8.Valid(data.alloc.value)
      && Aligned(data.alloc.value, offset)
    }

    /** A valid view whose visible bytes are `text`. */
    ghost predicate Shows(text: Bytes)
      reads this, data.alloc
    {
      Valid() && AsBytes() == text
    }

    /** The whole backing buffer (`self.string.get()`). */
    function Backing(): Bytes
      reads this, data.alloc
    {
      data.alloc.value
    }

    /** `as_bytes` / `as_str`: the visible bytes, which are well-formed UTF-8. */
    function AsBytes(): (text: Bytes)
      reads this, data.alloc
      requires Valid()
      ensures Utf8.Valid(text)
      ensures text == Backing()[offset.start..offset.end]
    {
      ValidSlice(Backing(), offset.start, offset.end);
      Backing()[offset.start..offset.end]
    }

    /** The visible characters. */
    function AsStr(): seq<char>
      reads this, data.alloc
      requires Valid()
    {
      Chars(AsBytes())
    }

    /** `len`: the byte length of the visible text. */
    function Len(): (n: nat)
      reads this, data.alloc
      requires Valid()
      ensures n == |AsBytes()|
    {
      offset.end - offset.start
    }

    /** `is_empty`: whether the visible text is empty. */
    function IsEmpty(): (empty: bool)
      reads this, data.alloc
      requires Valid()
      ensures empty <==> AsBytes() == []
      ensures empty <==> AsStr() == []
    {
      offset.start == offset.end
    }

    /** A view of `range` over an existing handle (the struct literal `ImString { string, offset }`). */
    constructor View(h: Handle<Bytes>, range: Range)
      requires h.Valid() && Utf8.Valid(h.Get()) && Aligned(h.Get(), range)
      ensures data == h && offset == range && Valid()
    {
      data := h;
      offset := range;
    }

    /** `from_std_string`: a view of the whole of `s` in a fresh allocation. */
    constructor FromStdString(strategy: Strategy, s: Bytes)
      requires Utf8.Valid(s)
      ensures Valid() && fresh(data) && fresh(data.alloc)
      ensures data.strategy == strategy && data.Exclusive()
      ensures offset == Range(0, |s|) && AsBytes() == s
    {
      data := new Handle.New(strategy, s);
      offset := Range(0, |s|);
      new;
      assert s[0..|s|] == s;
    }

    /** `new`: the empty string. */
    constructor New(strategy: Strategy)
      ensures Valid() && fresh(data) && fresh(data.alloc)
      ensures data.strategy == strategy && AsBytes() == []
    {
      data := new Handle.New(strategy, []);
      offset := Range(0, 0);
    }

    /**
     * `clone`: another view of the same text. A sharing strategy hands out
     * the same allocation; the others copy the buffer.
     */
    method Clone() returns (c: ImString)
      requires Valid()
      modifies data.alloc
      ensures Valid() && Backing() == old(Backing())
      ensures fresh(c) && fresh(c.data) && c.Valid()
      ensures c.offset == offset && c.AsBytes() == AsBytes()
      ensures c.data.strategy == data.strategy
      ensures data.strategy.Shares() ==> c.data.alloc == data.alloc
      ensures !data.strategy.Shares() ==> fresh(c.data.alloc)
      ensures data.alloc.holders == old(data.alloc.holders) + (if data.strategy.Shares() then {c.data} else {})
    {
      var h := data.Clone();
      c := new ImString.View(h, offset);
    }

    /**
     * `slice_unchecked`: a view of the bytes `range` of this view, over the
     * same handle. Its safety contract, an aligned range, is the
     * precondition.
     */
    method SliceUnchecked(range: Range) returns (v: ImString)
      requires Valid() && Aligned(AsBytes(), range)
      modifies data.alloc
      ensures Valid() && Backing() == old(Backing())
      ensures fresh(v) && fresh(v.data) && v.Valid()
      ensures v.offset == Nest(offset, range)
      ensures v.AsBytes() == AsBytes()[range.start..range.end]
      ensures v.data.strategy == data.strategy
      ensures data.strategy.Shares() ==> v.data.alloc == data.alloc
      ensures !data.strategy.Shares() ==> fresh(v.data.alloc)
      ensures data.alloc.holders == old(data.alloc.holders) + (if data.strategy.Shares() then {v.data} else {})
    {
      NestAligned(Backing(), offset, range);
      var h := data.Clone();
      v := new ImString.View(h, Nest(offset, range));
    }

    /**
     * `try_slice`: the view of the bytes the bounds select, relative to this
     * view, or the first check they fail.
     */
    method TrySlice(b: Bounds) returns (r: Result<ImString, SliceError>)
      requires Valid()
      modifies data.alloc
      ensures Valid() && Backing() == old(Backing())
      ensures r.Ok? <==> TrySliceIntended(AsBytes(), b).Ok?
      ensures r.Err? ==> r.error == TrySliceIntended(AsBytes(), b).error && unchanged(data.alloc)
      ensures r.Ok? ==> var range := TrySliceIntended(AsBytes(), b).value;
        && fresh(r.value) && r.value.Valid()
        && r.value.offset == Nest(offset, range)
        && r.value.AsBytes() == AsBytes()[range.start..range.end]
        && (data.strategy.Shares() ==> r.value.data.alloc == data.alloc)
      ensures r.Ok? ==> data.alloc.holders == old(data.alloc.holders) + (if data.strategy.Shares() then {r.value.data} else {})
    {
      var checked := TrySliceIntended(AsBytes(), b);
      if checked.Err? {
        return Err(checked.error);
      }
      var v := SliceUnchecked(checked.value);
      return Ok(v);
    }

    /** `slice`: `try_slice`, panicking on an error. */
    method Slice(b: Bounds) returns (v: ImString)
      requires Valid() && TrySliceIntended(AsBytes(), b).Ok?
      modifies data.alloc
      ensures Valid() && Backing() == old(Backing())
      ensures var range := TrySliceIntended(AsBytes(), b).value;
        && fresh(v) && v.Valid()
        && v.offset == Nest(offset, range)
        && v.AsBytes() == AsBytes()[range.start..range.end]
      ensures fresh(v.data) && v.data.strategy == data.strategy
      ensures if data.strategy.Shares() then v.data.alloc == data.alloc else fresh(v.data.alloc)
      ensures data.alloc.holders == old(data.alloc.holders) + (if data.strategy.Shares() then {v.data} else {})
    {
      v := SliceUnchecked(TrySliceIntended(AsBytes(), b).value);
    }

    /**
     * `try_slice_ref`: the view of a byte slice of this view's buffer, which
     * starts at address `base`; `None` when the slice lies elsewhere or cuts
     * a character.
     */
    method TrySliceRef(base: int, candidate: Region) returns (r: Option<ImString>)
      requires Valid()
      modifies data.alloc
      ensures Valid() && Backing() == old(Backing())
      ensures r.Some? <==> SliceRef(Backing(), base, candidate).Some?
      ensures r.None? ==> unchanged(data.alloc)
      ensures r.Some? ==> var range := SliceRef(Backing(), base, candidate).value;
        && fresh(r.value) && r.value.Valid()
        && r.value.offset == range
        && r.value.AsBytes() == Backing()[range.start..range.end]
        && (data.strategy.Shares() ==> r.value.data.alloc == data.alloc)
      ensures r.Some? ==> data.alloc.holders == old(data.alloc.holders) + (if data.strategy.Shares() then {r.value.data} else {})
      ensures candidate == Region(base + offset.start, Len()) ==> r.Some? && r.value.offset == offset
    {
      var found := SliceRef(Backing(), base, candidate);
      if found.None? {
        return None;
      }
      var h := data.Clone();
      var v := new ImString.View(h, found.value);
      return Some(v);
    }

    /**
     * `try_str_ref`: `try_slice_ref` on the bytes of a `&str`. Those bytes
     * are well-formed, so a non-empty `&str` inside the buffer is found.
     */
    method TryStrRef(base: int, candidate: Region) returns (r: Option<ImString>)
      requires Valid()
      modifies data.alloc
      ensures Valid() && Backing() == old(Backing())
      ensures r.Some? <==> SliceRef(Backing(), base, candidate).Some?
      ensures r.None? ==> unchanged(data.alloc)
      ensures r.Some? ==> var range := SliceRef(Backing(), base, candidate).value;
        && fresh(r.value) && r.value.Valid()
        && r.value.offset == range
        && r.value.AsBytes() == Backing()[range.start..range.end]
        && (data.strategy.Shares() ==> r.value.data.alloc == data.alloc)
      ensures r.Some? ==> data.alloc.holders == old(data.alloc.holders) + (if data.strategy.Shares() then {r.value.data} else {})
      ensures candidate == Region(base + offset.start, Len()) ==> r.Some? && r.value.offset == offset
      ensures StrInside(Backing(), base, candidate) ==> r.Some?
    {
      if StrInside(Backing(), base, candidate) {
        WellFormedSliceFound(Backing(), base, candidate);
      }
      r := TrySliceRef(base, candidate);
    }

    /**
     * `str_ref`: the view of `text`, a `&str` at `candidate`, over this
     * view's buffer when it lies there, and otherwise a new string holding
     * a copy of it. Either way the result reads as `text`.
     */
    method StrRef(base: int, candidate: Region, text: Bytes) returns (v: ImString)
      requires Valid() && Utf8.Valid(text) && |text| == candidate.len
      requires base <= candidate.addr && candidate.End() <= base + |Backing()| ==>
        Backing()[candidate.addr - base..candidate.End() - base] == text
      modifies data.alloc
      ensures Valid() && Backing() == old(Backing())
      ensures fresh(v) && v.Valid() && v.AsBytes() == text
      ensures SliceRef(Backing(), base, candidate).Some? ==> v.offset == SliceRef(Backing(), base, candidate).value
      ensures SliceRef(Backing(), base, candidate).Some? && data.strategy.Shares() ==> v.data.alloc == data.alloc
      ensures SliceRef(Backing(), base, candidate).Some? ==>
        data.alloc.holders == old(data.alloc.holders) + (if data.strategy.Shares() then {v.data} else {})
      ensures SliceRef(Backing(), base, candidate).None? ==> fresh(v.data.alloc) && unchanged(data.alloc)
      ensures 0 < |text| && base <= candidate.addr && candidate.End() <= base + |Backing()| ==>
        SliceRef(Backing(), base, candidate).Some?
    {
      if 0 < |text| && base <= candidate.addr && candidate.End() <= base + |Backing()| {
        WellFormedSliceFound(Backing(), base, candidate);
      }
      SliceRefReads(Backing(), base, candidate, text);
      var r := TrySliceRef(base, candidate);
      if r.Some? {
        v := r.value;
      } else {
        v := new ImString.FromStdString(data.strategy, text);
      }
    }

    /** Whether an edit may write the buffer in place: exclusive access and a view from the buffer's start. */
    ghost predicate InPlace()
      reads this, data.alloc
    {
      data.Exclusive() && offset.start == 0
    }

    /**
     * What an edit leaves of the handle `prev` it started from: written in
     * place, or forked onto a fresh allocation of the same strategy while
     * `prev`'s allocation keeps its value and its other holders.
     */
    twostate predicate CopyOnWrite(prev: Handle<Bytes>, inPlace: bool)
      reads this, prev.alloc
    {
      && (inPlace ==> data == prev)
      && (!inPlace ==>
            && fresh(data) && fresh(data.alloc) && data.strategy == prev.strategy
            && prev.alloc.value == old(prev.alloc.value)
            && prev.alloc.holders == old(prev.alloc.holders) - {prev}
            && (forall h :: h in prev.alloc.holders ==> h.alloc == prev.alloc && h.Valid()))
    }

    /**
     * `unchecked_append`: apply a std `String` edit to the visible text. With
     * exclusive access to a buffer the view starts, the buffer is cut at the
     * view's end and edited in place; otherwise the edited copy of the
     * visible text goes to a fresh handle. Either way the view ends up
     * covering the whole buffer.
     */
    method UncheckedAppend(e: Edit)
      requires Valid() && Allowed(e, AsBytes())
      modifies this, data.alloc
      ensures Valid()
      ensures AsBytes() == Apply(e, old(AsBytes()))
      ensures offset == Range(0, |Backing()|)
      ensures CopyOnWrite(old(data), old(InPlace()))
    {
      var granted := data.GetMut();
      if granted && offset.start == 0 {
        AppendInPlace(e);
      } else {
        AppendForked(e);
      }
    }

    /** The in-place half of `unchecked_append`: cut the buffer at the view's end and edit it. */
    method AppendInPlace(e: Edit)
      requires Valid() && Allowed(e, AsBytes()) && data.Exclusive() && offset.start == 0
      modifies this, data.alloc
      ensures Valid() && data == old(data)
      ensures AsBytes() == Apply(e, old(AsBytes()))
      ensures offset == Range(0, |Backing()|)
    {
      var kept := Backing()[..offset.end];
      assert kept == AsBytes();
      var edited := Apply(e, kept);
      data.Write(edited);
      offset := Range(0, |edited|);
      assert Backing() == edited;
      assert edited[0..|edited|] == edited;
    }

    /** The copying half of `unchecked_append`: the edited text goes to a fresh handle, and the old one is dropped. */
    method AppendForked(e: Edit)
      requires Valid() && Allowed(e, AsBytes())
      modifies this, data.alloc
      ensures Valid()
      ensures AsBytes() == Apply(e, old(AsBytes()))
      ensures offset == Range(0, |Backing()|)
      ensures CopyOnWrite(old(data), false)
    {
      var edited := Apply(e, AsBytes());
      var previous := data;
      var fork := new Handle.New(previous.strategy, edited);
      previous.Drop();
      data := fork;
      offset := Range(0, |edited|);
      assert edited[0..|edited|] == edited;
    }

    /** `push`: append one character. */
    method Push(c: char)
      requires Valid()
      modifies this, data.alloc
      ensures Valid() && CopyOnWrite(old(data), old(InPlace()))
      ensures AsBytes() == old(AsBytes()) + Encode(c)
      ensures AsStr() == old(AsStr()) + [c]
      ensures Len() == old(Len()) + LenUtf8(c)
    {
      ghost var before := AsBytes();
      UncheckedAppend(Edits.Push(c));
      AppendChars(Edits.Push(c), before);
      assert before[..|before|] == before && before[|before|..] == [];
    }

    /** `push_str`: append a string. */
    method PushStr(t: Bytes)
      requires Valid() && Utf8.Valid(t)
      modifies this, data.alloc
      ensures Valid() && CopyOnWrite(old(data), old(InPlace()))
      ensures AsBytes() == old(AsBytes()) + t
      ensures AsStr() == old(AsStr()) + Chars(t)
      ensures Len() == old(Len()) + |t|
    {
      ghost var before := AsBytes();
      UncheckedAppend(Edits.PushStr(t));
      assert before[..|before|] == before && before[|before|..] == [];
      ValidConcat(before, t);
    }

    /** `insert`: insert one character at a byte index, which must be a character boundary. */
    method Insert(index: nat, c: char)
      requires Valid() && IsCharBoundary(AsBytes(), index)
      modifies this, data.alloc
      ensures Valid() && CopyOnWrite(old(data), old(InPlace()))
      ensures AsBytes() == old(AsBytes())[..index] + Encode(c) + old(AsBytes())[index..]
      ensures AsStr() == CharsBefore(old(AsBytes()), index) + [c] + CharsAfter(old(AsBytes()), index)
    {
      ghost var before := AsBytes();
      UncheckedAppend(Edits.Insert(index, c));
      ApplyChars(Edits.Insert(index, c), before);
      PieceChars(Edits.Insert(index, c));
    }

    /** `insert_str`: insert a string at a byte index, which must be a character boundary. */
    method InsertStr(index: nat, t: Bytes)
      requires Valid() && IsCharBoundary(AsBytes(), index) && Utf8.Valid(t)
      modifies this, data.alloc
      ensures Valid() && CopyOnWrite(old(data), old(InPlace()))
      ensures AsBytes() == old(AsBytes())[..index] + t + old(AsBytes())[index..]
      ensures AsStr() == CharsBefore(old(AsBytes()), index) + Chars(t) + CharsAfter(old(AsBytes()), index)
      ensures index == 0 ==> AsBytes() == t + old(AsBytes())
      ensures index == old(Len()) ==> AsBytes() == old(AsBytes()) + t
    {
      ghost var before := AsBytes();
      UncheckedAppend(Edits.InsertStr(index, t));
      ApplyChars(Edits.InsertStr(index, t), before);
      InsertStrAtEnds(before, t);
    }

    /** `Extend<char>` (and `Extend<&char>`): append every character of `cs`. */
    method Extend(cs: seq<char>)
      requires Valid()
      modifies this, data.alloc
      ensures Valid() && CopyOnWrite(old(data), old(InPlace()))
      ensures AsBytes() == old(AsBytes()) + EncodeAll(cs)
      ensures AsStr() == old(AsStr()) + cs
    {
      ghost var before := AsBytes();
      UncheckedAppend(ExtendChars(cs));
      AppendChars(ExtendChars(cs), before);
      assert before[..|before|] == before && before[|before|..] == [];
    }

    /** `Extend<&str>`: append every string of `ss`. */
    method ExtendStr(ss: seq<Bytes>)
      requires Valid() && forall k :: 0 <= k < |ss| ==> Utf8.Valid(ss[k])
      modifies this, data.alloc
      ensures Valid() && CopyOnWrite(old(data), old(InPlace()))
      ensures AsBytes() == old(AsBytes()) + Join(ss)
    {
      ghost var before := AsBytes();
      UncheckedAppend(ExtendStrs(ss));
      assert before[..|before|] == before && before[|before|..] == [];
    }

    /**
     * `truncate`: keep the first `n` bytes of the view, or all of it when
     * `n` is not smaller than its length. An exclusively held buffer is cut
     * at the new end when the view shrinks; otherwise the buffer is left
     * alone. Cutting inside a character panics, so that is excluded.
     */
    method Truncate(n: nat)
      requires Valid() && (n >= Len() || IsCharBoundary(AsBytes(), n))
      modifies this, data.alloc
      ensures Valid() && data == old(data)
      ensures AsBytes() == old(AsBytes())[..Min(n, old(Len()))]
      ensures n >= old(Len()) ==> AsBytes() == old(AsBytes())
      ensures offset == Range(old(offset.start), Min(old(offset.end), old(offset.start) + n))
      ensures old(data.Exclusive()) && n < old(Len()) ==> Backing() == old(Backing())[..offset.end]
      ensures !old(data.Exclusive()) || n >= old(Len()) ==> Backing() == old(Backing())
      ensures data.alloc.holders == old(data.alloc.holders)
    {
      var granted := data.GetMut();
      var t := Ranges.Truncate(Backing(), offset, granted, n);
      if granted {
        data.Write(t.backing);
      }
      offset := t.offset;
    }

    /** `clear`: empty the view; an exclusively held buffer is emptied too. */
    method Clear()
      requires Valid()
      modifies this, data.alloc
      ensures Valid() && data == old(data)
      ensures offset == Range(0, 0) && AsBytes() == []
      ensures old(data.Exclusive()) ==> Backing() == []
      ensures !old(data.Exclusive()) ==> Backing() == old(Backing())
      ensures data.alloc.holders == old(data.alloc.holders)
    {
      var granted := data.GetMut();
      if granted {
        data.Write([]);
      }
      offset := Range(0, 0);
    }

    /**
     * `pop`: remove the last character and return it, moving the end of the
     * view back by its encoded length; `None` on an empty view. The buffer
     * is not touched.
     */
    method Pop() returns (c: Option<char>)
      requires Valid()
      modifies this
      ensures Valid() && data == old(data) && offset.start == old(offset.start)
      ensures Backing() == old(Backing())
      ensures old(AsBytes()) == [] <==> c.None?
      ensures c.None? ==> offset == old(offset)
      ensures c.Some? ==> old(AsStr()) == AsStr() + [c.value]
      ensures c.Some? ==> old(AsBytes()) == AsBytes() + Encode(c.value)
      ensures c.Some? ==> offset.end == old(offset.end) - LenUtf8(c.value)
    {
      var p := PopView(Backing(), offset);
      if p.None? {
        return None;
      }
      offset := p.value.1;
      return Some(p.value.0);
    }

    /**
     * `try_split_off`: keep the bytes before `position` and return a view of
     * the rest, over the same handle; `None` when `position` is past the end
     * or inside a character.
     */
    method TrySplitOff(position: nat) returns (r: Option<ImString>)
      requires Valid()
      modifies this, data.alloc
      ensures Valid() && data == old(data) && Backing() == old(Backing())
      ensures r.Some? <==> IsCharBoundary(old(AsBytes()), position)
      ensures r.None? ==> offset == old(offset) && unchanged(data.alloc)
      ensures r.Some? ==>
        && fresh(r.value) && r.value.Valid()
        && AsBytes() == old(AsBytes())[..position]
        && r.value.AsBytes() == old(AsBytes())[position..]
        && AsBytes() + r.value.AsBytes() == old(AsBytes())
        && (data.strategy.Shares() ==> r.value.data.alloc == data.alloc)
      ensures r.Some? ==> data.alloc.holders == old(data.alloc.holders) + (if data.strategy.Shares() then {r.value.data} else {})
    {
      var pieces := Ranges.SplitOff(Backing(), offset, position);
      if pieces.None? {
        return None;
      }
      var h := data.Clone();
      var rest := new ImString.View(h, pieces.value.1);
      offset := pieces.value.0;
      TakeDrop(old(AsBytes()), position);
      return Some(rest);
    }

    /** `split_off`: `try_split_off`, panicking on an invalid position. */
    method SplitOff(position: nat) returns (rest: ImString)
      requires Valid() && IsCharBoundary(AsBytes(), position)
      modifies this, data.alloc
      ensures Valid() && data == old(data) && Backing() == old(Backing())
      ensures fresh(rest) && rest.Valid()
      ensures AsBytes() == old(AsBytes())[..position]
      ensures rest.AsBytes() == old(AsBytes())[position..]
      ensures data.strategy.Shares() ==> rest.data.alloc == data.alloc
      ensures data.alloc.holders == old(data.alloc.holders) + (if data.strategy.Shares() then {rest.data} else {})
    {
      var r := TrySplitOff(position);
      rest := r.value;
    }

    /**
     * `into_std_string`: the visible text as an owned string. A view from the
     * buffer's start with exclusive access hands over the buffer itself, cut
     * at the view's end (the handle is left holding an empty string);
     * otherwise the visible text is copied. The view is consumed.
     */
    method IntoStdString() returns (s: Bytes)
      requires Valid()
      modifies data.alloc
      ensures s == old(AsBytes())
      ensures old(InPlace()) ==> data.alloc.value == []
      ensures !old(InPlace()) ==> data.alloc.value == old(Backing())
      ensures data.alloc.holders == old(data.alloc.holders) - {data}
      ensures data.alloc.strong == old(data.alloc.strong) - 1
      ensures forall h :: h in data.alloc.holders ==> h.Valid()
    {
      if offset.start == 0 {
        var granted := data.GetMut();
        if granted {
          s := Backing()[..offset.end];
          data.Write([]);
          data.Drop();
          return;
        }
      }
      s := AsBytes();
      data.Drop();
    }

    /**
     * `try_set_offset`: point the view at other bytes of the buffer. The
     * offsets are absolute, an unbounded end stands for the current view's
     * length, and both ends must be boundaries of the whole buffer.
     */
    method TrySetOffset(b: Bounds) returns (r: Result<(), SliceError>)
      requires Valid()
      modifies this
      ensures Valid() && data == old(data)
      ensures var range := Range(StartOf(b.lo), EndOfIntended(b.hi, old(Len())));
        && (r.Ok? <==> Aligned(Backing(), range))
        && (r.Ok? ==> offset == range && AsBytes() == Backing()[range.start..range.end])
        && (r.Err? ==> r.error == CheckOffset(Backing(), range.start, range.end).error && offset == old(offset))
    {
      var checked := CheckOffset(Backing(), StartOf(b.lo), EndOfIntended(b.hi, Len()));
      if checked.Err? {
        return Err(checked.error);
      }
      offset := checked.value;
      return Ok(());
    }

    /**
     * `as_mut_str`, the decision it makes before lending the text out for
     * writing: without write access to the buffer it first moves the
     * visible text into a fresh handle. Afterwards the view's buffer is
     * exclusively held, and the returned range is the writable view.
     */
    method AsMutStr() returns (writable: Range)
      requires Valid()
      modifies this, data.alloc
      ensures Valid() && data.Exclusive()
      ensures writable == offset && AsBytes() == old(AsBytes())
      ensures old(data.Exclusive()) ==> data == old(data) && offset == old(offset)
      ensures CopyOnWrite(old(data), old(data.Exclusive()))
    {
      var granted := data.GetMut();
      if !granted {
        var text := AsBytes();
        var previous := data;
        data := new Handle.New(previous.strategy, text);
        previous.Drop();
        offset := Range(0, |text|);
        assert text[0..|text|] == text;
      }
      writable := offset;
    }

    /**
     * The iterators' step, `self.string = self.string.slice(c.len_utf8()..)`
     * for the first character `c`: the view past `c` replaces this one,
     * which is dropped.
     */
    method Advance(ghost text: Bytes) returns (c: char, next: ImString)
      requires Valid() && text == AsBytes() && text != []
      modifies data.alloc
      ensures fresh(next) && next.Valid()
      ensures c == Chars(text)[0]
      ensures next.AsBytes() == text[LenUtf8(c)..]
      ensures next.AsStr() == Chars(text)[1..]
      ensures StepReleases(this, next)
    {
      c, next := SkipFirst(text);
      ghost var buf, sliced := next.Backing(), data.alloc.holders;
      Drop();
      assert data.alloc.holders == sliced - {data};
      assert next.data.Valid() && next.Backing() == buf;
    }

    /** The slicing half of `Advance`: the view past the first character, next to this one. */
    method SkipFirst(ghost text: Bytes) returns (c: char, next: ImString)
      requires Valid() && text == AsBytes() && text != []
      modifies data.alloc
      ensures Valid() && Backing() == old(Backing())
      ensures fresh(next) && fresh(next.data) && next.Valid() && next.data != data
      ensures c == Chars(text)[0]
      ensures next.AsBytes() == text[LenUtf8(c)..]
      ensures next.AsStr() == Chars(text)[1..]
      ensures if data.strategy.Shares() then next.data.alloc == data.alloc else fresh(next.data.alloc)
      ensures data.alloc.holders == old(data.alloc.holders) + (if data.strategy.Shares() then {next.data} else {})
    {
      c := Chars(AsBytes())[0];
      var n := LenUtf8(c);
      Ranges.SlicePastFirst(text);
      next := Slice(Bounds(Included(n), Unbounded));
      assert next.AsBytes() == text[n..];
    }

    /** Dropping a view releases its handle. */
    method Drop()
      requires Valid()
      modifies data.alloc
      ensures data.alloc.holders == old(data.alloc.holders) - {data}
      ensures data.alloc.strong == |data.alloc.holders|
      ensures data.alloc.value == old(data.alloc.value)
      ensures forall h :: h in data.alloc.holders ==> h.Valid()
    {
      data.Drop();
    }
  }

  /**
   * What an iterator step leaves of the allocation the dropped view `prev`
   * held: its value, a fresh handle for the view `next` in place of
   * `prev`'s when the strategy shares, and a count that matches the
   * remaining holders, so those that were live stay live (`FellowHolderValid`).
   */
  twostate predicate StepReleases(prev: ImString, new next: ImString)
    reads prev, next, prev.data.alloc
  {
    && fresh(next.data)
    && (if prev.data.strategy.Shares() then next.data.alloc == prev.data.alloc else fresh(next.data.alloc))
    && prev.data.alloc.value == old(prev.data.alloc.value)
    && prev.data.alloc.holders == old(prev.data.alloc.holders) - {prev.data}
         + (if prev.data.strategy.Shares() then {next.data} else {})
    && prev.data.alloc.strong == |prev.data.alloc.holders|
  }

  /**
   * `Chars`: the characters of a view, read from a clone of it that is
   * re-sliced past one character at each step.
   */
  class CharsIter {
    var rest: ImString
    /** The characters handed out so far. */
    ghost var yielded: seq<char>
    /** The characters of the view the iterator was made from. */
    ghost const all: seq<char>

    ghost predicate Valid()
      reads this, rest, rest.data.alloc
    {
      rest.Valid() && all == yielded + rest.AsStr()
    }

    /** `ImString::chars`: iterate over a clone of `s`. */
    constructor (s: ImString)
      requires s.Valid()
      modifies s.data.alloc
      ensures s.Valid() && s.Backing() == old(s.Backing())
      ensures Valid() && fresh(rest) && fresh(rest.data) && yielded == [] && all == s.AsStr()
      ensures if s.data.strategy.Shares() then rest.data.alloc == s.data.alloc else fresh(rest.data.alloc)
      ensures s.data.alloc.holders == old(s.data.alloc.holders) + (if s.data.strategy.Shares() then {rest.data} else {})
    {
      var c := s.Clone();
      rest := c;
      yielded := [];
      all := c.AsStr();
    }

    /** `Chars::next`: the next character, or `None` once the view is used up. */
    method Next() returns (c: Option<char>)
      requires Valid()
      modifies this, rest.data.alloc
      ensures Valid()
      ensures old(rest.AsStr()) == [] <==> c.None?
      ensures c.None? ==> yielded == old(yielded) && rest.AsStr() == []
      ensures c.Some? ==> c.value == old(rest.AsStr())[0] && yielded == old(yielded) + [c.value]
      ensures c.Some? ==> rest.AsStr() == old(rest.AsStr())[1..]
      ensures |rest.AsBytes()| <= |old(rest.AsBytes())|
      ensures c.Some? ==> |rest.AsBytes()| < |old(rest.AsBytes())|
      ensures c.None? ==> rest == old(rest) && unchanged(rest.data.alloc)
      ensures c.Some? ==> StepReleases(old(rest), rest)
    {
      if rest.IsEmpty() {
        return None;
      }
      var r := rest;
      ghost var text, y := r.AsBytes(), yielded;
      var first, next := r.Advance(text);
      MoveHead(y, Chars(text));
      rest, yielded := next, y + [first];
      return Some(first);
    }

    /** `Iterator::collect`: drain the iterator, keeping the characters in order. */
    method Collect() returns (cs: seq<char>)
      requires Valid()
      modifies this, rest.data.alloc
      ensures Valid() && cs == old(rest.AsStr()) && yielded == all
      decreases |all| - |yielded|
    {
      var c := Next();
      if c.None? {
        return [];
      }
      var tail := Collect();
      cs := [c.value] + tail;
    }
  }

  /**
   * `CharIndices`: the characters of a view with the byte index of each,
   * read like `Chars` while counting the bytes passed over.
   */
  class CharIndicesIter {
    var rest: ImString
    var offset: nat
    /** The bytes of the view the iterator was made from. */
    ghost const source: Bytes

    ghost predicate Valid()
      reads this, rest, rest.data.alloc
    {
      && Utf8.Valid(source) && offset <= |source| && IsCharBoundary(source, offset)
      && rest.Shows(source[offset..])
    }

    /** `ImString::char_indices`: iterate over a clone of `s`, from index 0. */
    constructor (s: ImString)
      requires s.Valid()
      modifies s.data.alloc
      ensures s.Valid() && s.Backing() == old(s.Backing())
      ensures Valid() && fresh(rest) && fresh(rest.data) && offset == 0 && source == s.AsBytes()
      ensures if s.data.strategy.Shares() then rest.data.alloc == s.data.alloc else fresh(rest.data.alloc)
      ensures s.data.alloc.holders == old(s.data.alloc.holders) + (if s.data.strategy.Shares() then {rest.data} else {})
    {
      var c := s.Clone();
      rest := c;
      offset := 0;
      source := c.AsBytes();
    }

    /**
     * `CharIndices::next`: the next character and the index where it
     * starts in the original view, or `None` at the end.
     */
    method Next() returns (item: Option<(nat, char)>)
      requires Valid()
      modifies this, rest.data.alloc
      ensures Valid()
      ensures rest.data.alloc == old(rest.data.alloc) || fresh(rest.data.alloc)
      ensures item.None? <==> old(offset) == |source|
      ensures item.None? ==> offset == old(offset)
      ensures item.Some? ==>
        && item.value.0 == old(offset) < |source|
        && IsCharBoundary(source, item.value.0)
        && item.value.1 == Chars(source[item.value.0..])[0]
        && offset == item.value.0 + LenUtf8(item.value.1)
      ensures item.None? ==> rest == old(rest) && unchanged(rest.data.alloc)
      ensures item.Some? ==> StepReleases(old(rest), rest)
    {
      if rest.IsEmpty() {
        return None;
      }
      var at, c := Step();
      return Some((at, c));
    }

    /** The `Some` arm of `next`: read the first character and slice past it. */
    method Step() returns (at: nat, c: char)
      requires Valid() && offset < |source|
      modifies this, rest.data.alloc
      ensures Valid()
      ensures at == old(offset) && IsCharBoundary(source, at)
      ensures c == Chars(source[at..])[0] && offset == at + LenUtf8(c)
      ensures StepReleases(old(rest), rest)
    {
      at := offset;
      var next;
      c, next := rest.Advance(source[at..]);
      StepPast(source, at, c);
      rest, offset := next, at + LenUtf8(c);
    }
  }

  /** `s.chars().collect()`: every character of the view, in order. */
  method CollectChars(s: ImString) returns (cs: seq<char>)
    requires s.Valid()
    modifies s.data.alloc
    ensures cs == old(s.AsStr())
  {
    var it := new CharsIter(s);
    cs := it.Collect();
  }

  /**
   * Taking a character from `chars` drops only the view it slices past:
   * every other live view, on the same buffer or not, stays valid with
   * its text unchanged.
   */
  method CharsNextKeepsOthers(it: CharsIter, other: ImString) returns (c: Option<char>)
    requires it.Valid() && other.Valid() && other.data != it.rest.data
    modifies it, it.rest.data.alloc
    ensures it.Valid() && (c.None? <==> old(it.rest.AsStr()) == [])
    ensures c.Some? ==> c.value == old(it.rest.AsStr())[0] && it.rest.AsStr() == old(it.rest.AsStr())[1..]
    ensures other.Valid() && other.AsBytes() == old(other.AsBytes())
  {
    ghost var prev := it.rest;
    c := it.Next();
    if c.Some? && other.data.alloc == prev.data.alloc {
      FellowHolderValid(it.rest.data, other.data);
    }
  }

  /** As `CharsNextKeepsOthers`, for `char_indices`. */
  method CharIndicesNextKeepsOthers(it: CharIndicesIter, other: ImString) returns (item: Option<(nat, char)>)
    requires it.Valid() && other.Valid() && other.data != it.rest.data
    modifies it, it.rest.data.alloc
    ensures it.Valid() && (item.None? <==> old(it.offset) == |it.source|)
    ensures item.Some? ==> item.value == (old(it.offset), Chars(it.source[old(it.offset)..])[0])
    ensures other.Valid() && other.AsBytes() == old(other.AsBytes())
  {
    ghost var prev := it.rest;
    item := it.Next();
    if item.Some? && other.data.alloc == prev.data.alloc {
      FellowHolderValid(it.rest.data, other.data);
    }
  }

  /**
   * Truncating a view leaves every other live view valid with its text
   * unchanged, whatever the strategy: a buffer it shares is not exclusive,
   * so it is only re-pointed, and one it holds alone is nobody else's.
   */
  method TruncateKeepsOthers(v: ImString, other: ImString, n: nat)
    requires v.Valid() && (n >= v.Len() || IsCharBoundary(v.AsBytes(), n))
    requires other.Valid() && other.data != v.data
    modifies v, v.data.alloc
    ensures v.Valid() && v.data == old(v.data) && v.AsBytes() == old(v.AsBytes())[..Min(n, old(v.Len()))]
    ensures other.Valid() && other.AsBytes() == old(other.AsBytes())
  {
    if other.data.alloc == v.data.alloc {
      SharedNotExclusive(v.data, other.data);
    }
    v.Truncate(n);
    if other.data.alloc == v.data.alloc {
      FellowHolderValid(v.data, other.data);
    }
  }

  /** As `TruncateKeepsOthers`, for `clear`. */
  method ClearKeepsOthers(v: ImString, other: ImString)
    requires v.Valid() && other.Valid() && other.data != v.data
    modifies v, v.data.alloc
    ensures v.Valid() && v.data == old(v.data) && v.AsBytes() == []
    ensures other.Valid() && other.AsBytes() == old(other.AsBytes())
  {
    if other.data.alloc == v.data.alloc {
      SharedNotExclusive(v.data, other.data);
    }
    v.Clear();
    if other.data.alloc == v.data.alloc {
      FellowHolderValid(v.data, other.data);
    }
  }

  /** A clone keeps its text while the view it was cloned from is truncated and then cleared. */
  method CutAfterClone(strategy: Strategy, s: Bytes, n: nat) returns (truncated: Bytes, copy: Bytes)
    requires Utf8.Valid(s) && (n >= |s| || IsCharBoundary(s, n))
    ensures truncated == s[..Min(n, |s|)] && copy == s
  {
    var a := new ImString.FromStdString(strategy, s);
    var b := a.Clone();
    assert a.AsBytes() == s && b.AsBytes() == s;
    TruncateKeepsOthers(a, b, n);
    truncated := a.AsBytes();
    ClearKeepsOthers(a, b);
    copy := b.AsBytes();
  }

  /**
   * Popping a view until it is empty hands out its characters last to
   * first, as popping the collected characters does.
   */
  method PopAll(s: ImString) returns (popped: seq<char>)
    requires s.Valid()
    modifies s
    ensures s.Valid() && s.AsBytes() == []
    ensures |popped| == |old(s.AsStr())|
    ensures forall k :: 0 <= k < |popped| ==> popped[k] == old(s.AsStr())[|popped| - 1 - k]
  {
    ghost var all := s.AsStr();
    ghost var rest := all;
    popped := [];
    while !s.IsEmpty()
      invariant s.Valid() && s.AsStr() == rest
      invariant |rest| + |popped| == |all| && rest == all[..|rest|]
      invariant forall k :: 0 <= k < |popped| ==> popped[k] == all[|all| - 1 - k]
      decreases |rest|
    {
      var c := s.Pop();
      ghost var after := s.AsStr();
      PopLastStep(all, rest, after, c.value, popped);
      rest := after;
      popped := popped + [c.value];
    }
  }

  /**
   * A clone does not see a later edit of the original, whatever the
   * strategy: a shared buffer is forked, an unshared one was copied.
   */
  method EditAfterClone(strategy: Strategy, s: Bytes, t: Bytes) returns (original: Bytes, copy: Bytes)
    requires Utf8.Valid(s) && Utf8.Valid(t)
    ensures original == s + t && copy == s
  {
    var a := new ImString.FromStdString(strategy, s);
    var b := a.Clone();
    if strategy.Shares() {
      SharedNotExclusive(a.data, b.data);
    }
    a.PushStr(t);
    original, copy := a.AsBytes(), b.AsBytes();
  }

  /** `from_std_string` followed by `into_std_string` gives the string back. */
  method StdStringRoundTrip(strategy: Strategy, s: Bytes) returns (t: Bytes)
    requires Utf8.Valid(s)
    ensures t == s
  {
    var v := new ImString.FromStdString(strategy, s);
    t := v.IntoStdString();
  }
}
