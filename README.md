# imstr in Dafny

A model of the core of `imstr`, a Rust crate that provides `ImString`: a cheaply
cloneable string that is a byte range (`offset`) into a backing `String`, held
through a storage handle (`Data`). Clones and slices share the buffer when the
storage is reference counted (`Arc`, `Rc`). Operations that change the text
write the buffer in place only when the handle grants exclusive access and the
view starts at the buffer's start. Otherwise they fork a fresh buffer (copy on
write).

The project has these modules:

- `Utf8` (`utf8.dfy`): bytes, character boundaries and well-formed UTF-8 as in
  sections 3 and 4 of RFC 3629, the encoding of one `char`, decoding into
  characters, and the round-trip and splitting lemmas the rest relies on.
- `Error` (`error.dfy`): `SliceError` and its `Display` messages.
- `Ranges` (`ranges.dfy`): the offset arithmetic of the string view, as pure
  functions. It covers the resolution of `RangeBounds`, the checks of
  `try_slice` and `try_set_offset`, pointer-range reconciliation
  (`try_slice_offset`), `truncate` and `try_split_off`. Where the code differs
  from its documented behaviour, it holds both versions (see Findings).
- `Data` (`data.dfy`): the `Data<T>` storage handles as classes. Each
  allocation has a strong count and a ghost set of the handles holding it.
- `Edits` (`edit.dfy`): the std `String` edits (`push`, `push_str`, `insert`,
  `insert_str`, `Extend`) that the view hands to `unchecked_append`.
- `Strings` (`string.dfy`): `ImString` as a class over a handle and an offset,
  plus the `Chars` and `CharIndices` iterators.
- `Nom` (`nom.dfy`): the nom input-trait implementations.
- `Peg` (`peg.dfy`): the rust-peg input-trait implementations.

The view invariant (`Strings.ImString.Valid`) has three parts: a live handle,
a well-formed buffer, and an offset cut at two character boundaries of the
buffer. Every operation keeps it.

## Model

| member | source | states |
|---|---|---|
| Utf8.EncodeAllRoundTrip | src/string.rs:1455-1461 | encoding any sequence of characters gives well-formed UTF-8 that decodes back to the same characters |
| Utf8.CharsRoundTrip | src/string.rs:270-273 | re-encoding the characters of well-formed text gives back the same bytes |
| Utf8.ValidConcat | src/string.rs:415-429 | two well-formed texts concatenate to a well-formed text whose characters are the two runs in order |
| Utf8.ValidSplit | src/string.rs:628-630 | cutting well-formed text at a character boundary leaves two well-formed texts whose characters split the original's |
| Utf8.FirstChar | src/string.rs:1328-1339 | the first character of non-empty text is encoded by its first `len_utf8` bytes, which end at a boundary; the rest decodes to the remaining characters |
| Utf8.LastChar | src/string.rs:536-540 | the last character is encoded by the trailing `len_utf8` bytes, which start at a boundary; the text before them decodes to all but the last character |
| Utf8.CharStartSplit | src/nom.rs:178-190 | the byte start of character k is a boundary, and the text splits there into the first k characters and the rest |
| Utf8.ValidPrefixRest | src/peg.rs:50-57 | when well-formed text starts with a well-formed piece, the rest is well-formed and starts at a boundary |
| Error.Display | src/error.rs:20-30 | every variant has a non-empty message |
| Error.DisplayNamesOffset | src/error.rs:23-27 | a message begins with "start offset" exactly for the variants that blame the start, and with "end offset" for the others |
| Error.DisplayGroupsBounds | src/error.rs:23-25 | a message ends with "out of bounds" exactly for the two out-of-bounds variants |
| Error.DisplayGroupsAlignment | src/error.rs:24-26 | a message ends with "in multibyte UTF-8 sequence" exactly for the two alignment variants |
| Error.DisplayInjective | src/error.rs:11-30 | distinct variants have distinct messages |
| Ranges.StartOf | src/string.rs:656-660 | an included start is itself, an excluded one is one more (wrapping at `usize::MAX`), and an unbounded one is 0 |
| Ranges.EndOf | src/string.rs:662-666 | as written: an inclusive end `v` resolves to `v - 1` (wrapping for 0), an excluded end to `v`, and an unbounded end to the length |
| Ranges.EndOfIntended | src/string.rs:662-666 | an inclusive end resolves to one past it; the other bounds resolve as written |
| Ranges.CheckSlice | src/string.rs:667-679 | success exactly when both offsets are in range and at boundaries; each error variant is reported exactly under its condition, checked in source order |
| Ranges.TrySlice | src/string.rs:652-680 | as written: an accepted range is aligned and is the resolved pair of bounds |
| Ranges.TrySliceIntended | src/string.rs:652-680 | an accepted range is aligned; for any end that is not inclusive, it agrees with the code as written |
| Ranges.InclusiveEndCounterexample | src/string.rs:662-666 | as written, `0..=1` on "hello" selects nothing, and `0..=0` is out of bounds |
| Ranges.InclusiveEndIntended | src/string.rs:662-666 | with the intended resolution, `a..=v` selects bytes `a` through `v` |
| Ranges.TrySlicePrefix | src/string.rs:1834-1848 | slicing up to `end` gives the prefix at a boundary, `EndNotAligned` inside a character, and `EndOutOfBounds` past the end |
| Ranges.TrySliceSuffix | src/string.rs:1850-1862 | slicing from `start` gives the suffix at a boundary, `StartNotAligned` inside a character, and `StartOutOfBounds` past the end |
| Ranges.NestAligned | src/string.rs:703-719 | a range relative to an aligned view, shifted by the view's start, is an aligned range of the buffer holding the same bytes |
| Ranges.CheckOffset | src/string.rs:963-986 | `try_set_offset` succeeds exactly when both absolute offsets are boundaries of the buffer; otherwise `EndBeforeStart`, then `StartNotAligned`, then `EndNotAligned`, each exactly under its condition; it never reports out of bounds |
| Ranges.SliceOffset | src/string.rs:83-94 | the offsets exist exactly when the candidate region lies inside the current one, and they locate the candidate |
| Ranges.SliceRefCounterexample | src/string.rs:789-794 | as written, a region ending inside a two-byte character is accepted with an offset that is not a boundary |
| Ranges.SliceRef | src/string.rs:789-794 | a region of the buffer is accepted exactly when it lies inside it at two boundaries |
| Ranges.WellFormedSliceFound | src/string.rs:740-742 | a non-empty, well-formed slice lying inside a well-formed buffer, as the bytes of a `&str` are, is always accepted, at the offsets it occupies |
| Ranges.TruncateAsWritten | src/string.rs:509-519 | as written: the view end becomes `min(end, start + n)`; an exclusively held buffer is cut at `start + n` with `String::truncate`, which panics inside a character and does nothing past the length; a shared buffer is untouched |
| Ranges.TruncateSharedCounterexample | src/string.rs:509-519 | as written, truncating a shared view in the middle of a character leaves a view that is not aligned |
| Ranges.TruncatePastEndCounterexample | src/string.rs:509-519 | as written, truncating an exclusively held view past a later character's middle panics, although `n` exceeds the view's length |
| Ranges.Truncate | src/string.rs:486-519 | the view keeps its first `min(n, len)` bytes and stays aligned; when it shrinks, an exclusively held buffer is cut at the new end; when `n` is at least the length nothing changes; a shared buffer is never touched |
| Ranges.TruncateAgrees | src/string.rs:509-519 | the documented `truncate` and the code as written agree on a shared buffer, and on an exclusively held one whenever `n` is shorter than the view |
| Ranges.PopView | src/string.rs:536-540 | `None` exactly for an empty view; otherwise the last character and the view without it, still aligned, whose bytes followed by the character's encoding are the old bytes and whose characters followed by it are the old characters |
| Ranges.SplitOffAsWritten | src/string.rs:836-852 | as written: the position is added to neither offset |
| Ranges.SplitOffCounterexample | src/string.rs:836-852 | as written, splitting a view that starts at 7 yields ranges that are not relative to the view at all |
| Ranges.SplitOff | src/string.rs:836-852 | the pieces exist exactly when the position is a boundary of the view; they are the view's bytes before and after it, as aligned absolute ranges |
| Ranges.SplitOffAgreesAtStart | src/string.rs:836-852 | for a view that starts at the buffer's start, the code as written and the corrected split agree |
| Data.Handle.New | src/data.rs:112-115 | a new handle holds a fresh allocation with the value and is its only holder |
| Data.Handle.Share | src/data.rs:112-138 | a reference-counted clone joins the holders of the same allocation, and the count rises by one |
| Data.Handle.GetMut | src/data.rs:112-169 | access is granted always for `Box` and `Cloned`, and for `Arc` and `Rc` exactly when the strong count is 1; granted exactly when no other handle holds the allocation |
| Data.Handle.Write | src/data.rs:176-179 | a granted write is seen by the next `get` |
| Data.Handle.Clone | src/data.rs:154-156 | a clone reads the same value; sharing strategies share the allocation, and the others copy it into a fresh one |
| Data.Handle.Drop | src/data.rs:112-138 | dropping leaves the value alone, lowers the count by one to the number of remaining holders, removes the handle from the holders, and leaves every remaining holder live |
| Data.SharedNotExclusive | src/data.rs:76-78 | two live handles on one allocation make the count at least 2, and neither may write |
| Data.FellowHolderValid | src/data.rs:112-138 | every holder of a live handle's allocation is live, on the same allocation and with the same strategy |
| Data.NewWriteClone | src/data.rs:173-194 | for every strategy, a new handle grants a write, and the written value is what both it and a later clone read |
| Edits.Apply | src/string.rs:415-429 | the result is the text with the piece at the index: the bytes before it, the piece, then the bytes after it; it is well-formed, with boundaries on both sides of the piece |
| Edits.ApplyChars | src/string.rs:453-487 | an edit puts the piece's characters between the characters before and after the index |
| Edits.AppendChars | src/string.rs:558-565 | `push(c)` appends `c` to the characters, and `extend(cs)` appends `cs` |
| Edits.InsertStrAtEnds | src/string.rs:1683-1705 | `insert_str(0, s)` prepends `s`, and `insert_str(len, s)` appends it just as `push_str` does |
| Strings.ImString.AsBytes | src/string.rs:109-111 | the visible bytes are the buffer's bytes in the view's range, and they are well-formed UTF-8 |
| Strings.ImString.Len | src/string.rs:222-224 | the length is the number of visible bytes |
| Strings.ImString.IsEmpty | src/string.rs:602-604 | empty exactly when there are no visible bytes, and exactly when there are no characters |
| Strings.ImString.FromStdString | src/string.rs:137-142 | the view covers the whole string in a fresh, exclusively held allocation |
| Strings.ImString.New | src/string.rs:257-259 | the empty string in a fresh allocation |
| Strings.ImString.Clone | src/string.rs:68-75 | the clone shows the same bytes over the same range; it shares the buffer for sharing strategies and gets a fresh copy for the others |
| Strings.ImString.SliceUnchecked | src/string.rs:703-719 | for an aligned relative range, the new view shows exactly those bytes of this view over the same buffer |
| Strings.ImString.TrySlice | src/string.rs:652-680 | succeeds exactly when the bounds resolve to an aligned range; otherwise it returns the error `try_slice` reports; the new view shows those bytes, and for sharing strategies it joins the holders of the same buffer |
| Strings.ImString.Slice | src/string.rs:628-630 | the view of the bytes the bounds select |
| Strings.ImString.TrySliceRef | src/string.rs:789-794 | a view exactly when the region lies in the buffer at boundaries, at the offsets `SliceRef` finds; for sharing strategies it joins the holders of the same buffer; the view's own region always gives back the same view |
| Strings.ImString.TryStrRef | src/string.rs:740-742 | `try_slice_ref` on the string's bytes, with the same offsets, sharing and holders; a non-empty `&str` lying inside the buffer is always found, and the view's own text gives back the same view |
| Strings.ImString.StrRef | src/string.rs:765-768 | the result always reads as the given text; a non-empty text inside the buffer is promoted to a view at its offsets, sharing the buffer and joining its holders for sharing strategies; any other text becomes a fresh string and the buffer is untouched |
| Strings.ImString.UncheckedAppend | src/string.rs:189-196 | the visible text becomes the edited text, and the view covers the whole buffer; an exclusively held buffer starting at the view is edited in place, and otherwise a fresh handle is forked while the old allocation keeps its value and its other holders |
| Strings.ImString.Push | src/string.rs:558-565 | appends the character's encoding, and the characters gain `c` at the end |
| Strings.ImString.PushStr | src/string.rs:581-588 | appends the bytes and their characters |
| Strings.ImString.Insert | src/string.rs:453-460 | inserts the character's encoding at a boundary index, between the characters before and after it |
| Strings.ImString.InsertStr | src/string.rs:480-487 | inserts the string at a boundary index; at 0 it prepends, and at the length it appends |
| Strings.ImString.Extend | src/string.rs:1421-1441 | appends the encoding of every character, and the characters gain them in order |
| Strings.ImString.ExtendStr | src/string.rs:1443-1452 | appends every string in order |
| Strings.ImString.Truncate | src/string.rs:486-519 | the view keeps its first `min(n, len)` bytes over the same handle and the same holders; an exclusively held buffer is cut at the new end when the view shrinks, and the buffer is otherwise untouched |
| Strings.ImString.Clear | src/string.rs:158-163 | the view becomes empty over the same handle and the same holders; an exclusively held buffer is emptied, and a shared one is untouched |
| Strings.ImString.Pop | src/string.rs:536-540 | `None` exactly on an empty view; otherwise the last character, with the end moved back by its encoded length and the buffer untouched |
| Strings.ImString.TrySplitOff | src/string.rs:836-852 | succeeds exactly when the position is a boundary of the view; this view keeps the bytes before it, and the returned view holds the bytes after it, joining the holders of the same buffer for sharing strategies |
| Strings.ImString.SplitOff | src/string.rs:876-878 | the view keeps the bytes before the position, and the result holds the rest over the same, unchanged buffer, joining its holders for sharing strategies |
| Strings.ImString.IntoStdString | src/string.rs:237-246 | the result is the visible text; an exclusively held buffer starting at the view is handed over, and the handle is released, lowering the count by one and leaving every other holder live |
| Strings.ImString.TrySetOffset | src/string.rs:963-986 | succeeds exactly when the absolute range is aligned in the buffer, and then the view shows those bytes; otherwise the view is unchanged and the error is the one reported |
| Strings.ImString.AsMutStr | src/string.rs:178-187 | afterwards the buffer is exclusively held and the visible text is unchanged; without write access it was first copied to a fresh handle |
| Strings.ImString.Advance | src/string.rs:1306-1339 | the first character of a non-empty view, and a new view past it whose bytes follow that character's encoding and whose characters are all but the first; the old view's handle is dropped, so the buffer keeps its value and its holders lose that handle and gain the new view's for sharing strategies, with the count still matching them |
| Strings.CharsIter.Next | src/string.rs:1328-1339 | `None` exactly on an empty rest, which then changes nothing; otherwise the first remaining character, with the buffer's holders losing the old rest's handle as `Advance` states; the characters handed out plus those left are always those of the original view |
| Strings.CharsIter.Collect | src/string.rs:1328-1339 | draining the iterator yields exactly the characters left, in order |
| Strings.CharIndicesIter.Next | src/string.rs:1306-1320 | `None` exactly at the end, which then changes nothing; otherwise the byte index where the next character starts in the original text, and that character, with the holders updated as `Advance` states; the index moves on by its length |
| Strings.CollectChars | src/string.rs:1005-1009 | collecting `chars()` yields exactly the characters of the view |
| Strings.CharsNextKeepsOthers | src/string.rs:1328-1339 | a step of `chars()` leaves every other live view valid with its text unchanged, whether or not it shares the buffer |
| Strings.CharIndicesNextKeepsOthers | src/string.rs:1306-1320 | a step of `char_indices()` leaves every other live view valid with its text unchanged |
| Strings.TruncateKeepsOthers | src/string.rs:486-519 | truncating a view leaves every other live view valid with its text unchanged, for every strategy |
| Strings.ClearKeepsOthers | src/string.rs:158-163 | clearing a view leaves every other live view valid with its text unchanged, for every strategy |
| Strings.CutAfterClone | src/string.rs:486-519 | for every strategy, a clone keeps its text while the string it was cloned from is truncated and then cleared |
| Strings.PopAll | src/string.rs:1733-1745 | popping until empty yields the characters last to first |
| Strings.EditAfterClone | src/string.rs:1486-1515 | for every strategy, pushing onto a string does not change a clone taken before |
| Strings.StdStringRoundTrip | src/string.rs:2062-2067 | `from_std_string` then `into_std_string` gives back the same string |
| Nom.Take | src/nom.rs:106-108 | the view of the first `count` bytes, which is what `slice(..count)` accepts |
| Nom.TakeSplit | src/nom.rs:110-113 | the rest comes first, then the taken part; together they put the text back together |
| Nom.TakeSplitChars | src/nom.rs:116-137 | the two pieces hold the view's characters in order |
| Nom.FirstMatch | src/nom.rs:174-176 | the index of the first character satisfying the predicate, or none when no character does |
| Nom.Find | src/nom.rs:174-176 | the byte index of the first matching character, or none exactly when no character matches |
| Nom.FirstMatchUnique | src/nom.rs:174-176 | there is at most one first match |
| Nom.SplitAtPosition | src/nom.rs:227-235 | a split just before the first match, or `Incomplete(1)` exactly when nothing matches |
| Nom.SplitAtPosition1 | src/nom.rs:237-250 | an error exactly when the first character matches; otherwise the same as `split_at_position`, so a successful split takes at least one byte |
| Nom.SplitAtPositionComplete | src/nom.rs:252-263 | always a split: with no match the whole input is taken and the rest is empty, and otherwise the same as `split_at_position` |
| Nom.SplitAtPosition1Complete | src/nom.rs:265-279 | an error exactly when the first character matches or the input is empty; otherwise the same as the `_complete` variant |
| Nom.SplitReassembles | src/nom.rs:252-263 | the split's two parts are aligned views that put the input back together |
| Nom.SplitStopsAtMatch | src/nom.rs:252-263 | no character taken matches, and the rest is empty or starts with a match |
| Nom.SliceIndex | src/nom.rs:178-190 | the byte start of character `count`, the length when `count` equals the number of characters, and `Needed::Unknown` exactly when it exceeds it |
| Nom.Offset | src/nom.rs:382-386 | how many bytes the second view starts after the first, wrapping like `usize` when it starts before |
| Nom.OffsetOfSlice | src/nom.rs:388-402 | a view sliced at `i..` lies `i` bytes into the view it came from |
| Peg.Start | src/peg.rs:18-20 | parsing starts at a boundary, which is the end exactly for empty text |
| Peg.PositionRepr | src/peg.rs:26-35 | the offset is `pos`; the line is one more than the newline characters before `pos`, and the column is at least 1 |
| Peg.NewlineBytesAreChars | src/peg.rs:27-28 | counting newline bytes of well-formed text counts its newline characters |
| Peg.PositionReprStart | src/peg.rs:26-35 | offset 0 is line 1, column 1 |
| Peg.PositionReprStep | src/peg.rs:26-35 | one character on, a newline moves to the next line at column 1, and any other character moves one column on |
| Peg.ParseElem | src/peg.rs:41-46 | fails exactly at the end; otherwise the next character, ending at the boundary just past its encoding |
| Peg.ParseElemStep | src/peg.rs:41-46 | before the end, `parse_elem` matches, and the characters after `pos` are the one it read followed by those after where it stopped |
| Peg.EofIffNoElem | src/peg.rs:22-46 | `is_eof` holds exactly where `parse_elem` fails |
| Peg.ElemsSpellText | src/peg.rs:41-46 | calling `parse_elem` from a boundary until it fails reads exactly the characters after it |
| Peg.ParseStringLiteral | src/peg.rs:50-57 | a match just past the literal exactly when the text has room for it and the bytes there spell it |
| Peg.LiteralEndsAtBoundary | src/peg.rs:50-57 | a well-formed literal matched at a boundary ends at a boundary |
| Peg.LiteralOfOneChar | src/peg.rs:41-57 | matching one character's encoding as a literal agrees with `parse_elem` reading that character |
| Peg.ParseSlice | src/peg.rs:62-64 | the bytes between two boundaries; with what precedes and follows them they make up the text |
| Peg.SliceOfMatch | src/peg.rs:41-64 | the slice from a position to where an element or a well-formed literal match ends is that element's encoding or the literal |

## Left out

- `src/string_next.rs` and `src/os_string.rs` are not compiled into the crate,
  so they are not part of this model.
- UTF-8 and UTF-16 decoding (`from_utf8`, `from_utf8_lossy`, `from_utf16*`),
  `with_capacity`/`capacity`, `Default`, `Debug`/`Display`/`Hash`, ordering and
  equality impls, `AsRef<Path>`/`AsRef<OsStr>`, `ToSocketAddrs`, the serde
  derive, `Add`/`AddAssign`/`Write` and the `FromIterator` impls are thin
  wrappers over std or foreign code. `from_std_string` is the only constructor
  modelled; `EncodeAllRoundTrip` covers what `FromIterator<char>` builds.
- `lines()`: the splitting is std `str::lines`. Only how each piece is
  reconciled with the buffer is modelled, through `Ranges.SliceRef`.
- `slice_ref` is `try_slice_ref` followed by an unwrap. Its panic is the `None`
  case of `Strings.ImString.TrySliceRef`, so it has no member of its own.
- The borrows `as_mut_str`, `IndexMut`, `DerefMut`, `BorrowMut` and `AsMut`:
  only the decision to fork before lending the text out is modelled
  (`Strings.ImString.AsMutStr`). Writes through the returned `&mut str` are not.
- Raw pointers: a byte slice is an abstract address and length (`Ranges.Region`).
  A buffer's base address is a parameter. Reallocation of the buffer when it
  grows is not modelled.
- Concurrency: `Arc` and `Rc` are the same in this model, since atomicity and
  `Send`/`Sync` are out of scope. `Box` and `Cloned` are also the same: both
  copy on clone.
- Rust's implicit `drop` is an explicit `Drop` call. The iterators and the
  methods that replace a view call it where Rust would drop the old value.
- Arithmetic overflow panics of debug builds are not modelled. Offsets are
  unbounded naturals, except where the code relies on `usize` wrapping
  (`Ranges.StartOf`, `Ranges.EndOf`, `Nom.Offset`).
- nom's `Compare`, `AsBytes`, `ParseTo`, `iter_indices` and `iter_elements`
  delegate to nom or `FromStr`. The iterators they return are
  `Strings.CharIndicesIter` and `Strings.CharsIter`.
- The nom and peg adapters take the view's visible text. A view they return is
  given as a range of that text; the adapter builds it with `slice`, which
  `Strings.ImString.Slice` models. `Nom.SliceIndex` walks the decoded
  characters with a counter, as the source walks `char_indices`.
- The class `Strings.ImString` follows the documented behaviour at the points
  listed under Findings. The code as written is kept beside it in `Ranges`.
- Strings.ImString.TrySlice: states the documented resolution of inclusive ends
  (`Ranges.TrySliceIntended`), not the code as written (`Ranges.TrySlice`).
- Strings.ImString.TrySetOffset: resolves an inclusive end to one past it, as
  documented, not to `v - 1` as written.
- Strings.ImString.Truncate: requires the new end to be a boundary or at least
  the view's length. It does not reproduce the misaligned view the code leaves.
  When `n` is at least the length it leaves the buffer alone, as documented at
  src/string.rs:490, where the code cuts an exclusively held buffer at
  `start + n` (`Ranges.TruncateAgrees` says where the two agree).
- Panics become preconditions: `Strings.ImString.Insert` and `InsertStr`
  (through `Edits.Allowed`) require a boundary index, for the panic past the
  length or inside a character; `Strings.ImString.Slice` and `SplitOff` require
  what their `unwrap` needs; `Nom.Take` and `Nom.TakeSplit` require what
  `slice(..count)` needs; `Peg.PositionRepr`, `Peg.ParseElem` and
  `Peg.ParseSlice` require boundaries where the source indexes the text. The
  panicking inputs themselves are not modelled.
- Strings.ImString.TrySplitOff: uses absolute offsets (`Ranges.SplitOff`), not
  the code's relative ones.
- Strings.ImString.TrySliceRef: rejects a region that cuts a character, where
  the code accepts it.
- Strings.ImString.TryStrRef: an empty `&str` whose address falls inside a
  character of the buffer is accepted by the code, as an empty view at that
  address; the model rejects it, because such a view would not be aligned.
- Strings.ImString.StrRef: for the same empty `&str`, the model returns a fresh
  empty string, where the code returns an empty view of the buffer.
- Liveness of the other holders is stated through the count: after a handle is
  released, the strong count equals the number of remaining holders, and
  `Data.FellowHolderValid` turns that into the validity of each of them.
- Examples (`nom-json`, `peg-list`), benchmarks, and the commented-out tests
  in `tests/string.rs` are not part of the model.

## Findings

| source | as written | input that shows it | evidently intended | confidence | as-written member | corrected member |
|---|---|---|---|---|---|---|
| src/string.rs:662-666 | an inclusive end `..=v` resolves to `v - 1` (and `..=0` wraps to `usize::MAX`) | `"hello".try_slice(0..=1)` gives `""`; `try_slice(0..=0)` gives `EndOutOfBounds` | `..=v` ends one past `v`, giving `"he"` and `"h"` | high, not executed | Ranges.InclusiveEndCounterexample | Ranges.InclusiveEndIntended |
| src/string.rs:836-852 | `try_split_off` uses the relative position as an absolute offset | the view `"World!"` (7..13) of `"Hello, World!"` split at 2 becomes 7..2 and 2..13, so the new view holds `"llo, World!"` | split at absolute `start + position`, giving `"Wo"` and `"rld!"` | high, not executed | Ranges.SplitOffCounterexample | Ranges.SplitOff |
| src/string.rs:509-519 | on a shared buffer, `truncate` moves the end to `start + n` without checking the boundary | view of `"é"` (bytes C3 A9), shared, `truncate(1)` leaves a view ending inside the character | panic like `String::truncate`, or refuse the cut | medium, not executed | Ranges.TruncateSharedCounterexample | Ranges.Truncate |
| src/string.rs:509-519 | on an exclusive buffer, `truncate(n)` with `n` past the view's end cuts the buffer at `start + n` first | buffer `"aé"`, view 0..1, `truncate(2)` panics because 2 is inside `é` | `n` at least the length leaves the view as it is, as documented at src/string.rs:491 | medium, not executed | Ranges.TruncatePastEndCounterexample | Ranges.Truncate |
| src/string.rs:789-794 | `try_slice_ref` accepts any contained byte slice, including one that cuts a character | the first byte of `"é"` gives a view `0..1` that is not well-formed | return `None` unless both ends are character boundaries | high, not executed | Ranges.SliceRefCounterexample | Ranges.SliceRef |
