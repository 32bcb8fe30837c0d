/**
 * UTF-8 as the string view sees it: byte sequences, character boundaries,
 * the encoding of one `char`, and the decoding of a well-formed text into
 * its characters. Well-formedness follows the byte-sequence table of
 * section 4 of RFC 3629; a character boundary is any index that does not
 * point at a continuation byte `10xxxxxx` (section 3 of RFC 3629).
 */
module Utf8 {

  newtype u8 = x: int | 0 <= x < 256

  type Bytes = seq<u8>

  /** A continuation byte `10xxxxxx`. */
  predicate IsContinuation(b: u8) {
    0x80 <= b < 0xC0
  }

  /**
   * `str::is_char_boundary`: 0 and the length are boundaries, an index past
   * the end is not, and an index inside is one unless it points at a
   * continuation byte.
   */
  predicate IsCharBoundary(s: Bytes, i: int) {
    i == 0 || i == |s| || (0 < i < |s| && !IsContinuation(s[i]))
  }

  /** The length of the sequence that a lead byte opens, 0 for a byte that opens none. */
  function SequenceLength(b: u8): (n: nat)
    ensures n <= 4
    ensures IsContinuation(b) ==> n == 0
  {
    if b < 0x80 then 1
    else if 0xC2 <= b <= 0xDF then 2
    else if 0xE0 <= b <= 0xEF then 3
    else if 0xF0 <= b <= 0xF4 then 4
    else 0
  }

  /** The second byte of a multi-byte sequence, with the narrower ranges RFC 3629 gives after E0, ED, F0 and F4. */
  predicate SecondByteOk(b0: u8, b1: u8) {
    if b0 == 0xE0 then 0xA0 <= b1 <= 0xBF
    else if b0 == 0xED then 0x80 <= b1 <= 0x9F
    else if b0 == 0xF0 then 0x90 <= b1 <= 0xBF
    else if b0 == 0xF4 then 0x80 <= b1 <= 0x8F
    else IsContinuation(b1)
  }

  /** `s` begins with one well-formed encoded scalar value. */
  predicate StartsWithScalar(s: Bytes) {
    && |s| > 0
    && var n := SequenceLength(s[0]);
    && 0 < n <= |s|
    && (n >= 2 ==> SecondByteOk(s[0], s[1]))
    && (n >= 3 ==> IsContinuation(s[2]))
    && (n == 4 ==> IsContinuation(s[3]))
  }

  /** Well-formed UTF-8: a run of well-formed scalar encodings. */
  predicate Valid(s: Bytes)
    decreases |s|
  {
    s == [] || (StartsWithScalar(s) && Valid(s[SequenceLength(s[0])..]))
  }

  /** `char::len_utf8`, decided by the scalar value's range. */
  function LenUtf8(c: char): (n: nat)
    ensures 1 <= n <= 4
  {
    var v := c as int;
    if v < 0x80 then 1
    else if v < 0x800 then 2
    else if v < 0x10000 then 3
    else 4
  }

  /** The UTF-8 encoding of one scalar value. */
  function Encode(c: char): (r: Bytes)
    ensures |r| == LenUtf8(c)
  {
    var v := c as int;
    if v < 0x80 then [v as u8]
    else if v < 0x800 then [(0xC0 + v / 64) as u8, (0x80 + v % 64) as u8]
    else if v < 0x10000 then
      [(0xE0 + v / 4096) as u8, (0x80 + (v / 64) % 64) as u8, (0x80 + v % 64) as u8]
    else
      [(0xF0 + v / 262144) as u8, (0x80 + (v / 4096) % 64) as u8,
       (0x80 + (v / 64) % 64) as u8, (0x80 + v % 64) as u8]
  }

  /** The payload bits of a continuation byte. */
  function Low(b: u8): int {
    b as int - 0x80
  }

  /** The scalar value that a well-formed sequence at the head of `s` encodes. */
  function DecodeFirst(s: Bytes): (c: char)
    requires StartsWithScalar(s)
    ensures LenUtf8(c) == SequenceLength(s[0])
  {
    var n := SequenceLength(s[0]);
    if n == 1 then
      s[0] as int as char
    else if n == 2 then
      ((s[0] as int - 0xC0) * 64 + Low(s[1])) as char
    else if n == 3 then
      assert s[0] == 0xED ==> s[1] <= 0x9F;
      ((s[0] as int - 0xE0) * 4096 + Low(s[1]) * 64 + Low(s[2])) as char
    else
      ((s[0] as int - 0xF0) * 262144 + Low(s[1]) * 4096 + Low(s[2]) * 64 + Low(s[3])) as char
  }

  /** The characters of a well-formed text, in order (`str::chars`). */
  function Chars(s: Bytes): (cs: seq<char>)
    requires Valid(s)
    ensures |cs| <= |s|
    ensures cs == [] <==> s == []
    decreases |s|
  {
    if s == [] then [] else [DecodeFirst(s)] + Chars(s[SequenceLength(s[0])..])
  }

  /** The text that a sequence of characters encodes (`String::from_iter`). */
  function EncodeAll(cs: seq<char>): Bytes {
    if cs == [] then [] else Encode(cs[0]) + EncodeAll(cs[1..])
  }

  /** The byte index at which character number `k` starts. */
  function CharStart(cs: seq<char>, k: nat): nat
    requires k <= |cs|
  {
    |EncodeAll(cs[..k])|
  }

  /** The encoding of a character is one well-formed sequence, opened by a lead byte that announces its length. */
  lemma {:induction false} EncodeWellFormed(c: char)
    ensures StartsWithScalar(Encode(c))
    ensures SequenceLength(Encode(c)[0]) == |Encode(c)|
  {
  }

  /** Decoding the encoding of `c`, whatever follows it, gives back `c`. */
  lemma {:induction false} DecodeEncode(c: char, rest: Bytes)
    ensures StartsWithScalar(Encode(c) + rest)
    ensures DecodeFirst(Encode(c) + rest) == c
  {
    EncodeWellFormed(c);
    var e := Encode(c);
    var s := e + rest;
    assert s[0] == e[0];
    assert |e| >= 2 ==> s[1] == e[1];
    assert |e| >= 3 ==> s[2] == e[2];
    assert |e| >= 4 ==> s[3] == e[3];
    var v := c as int;
    if v < 0x80 {
    } else if v < 0x800 {
      DivMod64(v);
    } else if v < 0x10000 {
      DivMod64(v);
      DivMod64(v / 64);
      assert (v / 64) / 64 == v / 4096;
    } else {
      DivMod64(v);
      DivMod64(v / 64);
      DivMod64(v / 4096);
      assert (v / 64) / 64 == v / 4096;
      assert (v / 4096) / 64 == v / 262144;
    }
  }

  /** A natural number is its quotient by 64, shifted, plus its low six bits. */
  lemma {:induction false} DivMod64(v: nat)
    ensures v == (v / 64) * 64 + v % 64
  {
  }

  /** Encoding the decoded head of `s` gives back exactly the bytes it was decoded from. */
  lemma {:induction false} EncodeDecode(s: Bytes)
    requires StartsWithScalar(s)
    ensures Encode(DecodeFirst(s)) == s[..SequenceLength(s[0])]
  {
    var n := SequenceLength(s[0]);
    var c := DecodeFirst(s);
    var v := c as int;
    if n == 1 {
      assert s[..1] == [s[0]];
    } else if n == 2 {
      Digits2(s[0] as int - 0xC0, Low(s[1]));
      assert s[..2] == [s[0], s[1]];
    } else if n == 3 {
      Digits3(s[0] as int - 0xE0, Low(s[1]), Low(s[2]));
      assert s[..3] == [s[0], s[1], s[2]];
    } else {
      Digits4(s[0] as int - 0xF0, Low(s[1]), Low(s[2]), Low(s[3]));
      assert s[..4] == [s[0], s[1], s[2], s[3]];
    }
  }

  /** Six-bit digits written out in base 64 are read back by division and remainder. */
  lemma {:induction false} Digits2(hi: int, lo: int)
    requires 0 <= hi && 0 <= lo < 64
    ensures (hi * 64 + lo) / 64 == hi && (hi * 64 + lo) % 64 == lo
  {
  }

  lemma {:induction false} Digits3(hi: int, mid: int, lo: int)
    requires 0 <= hi && 0 <= mid < 64 && 0 <= lo < 64
    ensures var v := hi * 4096 + mid * 64 + lo;
      v / 4096 == hi && (v / 64) % 64 == mid && v % 64 == lo
  {
    var v := hi * 4096 + mid * 64 + lo;
    Digits2(hi * 64 + mid, lo);
    Digits2(hi, mid);
    assert v == (hi * 64 + mid) * 64 + lo;
    assert v / 4096 == (v / 64) / 64;
  }

  lemma {:induction false} Digits4(hi: int, b1: int, b2: int, lo: int)
    requires 0 <= hi && 0 <= b1 < 64 && 0 <= b2 < 64 && 0 <= lo < 64
    ensures var v := hi * 262144 + b1 * 4096 + b2 * 64 + lo;
      v / 262144 == hi && (v / 4096) % 64 == b1 && (v / 64) % 64 == b2 && v % 64 == lo
  {
    var v := hi * 262144 + b1 * 4096 + b2 * 64 + lo;
    Digits3(hi * 64 + b1, b2, lo);
    Digits3(hi, b1, b2);
    assert v == (hi * 64 + b1) * 4096 + b2 * 64 + lo;
    assert v / 262144 == (v / 64) / 4096;
    assert v / 4096 == (v / 64) / 64;
  }

  /** Inside one well-formed sequence every byte after the lead byte is a continuation byte. */
  lemma {:induction false} InsideIsContinuation(s: Bytes, k: nat)
    requires StartsWithScalar(s)
    requires 0 < k < SequenceLength(s[0])
    ensures IsContinuation(s[k])
  {
  }

  /** Whether a text starts with a scalar value, and which one, depends only on that value's own bytes. */
  lemma {:induction false} HeadDetermines(s: Bytes, t: Bytes)
    requires StartsWithScalar(s)
    requires |t| >= SequenceLength(s[0]) && t[..SequenceLength(s[0])] == s[..SequenceLength(s[0])]
    ensures t[0] == s[0]
    ensures StartsWithScalar(t) && DecodeFirst(t) == DecodeFirst(s)
  {
    var n := SequenceLength(s[0]);
    assert forall k :: 0 <= k < n ==> t[k] == t[..n][k] == s[..n][k] == s[k];
  }

  // Slicing facts the proofs below lean on.

  lemma {:induction false} DropConcat(a: Bytes, b: Bytes, n: nat)
    requires n <= |a|
    ensures (a + b)[n..] == a[n..] + b
    ensures (a + b)[..n] == a[..n]
  {
  }

  lemma {:induction false} SliceOfSlice(s: Bytes, n: nat, i: nat)
    requires n <= i <= |s|
    ensures s[n..][i - n..] == s[i..]
    ensures s[..i][n..] == s[n..][..i - n]
    ensures s[..i][..n] == s[..n]
  {
  }

  lemma {:induction false} TakeOfDrop(s: Bytes, i: nat, n: nat)
    requires i + n <= |s|
    ensures s[i..][..n] == s[i..i + n]
    ensures s[i..][n..] == s[i + n..]
  {
  }

  lemma {:induction false} TakeDrop(s: Bytes, n: nat)
    requires n <= |s|
    ensures s[..n] + s[n..] == s
  {
  }

  lemma {:induction false} NestedSlices(s: Bytes, i: nat, j: nat, k: nat)
    requires i <= j <= k <= |s|
    ensures s[..k][i..j] == s[i..j]
    ensures s[i..k][..j - i] == s[i..j]
  {
  }

  /** A boundary of a text that lies within a prefix is a boundary of the prefix. */
  lemma {:induction false} PrefixBoundary(s: Bytes, n: nat, i: nat)
    requires i <= n <= |s| && IsCharBoundary(s, i)
    ensures IsCharBoundary(s[..n], i)
  {
    if 0 < i < n {
      assert s[..n][i] == s[i];
    }
  }

  lemma {:induction false} JoinSlices(s: Bytes, i: nat, j: nat)
    requires i <= j <= |s|
    ensures s[i..j] + s[j..] == s[i..]
    ensures s[..i] + s[i..j] == s[..j]
  {
  }

  /** Well-formed texts concatenate to a well-formed text whose characters are the two runs in order. */
  lemma {:induction false} ValidConcat(a: Bytes, b: Bytes)
    requires Valid(a) && Valid(b)
    ensures Valid(a + b)
    ensures Chars(a + b) == Chars(a) + Chars(b)
    decreases |a|
  {
    if a == [] {
      assert a + b == b;
    } else {
      assert StartsWithScalar(a) && Valid(a[SequenceLength(a[0])..]);
      var n := SequenceLength(a[0]);
      DropConcat(a, b, n);
      HeadDetermines(a, a + b);
      ValidConcat(a[n..], b);
      var d := DecodeFirst(a);
      assert Chars(a + b) == [d] + Chars(a[n..] + b);
      ConcatAssoc([d], Chars(a[n..]), Chars(b));
    }
  }

  /** Cutting a well-formed text at a character boundary leaves two well-formed texts. */
  lemma {:induction false} ValidSplit(s: Bytes, i: nat)
    requires Valid(s) && IsCharBoundary(s, i)
    ensures Valid(s[..i]) && Valid(s[i..])
    ensures Chars(s) == Chars(s[..i]) + Chars(s[i..])
    decreases |s|
  {
    if i == 0 {
      assert s[..i] == [] && s[i..] == s;
    } else if i == |s| {
      assert s[..i] == s && s[i..] == [];
    } else {
      var n := SequenceLength(s[0]);
      assert StartsWithScalar(s) && Valid(s[n..]);
      if i < n {
        InsideIsContinuation(s, i);
        assert false;
      }
      var t, p := s[n..], s[..i];
      SliceOfSlice(s, n, i);
      assert IsCharBoundary(t, i - n) by {
        if i - n > 0 && i - n < |t| { assert t[i - n] == s[i]; }
      }
      ValidSplit(t, i - n);
      HeadDetermines(s, p);
      var d := DecodeFirst(s);
      assert SequenceLength(p[0]) == n && p[n..] == t[..i - n];
      assert Valid(p);
      assert Chars(p) == [d] + Chars(t[..i - n]);
      assert Chars(s) == [d] + Chars(t);
      assert Chars(t) == Chars(t[..i - n]) + Chars(s[i..]);
      ConcatAssoc([d], Chars(t[..i - n]), Chars(s[i..]));
    }
  }

  /** Concatenation is associative. */
  lemma {:induction false} ConcatAssoc<T>(a: seq<T>, b: seq<T>, c: seq<T>)
    ensures a + (b + c) == (a + b) + c
  {
  }

  /**
   * Moving the last element of a prefix `rest` of `all` onto `popped`,
   * which holds the rest of `all` last to first, keeps both descriptions.
   */
  lemma {:induction false} PopLastStep<T>(all: seq<T>, rest: seq<T>, init: seq<T>, x: T, popped: seq<T>)
    requires |rest| + |popped| == |all| && rest == all[..|rest|] && rest == init + [x]
    requires forall k :: 0 <= k < |popped| ==> popped[k] == all[|all| - 1 - k]
    ensures |init| + |popped + [x]| == |all| && init == all[..|init|]
    ensures forall k :: 0 <= k < |popped + [x]| ==> (popped + [x])[k] == all[|all| - 1 - k]
  {
    assert init == rest[..|init|];
    assert x == all[|init|];
  }

  /** Moving the head of `b` onto the end of `a` leaves the concatenation unchanged. */
  lemma {:induction false} MoveHead<T>(a: seq<T>, b: seq<T>)
    requires b != []
    ensures (a + [b[0]]) + b[1..] == a + b
  {
    assert b == [b[0]] + b[1..];
    ConcatAssoc(a, [b[0]], b[1..]);
  }

  /** Encoding concatenated character runs concatenates their encodings. */
  lemma {:induction false} EncodeAllConcat(a: seq<char>, b: seq<char>)
    ensures EncodeAll(a + b) == EncodeAll(a) + EncodeAll(b)
    decreases |a|
  {
    if a == [] {
      assert a + b == b;
    } else {
      assert (a + b)[1..] == a[1..] + b;
      EncodeAllConcat(a[1..], b);
    }
  }

  /** Every character run encodes to well-formed UTF-8 that decodes back to the same run. */
  lemma {:induction false} EncodeAllRoundTrip(cs: seq<char>)
    ensures Valid(EncodeAll(cs))
    ensures Chars(EncodeAll(cs)) == cs
    decreases |cs|
  {
    if cs != [] {
      var e, rest := Encode(cs[0]), EncodeAll(cs[1..]);
      EncodeAllRoundTrip(cs[1..]);
      DecodeEncode(cs[0], rest);
      EncodeWellFormed(cs[0]);
      assert (e + rest)[0] == e[0];
      assert (e + rest)[|e|..] == rest;
    }
  }

  /** Decoding a well-formed text and encoding the characters again gives back the text. */
  lemma {:induction false} CharsRoundTrip(s: Bytes)
    requires Valid(s)
    ensures EncodeAll(Chars(s)) == s
    decreases |s|
  {
    if s != [] {
      var n := SequenceLength(s[0]);
      assert StartsWithScalar(s) && Valid(s[n..]);
      CharsRoundTrip(s[n..]);
      EncodeDecode(s);
      var cs := [DecodeFirst(s)] + Chars(s[n..]);
      assert cs[0] == DecodeFirst(s) && cs[1..] == Chars(s[n..]);
      calc {
        EncodeAll(Chars(s));
        Encode(cs[0]) + EncodeAll(cs[1..]);
        s[..n] + s[n..];
        { TakeDrop(s, n); }
        s;
      }
    }
  }

  /** The boundaries of a slice between two boundaries are the boundaries of the whole text, shifted. */
  lemma {:induction false} SliceBoundary(s: Bytes, i: nat, j: nat, k: nat)
    requires i <= j <= |s| && IsCharBoundary(s, i) && IsCharBoundary(s, j)
    requires k <= j - i
    ensures IsCharBoundary(s[i..j], k) <==> IsCharBoundary(s, i + k)
  {
    if 0 < k < j - i {
      assert s[i..j][k] == s[i + k];
    }
  }

  /** A boundary of a suffix that starts at a boundary is a boundary of the whole text. */
  lemma {:induction false} DropBoundary(s: Bytes, i: nat, k: nat)
    requires i + k <= |s| && IsCharBoundary(s, i) && IsCharBoundary(s[i..], k)
    ensures IsCharBoundary(s, i + k)
  {
    if 0 < k < |s| - i {
      assert s[i..][k] == s[i + k];
    }
  }

  /** A non-empty well-formed piece of a well-formed text starts and ends at boundaries of it. */
  lemma {:induction false} PieceBoundaries(s: Bytes, i: nat, j: nat)
    requires Valid(s) && i < j <= |s| && Valid(s[i..j])
    ensures IsCharBoundary(s, i) && IsCharBoundary(s, j)
  {
    PieceStart(s, i, j);
    ValidSplit(s, i);
    JoinSlices(s, i, j);
    ValidPrefixRest(s[i..j], s[j..]);
    DropBoundary(s, i, j - i);
  }

  /** A non-empty well-formed piece starts with a lead byte, so at a boundary of the text around it. */
  lemma {:induction false} PieceStart(s: Bytes, i: nat, j: nat)
    requires i < j <= |s| && Valid(s[i..j])
    ensures IsCharBoundary(s, i)
  {
    assert StartsWithScalar(s[i..j]);
    assert s[i..j][0] == s[i];
  }

  /** The joint of any text and a well-formed text is a character boundary. */
  lemma {:induction false} ConcatBoundary(a: Bytes, b: Bytes)
    requires Valid(b)
    ensures IsCharBoundary(a + b, |a|)
  {
    if b != [] {
      assert StartsWithScalar(b);
      assert (a + b)[|a|] == b[0];
    }
  }

  /** The first character of a non-empty well-formed text is encoded by its leading bytes, which end at a boundary. */
  lemma {:induction false} FirstChar(s: Bytes)
    requires Valid(s) && s != []
    ensures var n := LenUtf8(Chars(s)[0]);
      && n <= |s| && IsCharBoundary(s, n)
      && s[..n] == Encode(Chars(s)[0])
      && Valid(s[n..]) && Chars(s[n..]) == Chars(s)[1..]
  {
    var n := SequenceLength(s[0]);
    assert StartsWithScalar(s) && Valid(s[n..]);
    EncodeDecode(s);
    ConcatBoundary(s[..n], s[n..]);
    TakeDrop(s, n);
  }

  /** The last character of a non-empty well-formed text is encoded by its trailing bytes, which start at a boundary. */
  lemma {:induction false} LastChar(s: Bytes)
    requires Valid(s) && s != []
    ensures var cs := Chars(s); var m := |s| - LenUtf8(cs[|cs| - 1]);
      && 0 <= m && IsCharBoundary(s, m)
      && s[m..] == Encode(cs[|cs| - 1])
      && Valid(s[..m]) && Chars(s[..m]) == cs[..|cs| - 1]
      && cs == Chars(s[..m]) + [cs[|cs| - 1]] && s == s[..m] + Encode(cs[|cs| - 1])
  {
    var cs := Chars(s);
    var init, c := cs[..|cs| - 1], cs[|cs| - 1];
    assert cs == init + [c];
    CharsRoundTrip(s);
    EncodeAllConcat(init, [c]);
    assert EncodeAll([c]) == Encode(c) + EncodeAll([]);
    var a := EncodeAll(init);
    assert s == a + Encode(c);
    EncodeAllRoundTrip(init);
    EncodeAllRoundTrip([c]);
    ConcatBoundary(a, Encode(c));
    DropConcat(a, Encode(c), |a|);
    assert s[..|a|] == a;
  }

  /** Character starts are boundaries of the encoded text. */
  lemma {:induction false} CharStartBoundary(cs: seq<char>, k: nat)
    requires k <= |cs|
    ensures CharStart(cs, k) <= |EncodeAll(cs)|
    ensures IsCharBoundary(EncodeAll(cs), CharStart(cs, k))
  {
    assert cs == cs[..k] + cs[k..];
    EncodeAllConcat(cs[..k], cs[k..]);
    EncodeAllRoundTrip(cs[k..]);
    ConcatBoundary(EncodeAll(cs[..k]), EncodeAll(cs[k..]));
  }

  /** Each character moves the next character start on by its encoded length. */
  lemma {:induction false} CharStartStep(cs: seq<char>, k: nat)
    requires k < |cs|
    ensures CharStart(cs, k + 1) == CharStart(cs, k) + LenUtf8(cs[k])
  {
    assert cs[..k + 1] == cs[..k] + [cs[k]];
    EncodeAllConcat(cs[..k], [cs[k]]);
    assert EncodeAll([cs[k]]) == Encode(cs[k]) + EncodeAll([]);
  }

  /** The text between two boundaries of a well-formed text is well-formed. */
  lemma {:induction false} ValidSlice(s: Bytes, i: nat, j: nat)
    requires Valid(s) && i <= j <= |s| && IsCharBoundary(s, i) && IsCharBoundary(s, j)
    ensures Valid(s[i..j])
  {
    ValidSplit(s, j);
    var p := s[..j];
    assert IsCharBoundary(p, i) by {
      if 0 < i < j { assert p[i] == s[i]; }
    }
    ValidSplit(p, i);
    assert p[i..] == s[i..j];
  }

  /** Splitting a well-formed text before character number `k` splits its characters there. */
  lemma {:induction false} CharStartSplit(s: Bytes, k: nat)
    requires Valid(s) && k <= |Chars(s)|
    ensures var i := CharStart(Chars(s), k);
      && i <= |s| && IsCharBoundary(s, i)
      && Valid(s[..i]) && Valid(s[i..])
      && Chars(s[..i]) == Chars(s)[..k] && Chars(s[i..]) == Chars(s)[k..]
  {
    var cs := Chars(s);
    CharsRoundTrip(s);
    CharStartBoundary(cs, k);
    assert cs == cs[..k] + cs[k..];
    EncodeAllConcat(cs[..k], cs[k..]);
    var a, b := EncodeAll(cs[..k]), EncodeAll(cs[k..]);
    DropConcat(a, b, |a|);
    EncodeAllRoundTrip(cs[..k]);
    EncodeAllRoundTrip(cs[k..]);
  }

  /** The characters before a boundary. */
  function CharsBefore(s: Bytes, i: nat): (cs: seq<char>)
    requires Valid(s) && IsCharBoundary(s, i)
    ensures Valid(s[..i]) && cs == Chars(s[..i])
  {
    ValidSplit(s, i);
    Chars(s[..i])
  }

  /** The characters after a boundary. */
  function CharsAfter(s: Bytes, i: nat): (cs: seq<char>)
    requires Valid(s) && IsCharBoundary(s, i)
    ensures Valid(s[i..]) && cs == Chars(s[i..])
  {
    ValidSplit(s, i);
    Chars(s[i..])
  }

  /** Past the character that starts at boundary `i`, the next boundary begins the rest of the text. */
  lemma {:induction false} NextBoundary(s: Bytes, i: nat)
    requires Valid(s) && i < |s| && IsCharBoundary(s, i)
    ensures Valid(s[i..]) && s[i..] != []
    ensures var n := LenUtf8(Chars(s[i..])[0]);
      && i + n <= |s| && IsCharBoundary(s, i + n) && s[i..][n..] == s[i + n..]
  {
    ValidSlice(s, i, |s|);
    assert s[i..|s|] == s[i..];
    FirstChar(s[i..]);
    var n := LenUtf8(Chars(s[i..])[0]);
    SliceBoundary(s, i, |s|, n);
  }

  /** One character on from boundary `i`: its encoding, the boundary after it, and the characters left. */
  lemma {:induction false} CharsAfterStep(s: Bytes, i: nat)
    requires Valid(s) && i < |s| && IsCharBoundary(s, i)
    ensures Valid(s[i..]) && Chars(s[i..]) != []
    ensures i + LenUtf8(Chars(s[i..])[0]) <= |s|
    ensures IsCharBoundary(s, i + LenUtf8(Chars(s[i..])[0]))
    ensures s[i..i + LenUtf8(Chars(s[i..])[0])] == Encode(Chars(s[i..])[0])
    ensures Valid(s[i + LenUtf8(Chars(s[i..])[0])..])
    ensures Chars(s[i + LenUtf8(Chars(s[i..])[0])..]) == Chars(s[i..])[1..]
  {
    var t := s[i..];
    NextBoundary(s, i);
    FirstChar(t);
    var n := LenUtf8(Chars(t)[0]);
    assert s[i..i + n] == t[..n] && s[i + n..] == t[n..] by {
      TakeOfDrop(s, i, n);
    }
  }

  /** The characters after the boundary that follows the first character are the rest of those after `i`. */
  lemma {:induction false} CharsAfterTail(s: Bytes, i: nat, n: nat)
    requires Valid(s) && i < |s| && IsCharBoundary(s, i)
    requires CharsAfter(s, i) != [] && n == LenUtf8(CharsAfter(s, i)[0])
    ensures i + n <= |s| && IsCharBoundary(s, i + n)
    ensures CharsAfter(s, i + n) == CharsAfter(s, i)[1..]
  {
    CharsAfterStep(s, i);
    assert CharsAfter(s, i + n) == Chars(s[i + n..]);
  }

  /** Past character `c` that starts at boundary `i`, the next boundary begins the rest of the text. */
  lemma {:induction false} StepPast(s: Bytes, i: nat, c: char)
    requires Valid(s) && i < |s| && IsCharBoundary(s, i)
    requires Valid(s[i..]) && s[i..] != [] && c == Chars(s[i..])[0]
    ensures i + LenUtf8(c) <= |s| && IsCharBoundary(s, i + LenUtf8(c))
    ensures s[i..][LenUtf8(c)..] == s[i + LenUtf8(c)..]
  {
    NextBoundary(s, i);
  }

  /** One character encodes to well-formed text that decodes back to that character alone. */
  lemma {:induction false} EncodeChars(c: char)
    ensures Valid(Encode(c)) && Chars(Encode(c)) == [c]
  {
    EncodeAllRoundTrip([c]);
    assert EncodeAll([c]) == Encode(c) + EncodeAll([]);
  }

  /** When a well-formed text starts with a well-formed piece, the rest is well-formed and starts at a boundary. */
  lemma {:induction false} ValidPrefixRest(a: Bytes, b: Bytes)
    requires Valid(a) && Valid(a + b)
    ensures Valid(b) && IsCharBoundary(a + b, |a|)
    decreases |a|
  {
    if a == [] {
      assert a + b == b;
    } else {
      assert StartsWithScalar(a) && Valid(a[SequenceLength(a[0])..]);
      var n := SequenceLength(a[0]);
      assert (a + b)[0] == a[0];
      DropConcat(a, b, n);
      ValidPrefixRest(a[n..], b);
    }
    ConcatBoundary(a, b);
  }
}
