/**
  The bitmap shifts of bitmap.c, which work on whole words and in place.
 */
module Shifts {
  import opened Words
  import opened Bitops
  import opened Powers

  // A valid bit of a bitmap of n bits: the unused bits of its last word do not count
  predicate Valid(s: seq<Word>, n: nat, i: nat) {
    i < n && At(s, i)
  }

  // Bit i of the bitmap shifted left
  predicate LeftAt(s: seq<Word>, n: nat, shift: nat, i: nat) {
    i < n && i >= shift && At(s, i - shift)
  }

  // d holds s shifted right
  ghost predicate IsRight(d: seq<Word>, s: seq<Word>, shift: nat, n: nat) {
    forall i: nat | i < 64 * Longs(n) :: At(d, i) == Valid(s, n, i + shift)
  }

  // d holds s shifted left
  ghost predicate IsLeft(d: seq<Word>, s: seq<Word>, shift: nat, n: nat) {
    forall i: nat | i < 64 * Longs(n) :: At(d, i) == LeftAt(s, n, shift, i)
  }

  // Word m of a bitmap of n bits, without the unused bits
  function ValidWord(s: seq<Word>, n: nat, m: nat): Word
    requires m < |s|
  {
    if n % 64 != 0 && m == Longs(n) - 1 then s[m] & LowMask(n % 64) else s[m]
  }

  lemma ValidWordBit(s: seq<Word>, n: nat, m: nat, j: nat)
    requires m < Longs(n) <= |s| && j < 64
    ensures Bit(ValidWord(s, n, m), j) == Valid(s, n, 64 * m + j)
  {
    hide Bit, LowMask, At;
    AtWord(s, m, j);
    if n % 64 != 0 && m == Longs(n) - 1 {
      LowIs(ValidWord(s, n, m), s[m], n % 64, j);
    }
  }

  // The two source words that meet in one word of the result of a right shift
  lemma JoinRight(w: Word, upper: Word, lower: Word, rem: nat, j: nat)
    requires rem < 64 && (rem == 0 ==> upper == 0) && j < 64
    requires w == Shl(upper, 64 - rem) | Shr(lower, rem)
    ensures Bit(w, j) == if j + rem < 64 then Bit(lower, j + rem) else Bit(upper, j + rem - 64)
  {
    hide Bit, LowMask, Shl, Shr;
    OrIs(w, Shl(upper, 64 - rem), Shr(lower, rem), j);
    ShlBit(upper, 64 - rem, j);
    ShrBit(lower, rem, j);
    if j + rem >= 64 {
      HighBit(lower, j + rem);
    }
  }

  // What the loop of ShiftRight stores in word k, before the unused bits are cleared
  lemma RightWord(s: seq<Word>, bits: nat, shift: nat, k: nat, upper: Word, lower: Word, word: Word)
    requires shift / 64 + k < Longs(bits) <= |s|
    requires lower == ValidWord(s, bits, shift / 64 + k)
    requires shift % 64 != 0 && shift / 64 + k + 1 < Longs(bits) ==> upper == ValidWord(s, bits, shift / 64 + k + 1)
    requires shift % 64 == 0 || shift / 64 + k + 1 >= Longs(bits) ==> upper == 0
    requires word == Shl(upper, 64 - shift % 64) | Shr(lower, shift % 64)
    ensures forall j: nat | j < 64 :: Bit(word, j) == Valid(s, bits, 64 * k + j + shift)
  {
    hide Bit, LowMask, Shl, Shr, At, ValidWord;
    var off, rem := shift / 64, shift % 64;
    forall j: nat | j < 64
      ensures Bit(word, j) == Valid(s, bits, 64 * k + j + shift)
    {
      JoinRight(word, upper, lower, rem, j);
      if j + rem < 64 {
        ValidWordBit(s, bits, off + k, j + rem);
        assert 64 * (off + k) + (j + rem) == 64 * k + j + shift;
      } else if off + k + 1 < Longs(bits) {
        ValidWordBit(s, bits, off + k + 1, j + rem - 64);
        assert 64 * (off + k + 1) + (j + rem - 64) == 64 * k + j + shift;
      } else {
        ZeroBit(j + rem - 64);
        assert 64 * k + j + shift >= 64 * (off + k + 1) >= bits;
      }
    }
  }

  // Clearing the unused bits of the last word, which a right shift leaves clear anyway
  method MaskLast(ghost s: seq<Word>, bits: nat, ghost shift: nat, k: nat, joined: Word) returns (word: Word)
    requires forall j: nat | j < 64 :: Bit(joined, j) == Valid(s, bits, 64 * k + j + shift)
    ensures forall j: nat | j < 64 :: Bit(word, j) == Valid(s, bits, 64 * k + j + shift)
  {
    hide Bit, LowMask, At;
    if bits % 64 == 0 || k != Longs(bits) - 1 {
      return joined;
    }
    word := joined & LowMask(bits % 64);
    forall j: nat | j < 64
      ensures Bit(word, j) == Valid(s, bits, 64 * k + j + shift)
    {
      LowIs(word, joined, bits % 64, j);
    }
  }

  // src[m] with the unused bits masked, as both shifts read their source
  method ReadWord(src: array<Word>, ghost s: seq<Word>, bits: nat, m: nat) returns (w: Word)
    requires m < Longs(bits) <= src.Length == |s| && src[m] == s[m]
    ensures w == ValidWord(s, bits, m)
  {
    hide LowMask;
    w := src[m];
    if bits % 64 != 0 && m == Longs(bits) - 1 {
      w := w & LowMask(bits % 64);
    }
  }

  // The loop body of ShiftRight: word k of the result, s being the original source
  method RightStep(src: array<Word>, ghost s: seq<Word>, shift: nat, bits: nat, k: nat) returns (word: Word)
    requires shift / 64 + k < Longs(bits) <= src.Length == |s|
    requires forall m: nat | k <= m < src.Length :: src[m] == s[m]
    ensures forall j: nat | j < 64 :: Bit(word, j) == Valid(s, bits, 64 * k + j + shift)
  {
    hide Bit, LowMask, Shl, Shr, At, Valid, ValidWord;
    var off, rem := shift / 64, shift % 64;
    var upper := ReadUpper(src, s, bits, off + k + 1, rem);
    var lower := ReadWord(src, s, bits, off + k);
    var joined := Shl(upper, 64 - rem) | Shr(lower, rem);
    RightWord(s, bits, shift, k, upper, lower, joined);
    word := MaskLast(s, bits, shift, k, joined);
  }

  // The word above, of which a shift by whole words takes nothing
  method ReadUpper(src: array<Word>, ghost s: seq<Word>, bits: nat, m: nat, rem: nat) returns (upper: Word)
    requires m <= Longs(bits) <= src.Length == |s| && (m < |s| ==> src[m] == s[m])
    ensures rem != 0 && m < Longs(bits) ==> upper == ValidWord(s, bits, m)
    ensures rem == 0 || m >= Longs(bits) ==> upper == 0
  {
    if rem == 0 || m >= Longs(bits) {
      return 0;
    }
    upper := ReadWord(src, s, bits, m);
  }

  // __bitmap_shift_right
  method ShiftRight(dst: array<Word>, src: array<Word>, shift: nat, bits: nat)
    requires Longs(bits) <= dst.Length && Longs(bits) <= src.Length
    requires shift / 64 <= Longs(bits)
    modifies dst
    ensures IsRight(dst[..], old(src[..]), shift, bits)
    ensures forall m: nat | Longs(bits) <= m < dst.Length :: dst[m] == old(dst[m])
  {
    hide Bit, At, Valid;
    var lim, off := Longs(bits), shift / 64;
    ghost var s := src[..];
    var k := 0;
    while off + k < lim
      invariant 0 <= k <= lim - off
      invariant forall m: nat | k <= m < src.Length :: src[m] == s[m]
      invariant forall m: nat | lim <= m < dst.Length :: dst[m] == old(dst[m])
      invariant forall m: nat, j: nat | m < k && j < 64 :: Bit(dst[m], j) == Valid(s, bits, 64 * m + j + shift)
    {
      dst[k] := RightStep(src, s, shift, bits, k);
      k := k + 1;
    }
    ClearWords(dst, lim - off, lim);
    RightBits(dst[..], s, shift, bits, k);
  }

  // From the words of the result to its bits
  lemma RightBits(d: seq<Word>, s: seq<Word>, shift: nat, bits: nat, k: nat)
    requires Longs(bits) <= |d| && k == Longs(bits) - shift / 64
    requires forall m: nat, j: nat | m < k && j < 64 :: Bit(d[m], j) == Valid(s, bits, 64 * m + j + shift)
    requires forall m: nat | k <= m < Longs(bits) :: d[m] == 0
    ensures IsRight(d, s, shift, bits)
  {
    hide Bit, At, Valid;
    forall i: nat | i < 64 * Longs(bits)
      ensures At(d, i) == Valid(s, bits, i + shift)
    {
      AtIndex(d, i);
      if i / 64 < k {
        assert 64 * (i / 64) + i % 64 + shift == i + shift;
      } else {
        ZeroBit(i % 64);
        PastTheEnd(s, bits, i + shift);
      }
    }
  }

  lemma PastTheEnd(s: seq<Word>, n: nat, i: nat)
    requires i >= n
    ensures !Valid(s, n, i)
  {
  }

  // ---------- left shift ----------

  lemma JoinLeft(w: Word, upper: Word, lower: Word, rem: nat, j: nat)
    requires rem < 64 && (rem == 0 ==> lower == 0) && j < 64
    requires w == Shr(lower, 64 - rem) | Shl(upper, rem)
    ensures Bit(w, j) == if j >= rem then Bit(upper, j - rem) else Bit(lower, j + 64 - rem)
  {
    hide Bit, Shl, Shr;
    OrIs(w, Shr(lower, 64 - rem), Shl(upper, rem), j);
    ShlBit(upper, rem, j);
    ShrBit(lower, 64 - rem, j);
    if j >= rem {
      HighBit(lower, j + 64 - rem);
    }
  }

  // The valid bits of word k moved to word k + off, before those past the end are cleared
  lemma LeftWord(s: seq<Word>, bits: nat, shift: nat, k: nat, upper: Word, lower: Word, word: Word)
    requires shift / 64 + k < Longs(bits) <= |s|
    requires upper == ValidWord(s, bits, k)
    requires shift % 64 != 0 && k > 0 ==> lower == s[k - 1]
    requires shift % 64 == 0 || k == 0 ==> lower == 0
    requires word == Shr(lower, 64 - shift % 64) | Shl(upper, shift % 64)
    ensures forall j: nat | j < 64 ::
      Bit(word, j) == (64 * (k + shift / 64) + j >= shift && Valid(s, bits, 64 * (k + shift / 64) + j - shift))
  {
    hide Bit, LowMask, Shl, Shr, At, Valid, ValidWord;
    var off, rem := shift / 64, shift % 64;
    forall j: nat | j < 64
      ensures Bit(word, j) == (64 * (k + off) + j >= shift && Valid(s, bits, 64 * (k + off) + j - shift))
    {
      JoinLeft(word, upper, lower, rem, j);
      if j >= rem {
        ValidWordBit(s, bits, k, j - rem);
        assert 64 * k + (j - rem) == 64 * (k + off) + j - shift;
      } else if k > 0 {
        ValidWordBit(s, bits, k - 1, j + 64 - rem);
        WholeWord(s, bits, k - 1);
        assert 64 * (k - 1) + (j + 64 - rem) == 64 * (k + off) + j - shift;
      } else {
        ZeroBit(j + 64 - rem);
      }
    }
  }

  lemma WholeWord(s: seq<Word>, n: nat, m: nat)
    requires m + 1 < Longs(n) <= |s|
    ensures ValidWord(s, n, m) == s[m]
  {
  }

  // The word below, of which a shift by whole words takes nothing
  method ReadLower(src: array<Word>, ghost s: seq<Word>, k: nat, rem: nat) returns (lower: Word)
    requires k < src.Length == |s| && (k > 0 ==> src[k - 1] == s[k - 1])
    ensures rem != 0 && k > 0 ==> lower == s[k - 1]
    ensures rem == 0 || k == 0 ==> lower == 0
  {
    if rem == 0 || k == 0 {
      return 0;
    }
    lower := src[k - 1];
  }

  // Clearing what a left shift has moved past the last valid bit
  method ClearPastEnd(ghost s: seq<Word>, bits: nat, ghost shift: nat, k: nat, joined: Word) returns (word: Word)
    requires k < Longs(bits)
    requires forall j: nat | j < 64 :: Bit(joined, j) == (64 * k + j >= shift && Valid(s, bits, 64 * k + j - shift))
    ensures forall j: nat | j < 64 :: Bit(word, j) == LeftAt(s, bits, shift, 64 * k + j)
  {
    hide Bit, LowMask, At;
    if bits % 64 == 0 || k != Longs(bits) - 1 {
      return joined;
    }
    word := joined & LowMask(bits % 64);
    forall j: nat | j < 64
      ensures Bit(word, j) == LeftAt(s, bits, shift, 64 * k + j)
    {
      LowIs(word, joined, bits % 64, j);
    }
  }

  // The loop body of ShiftLeft: word k + shift / 64 of the result
  method LeftStep(src: array<Word>, ghost s: seq<Word>, shift: nat, bits: nat, k: nat) returns (word: Word)
    requires shift / 64 + k < Longs(bits) <= src.Length == |s|
    requires forall m: nat | m <= k :: src[m] == s[m]
    ensures forall j: nat | j < 64 :: Bit(word, j) == LeftAt(s, bits, shift, 64 * (k + shift / 64) + j)
  {
    hide Bit, LowMask, Shl, Shr, At, Valid, ValidWord, LeftAt;
    var off, rem := shift / 64, shift % 64;
    var lower := ReadLower(src, s, k, rem);
    var upper := ReadWord(src, s, bits, k);
    var joined := Shr(lower, 64 - rem) | Shl(upper, rem);
    LeftWord(s, bits, shift, k, upper, lower, joined);
    word := ClearPastEnd(s, bits, shift, k + off, joined);
  }

  // __bitmap_shift_left
  method ShiftLeft(dst: array<Word>, src: array<Word>, shift: nat, bits: nat)
    requires Longs(bits) <= dst.Length && Longs(bits) <= src.Length
    requires shift / 64 <= Longs(bits)
    modifies dst
    ensures IsLeft(dst[..], old(src[..]), shift, bits)
    ensures forall m: nat | Longs(bits) <= m < dst.Length :: dst[m] == old(dst[m])
  {
    hide Bit, At, LeftAt;
    var lim, off := Longs(bits), shift / 64;
    ghost var s := src[..];
    var k := lim - off - 1;
    while k >= 0
      invariant -1 <= k < lim - off
      invariant forall m: nat | m <= k :: src[m] == s[m]
      invariant forall m: nat | lim <= m < dst.Length :: dst[m] == old(dst[m])
      invariant forall m: nat, j: nat | k + off < m < lim && j < 64 ::
        Bit(dst[m], j) == LeftAt(s, bits, shift, 64 * m + j)
    {
      dst[k + off] := LeftStep(src, s, shift, bits, k);
      k := k - 1;
    }
    ClearWords(dst, 0, off);
    LeftBits(dst[..], s, shift, bits);
  }

  lemma LeftBits(d: seq<Word>, s: seq<Word>, shift: nat, bits: nat)
    requires shift / 64 <= Longs(bits) <= |d|
    requires forall m: nat, j: nat | shift / 64 <= m < Longs(bits) && j < 64 ::
      Bit(d[m], j) == LeftAt(s, bits, shift, 64 * m + j)
    requires forall m: nat | m < shift / 64 :: d[m] == 0
    ensures IsLeft(d, s, shift, bits)
  {
    hide Bit, At;
    forall i: nat | i < 64 * Longs(bits)
      ensures At(d, i) == LeftAt(s, bits, shift, i)
    {
      AtIndex(d, i);
      if i / 64 < shift / 64 {
        ZeroBit(i % 64);
      }
    }
  }

  // ---------- what the shifts mean ----------

  // No unused bit is set, so the whole words hold the same number as the valid bits
  lemma WholeWords(d: seq<Word>, s: seq<Word>, shift: nat, n: nat)
    requires IsRight(d, s, shift, n) || IsLeft(d, s, shift, n)
    ensures Value(d, 64 * Longs(n)) == Value(d, n)
  {
    hide Digits, Pow2, At;
    var unused := 64 * Longs(n) - n;
    DigitsSplit(d, 0, n, unused);
    DigitsZero(d, n, unused);
  }

  // Shifting right divides by a power of two
  lemma RightDivides(d: seq<Word>, s: seq<Word>, shift: nat, n: nat)
    requires IsRight(d, s, shift, n)
    ensures Value(d, n) == Value(s, n) / Pow2(shift)
    ensures Value(d, 64 * Longs(n)) == Value(d, n)
  {
    hide Digits, Pow2, IsLeft, IsRight, At;
    WholeWords(d, s, shift, n);
    DigitsBound(s, 0, n);
    if shift >= n {
      RightGone(d, s, shift, n);
      Pow2Monotone(n, shift);
      QuotientAndRemainder(Value(s, n), Pow2(shift), 0, Value(s, n));
    } else {
      RightParts(d, s, shift, n);
      DigitsSplit(s, 0, shift, n - shift);
      DigitsBound(s, 0, shift);
      QuotientAndRemainder(Value(s, n), Pow2(shift), Value(d, n), Digits(s, 0, shift));
    }
  }

  lemma RightGone(d: seq<Word>, s: seq<Word>, shift: nat, n: nat)
    requires IsRight(d, s, shift, n) && shift >= n
    ensures Digits(d, 0, n) == 0
  {
    hide At, Digits;
    DigitsZero(d, 0, n);
  }

  lemma RightParts(d: seq<Word>, s: seq<Word>, shift: nat, n: nat)
    requires IsRight(d, s, shift, n) && shift < n
    ensures Digits(d, 0, n) == Digits(s, shift, n - shift)
  {
    hide At, Digits, Pow2;
    DigitsSplit(d, 0, n - shift, shift);
    DigitsZero(d, n - shift, shift);
    DigitsAgree(d, 0, s, shift, n - shift);
  }

  // Shifting left multiplies by a power of two, and drops what does not fit
  lemma LeftMultiplies(d: seq<Word>, s: seq<Word>, shift: nat, n: nat)
    requires IsLeft(d, s, shift, n)
    ensures Value(d, n) == Value(s, n) * Pow2(shift) % Pow2(n)
    ensures Value(d, 64 * Longs(n)) == Value(d, n)
  {
    hide Digits, Pow2, IsLeft, IsRight, At;
    WholeWords(d, s, shift, n);
    if shift >= n {
      LeftGone(d, s, shift, n);
      Pow2Sum(n, shift - n);
      Distribute(Value(s, n), 0, Pow2(n), Pow2(shift - n));
      QuotientAndRemainder(Value(s, n) * Pow2(shift), Pow2(n), Value(s, n) * Pow2(shift - n), 0);
    } else {
      LeftParts(d, s, shift, n);
      DigitsSplit(s, 0, n - shift, shift);
      DigitsBound(d, 0, n);
      Pow2Sum(n - shift, shift);
      Distribute(Digits(s, n - shift, shift), Digits(s, 0, n - shift), Pow2(n - shift), Pow2(shift));
      QuotientAndRemainder(Value(s, n) * Pow2(shift), Pow2(n), Digits(s, n - shift, shift), Value(d, n));
    }
  }

  lemma LeftGone(d: seq<Word>, s: seq<Word>, shift: nat, n: nat)
    requires IsLeft(d, s, shift, n) && shift >= n
    ensures Digits(d, 0, n) == 0
  {
    hide At, Digits;
    DigitsZero(d, 0, n);
  }

  lemma LeftParts(d: seq<Word>, s: seq<Word>, shift: nat, n: nat)
    requires IsLeft(d, s, shift, n) && shift < n
    ensures Digits(d, 0, n) == Pow2(shift) * Digits(s, 0, n - shift)
  {
    hide At, Digits, Pow2;
    DigitsSplit(d, 0, shift, n - shift);
    DigitsZero(d, 0, shift);
    DigitsAgree(d, shift, s, 0, n - shift);
  }

  lemma Distribute(high: nat, low: nat, p: nat, q: nat)
    ensures (low + p * high) * q == (p * q) * high + q * low
    ensures high * (p * q) == p * (high * q)
  {
  }

  // Shifting left and back right restores every bit that was not shifted out
  lemma LeftThenRight(s: seq<Word>, l: seq<Word>, r: seq<Word>, shift: nat, n: nat)
    requires IsLeft(l, s, shift, n) && IsRight(r, l, shift, n)
    ensures Bits(r, n) == set i | i in Bits(s, n) && i + shift < n
  {
    hide At;
  }
}
