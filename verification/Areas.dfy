/**
  Searching a bitmap for an aligned run of clear bits.
 */
module Areas {
  import opened Words
  import opened Bitops
  import opened Powers

  // __ALIGN_MASK on a position: (x + mask) & ~mask, for a mask 2^k - 1
  function AlignMask(x: nat, mask: nat): (r: nat)
  {
    (x + mask) - (x + mask) % (mask + 1)
  }

  // On machine words, & ~(2^k - 1) is rounding down to a multiple of 2^k
  lemma AndNotMaskRoundsDown(w: Word, r: Word, k: nat)
    requires k < 64 && r == w & !LowMask(k)
    ensures Value([r], 64) == Value([w], 64) - Value([w], 64) % Pow2(k)
  {
    hide Digits, Pow2, LowMask, Bit;
    DigitsSplit([w], 0, k, 64 - k);
    DigitsSplit([r], 0, k, 64 - k);
    DigitsBound([w], 0, k);
    MaskedParts(w, r, k);
    QuotientAndRemainder(Value([w], 64), Pow2(k), Digits([w], k, 64 - k), Digits([w], 0, k));
  }

  lemma MaskedParts(w: Word, r: Word, k: nat)
    requires k < 64 && r == w & !LowMask(k)
    ensures Digits([r], 0, k) == 0 && Digits([r], k, 64 - k) == Digits([w], k, 64 - k)
  {
    hide Bit, LowMask, Digits, At;
    forall i: nat | i < 64
      ensures At([r], i) == (i >= k && At([w], i))
    {
      AtIndex([r], i);
      AtIndex([w], i);
      AndNotIs(r, w, LowMask(k), i);
      LowMaskBit(k, i);
    }
    DigitsZero([r], 0, k);
    DigitsAgree([r], k, [w], k, 64 - k);
  }

  // The least multiple of mask + 1 at or after x
  lemma AlignMaskIsLeast(x: nat, mask: nat, c: nat)
    ensures x <= AlignMask(x, mask) <= x + mask && AlignMask(x, mask) % (mask + 1) == 0
    ensures c >= x && c % (mask + 1) == 0 ==> c >= AlignMask(x, mask)
  {
    var d := mask + 1;
    var a := x + mask;
    var q := a / d;
    assert a == d * q + a % d;
    QuotientAndRemainder(AlignMask(x, mask), d, q, 0);
    if c >= x && c % d == 0 {
      var e := c / d;
      assert c == d * e;
      if e < q {
        MulMonotone(d, e + 1, q);
      } else {
        MulMonotone(d, q, e);
      }
    }
  }

  ghost predicate Clear(s: seq<Word>, lo: nat, hi: nat) {
    forall i: nat | lo <= i < hi :: !At(s, i)
  }

  // An aligned area of nr clear bits at c, within size bits
  ghost predicate ZeroArea(s: seq<Word>, size: nat, nr: nat, mask: nat, c: nat) {
    c % (mask + 1) == 0 && c + nr <= size && Clear(s, c, c + nr)
  }

  ghost predicate NoArea(s: seq<Word>, size: nat, nr: nat, mask: nat, lo: nat, hi: nat) {
    forall c: nat | lo <= c < hi :: !ZeroArea(s, size, nr, mask, c)
  }

  // bitmap_find_next_zero_area: the least area at or after start, or a value beyond size
  method FindNextZeroArea(bitmap: array<Word>, size: nat, start: nat, nr: nat, alignMask: nat) returns (r: nat)
    requires Longs(size) <= bitmap.Length
    requires exists k: nat :: alignMask == Pow2(k) - 1
    ensures nr > 0 && r <= size ==> start <= r && ZeroArea(bitmap[..], size, nr, alignMask, r)
    ensures nr > 0 && r <= size ==> NoArea(bitmap[..], size, nr, alignMask, start, r)
    ensures nr > 0 && r > size ==> forall c: nat | c >= start :: !ZeroArea(bitmap[..], size, nr, alignMask, c)
    ensures nr == 0 ==>
      exists zero: nat :: FirstFrom(bitmap[..], false, size, start, zero) && r == AlignMask(zero, alignMask)
  {
    hide At, AlignMask, ZeroArea;
    ghost var s := bitmap[..];
    var from := start;
    while true
      invariant start <= from && NoArea(s, size, nr, alignMask, start, from) && (nr == 0 ==> from == start)
      decreases size - from
    {
      var zero := FindNextZeroBit(bitmap, size, from);
      var index := AlignMask(zero, alignMask);
      AlignMaskIsLeast(zero, alignMask, 0);
      if nr > 0 {
        SkipToAligned(s, size, nr, alignMask, start, from, zero);
      }
      var end := index + nr;
      if end > size {
        if nr > 0 {
          NoneFits(s, size, nr, alignMask, start, index);
        }
        return end;
      }
      var i := FindNextBit(bitmap, end, index);
      if i >= end {
        Found(s, size, nr, alignMask, index);
        return index;
      }
      SkipPastBit(s, size, nr, alignMask, start, index, i);
      from := i + 1;
    }
  }

  lemma SkipToAligned(s: seq<Word>, size: nat, nr: nat, mask: nat, start: nat, from: nat, zero: nat)
    requires nr >= 1 && start <= from && NoArea(s, size, nr, mask, start, from)
    requires FirstFrom(s, false, size, from, zero)
    ensures NoArea(s, size, nr, mask, start, AlignMask(zero, mask))
  {
    hide At, AlignMask;
    forall c: nat | start <= c < AlignMask(zero, mask)
      ensures !ZeroArea(s, size, nr, mask, c)
    {
      AlignMaskIsLeast(zero, mask, c);
      if from <= c < zero {
        assert At(s, c);
      }
    }
  }

  lemma SkipPastBit(s: seq<Word>, size: nat, nr: nat, mask: nat, start: nat, index: nat, i: nat)
    requires NoArea(s, size, nr, mask, start, index)
    requires index <= i < index + nr && At(s, i)
    ensures NoArea(s, size, nr, mask, start, i + 1)
  {
    hide At;
  }

  lemma NoneFits(s: seq<Word>, size: nat, nr: nat, mask: nat, start: nat, index: nat)
    requires NoArea(s, size, nr, mask, start, index) && index + nr > size
    ensures forall c: nat | c >= start :: !ZeroArea(s, size, nr, mask, c)
  {
    hide At;
  }

  lemma Found(s: seq<Word>, size: nat, nr: nat, mask: nat, index: nat)
    requires index % (mask + 1) == 0 && index + nr <= size
    requires FirstFrom(s, true, index + nr, index, index + nr)
    ensures ZeroArea(s, size, nr, mask, index)
  {
    hide At;
  }
}
