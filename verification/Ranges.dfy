/**
  Setting and clearing a range of bits, a word at a time.
 */
module Ranges {
  import opened Words
  import opened Bitops
  import opened Regions

  // The bits of the mask are those in [lo, hi)
  ghost predicate Shows(mask: Word, lo: int, hi: int) {
    forall j: nat | j < 64 :: Bit(mask, j) == (lo <= j < hi)
  }

  // BITMAP_FIRST_WORD_MASK
  method FirstWordMask(start: nat) returns (mask: Word)
    ensures Shows(mask, start % 64, 64)
  {
    hide Bit, Shl;
    mask := Shl(ONES, start % 64);
    forall j: nat | j < 64
      ensures Bit(mask, j) == (start % 64 <= j)
    {
      ShlBit(ONES, start % 64, j);
      if j >= start % 64 {
        OnesBit(j - start % 64);
      }
    }
  }

  // mask & BITMAP_LAST_WORD_MASK(size), when the last word is a partial one
  method WithLastWord(mask: Word, ghost lo: nat, size: nat) returns (r: Word)
    requires Shows(mask, lo, 64) && size % 64 != 0
    ensures Shows(r, lo, size % 64)
  {
    hide Bit, LowMask;
    r := mask & LowMask(size % 64);
    forall j: nat | j < 64
      ensures Bit(r, j) == (lo <= j < size % 64)
    {
      LowIs(r, mask, size % 64, j);
    }
  }

  lemma AllOnes()
    ensures Shows(ONES, 0, 64)
  {
    hide Bit;
    forall j: nat | j < 64
      ensures Bit(ONES, j)
    {
      OnesBit(j);
    }
  }

  // t is s with the bits in [start, pos) set, or cleared
  ghost predicate Filled(s: seq<Word>, t: seq<Word>, start: nat, pos: nat) {
    |t| == |s| && forall i: nat :: At(t, i) == (At(s, i) || start <= i < pos)
  }

  ghost predicate Emptied(s: seq<Word>, t: seq<Word>, start: nat, pos: nat) {
    |t| == |s| && forall i: nat :: At(t, i) == (At(s, i) && !(start <= i < pos))
  }

  // The next word of the range
  ghost predicate Piece(start: nat, pos: nat, next: nat, mask: Word) {
    && start <= pos < next <= 64 * (pos / 64 + 1)
    && Shows(mask, pos % 64, next - 64 * (pos / 64))
  }

  ghost predicate OnlyWord(t: seq<Word>, u: seq<Word>, p: nat) {
    |u| == |t| && p < |t| && forall m: nat | m < |t| && m != p :: u[m] == t[m]
  }

  lemma FilledOn(s: seq<Word>, t: seq<Word>, u: seq<Word>, start: nat, pos: nat, next: nat, mask: Word)
    requires Filled(s, t, start, pos) && Piece(start, pos, next, mask) && OnlyWord(t, u, pos / 64)
    requires WordOr(u[pos / 64], t[pos / 64], mask)
    ensures Filled(s, u, start, next)
  {
    hide Bit;
    forall i: nat
      ensures At(u, i) == (At(s, i) || start <= i < next)
    {
      assert At(t, i) == (At(s, i) || start <= i < pos);
      var j := i % 64;
      if i / 64 == pos / 64 {
        assert Bit(u[pos / 64], j) == (Bit(t[pos / 64], j) || Bit(mask, j));
      }
    }
  }

  lemma EmptiedOn(s: seq<Word>, t: seq<Word>, u: seq<Word>, start: nat, pos: nat, next: nat, mask: Word)
    requires Emptied(s, t, start, pos) && Piece(start, pos, next, mask) && OnlyWord(t, u, pos / 64)
    requires WordAndNot(u[pos / 64], t[pos / 64], mask)
    ensures Emptied(s, u, start, next)
  {
    hide Bit;
    forall i: nat
      ensures At(u, i) == (At(s, i) && !(start <= i < next))
    {
      assert At(t, i) == (At(s, i) && !(start <= i < pos));
      var j := i % 64;
      if i / 64 == pos / 64 {
        assert Bit(u[pos / 64], j) == (Bit(t[pos / 64], j) && !Bit(mask, j));
      }
    }
  }

  method BitmapSet(bitmap: array<Word>, start: nat, nr: nat)
    requires start + nr <= 64 * bitmap.Length
    modifies bitmap
    ensures forall i: nat :: At(bitmap[..], i) == (old(At(bitmap[..], i)) || start <= i < start + nr)
  {
    hide At, Bit, Shows, WordOr;
    ghost var s := bitmap[..];
    var size := start + nr;
    var p, left := start / 64, nr;
    var bitsToSet := 64 - start % 64;
    var mask := FirstWordMask(start);
    while left - bitsToSet >= 0
      invariant 0 <= left <= nr && p == (size - left) / 64 && bitsToSet == 64 - (size - left) % 64
      invariant Shows(mask, (size - left) % 64, 64)
      invariant Filled(s, bitmap[..], start, size - left)
      decreases left
    {
      ghost var t, pos := bitmap[..], size - left;
      OrInto(bitmap, p, mask);
      FilledOn(s, t, bitmap[..], start, pos, pos + bitsToSet, mask);
      left := left - bitsToSet;
      bitsToSet := 64;
      mask := ONES;
      AllOnes();
      p := p + 1;
    }
    if left != 0 {
      ghost var t, pos := bitmap[..], size - left;
      mask := WithLastWord(mask, pos % 64, size);
      OrInto(bitmap, p, mask);
      FilledOn(s, t, bitmap[..], start, pos, size, mask);
    }
  }

  method BitmapClear(bitmap: array<Word>, start: nat, nr: nat)
    requires start + nr <= 64 * bitmap.Length
    modifies bitmap
    ensures forall i: nat :: At(bitmap[..], i) == (old(At(bitmap[..], i)) && !(start <= i < start + nr))
  {
    hide At, Bit, Shows, WordAndNot;
    ghost var s := bitmap[..];
    var size := start + nr;
    var p, left := start / 64, nr;
    var bitsToClear := 64 - start % 64;
    var mask := FirstWordMask(start);
    while left - bitsToClear >= 0
      invariant 0 <= left <= nr && p == (size - left) / 64 && bitsToClear == 64 - (size - left) % 64
      invariant Shows(mask, (size - left) % 64, 64)
      invariant Emptied(s, bitmap[..], start, size - left)
      decreases left
    {
      ghost var t, pos := bitmap[..], size - left;
      AndNotInto(bitmap, p, mask);
      EmptiedOn(s, t, bitmap[..], start, pos, pos + bitsToClear, mask);
      left := left - bitsToClear;
      bitsToClear := 64;
      mask := ONES;
      AllOnes();
      p := p + 1;
    }
    if left != 0 {
      ghost var t, pos := bitmap[..], size - left;
      mask := WithLastWord(mask, pos % 64, size);
      AndNotInto(bitmap, p, mask);
      EmptiedOn(s, t, bitmap[..], start, pos, size, mask);
    }
  }
}
