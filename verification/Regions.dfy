/**
  The power-of-two regions of bitmap.c, and the allocator they make.
 */
module Regions {
  import opened Words
  import opened Bitops
  import opened Powers

  // ---------- the mask of a region within one word ----------

  lemma RunAt(s: bv7, one: Word, run: Word, k: bv7)
    requires s < 64 && k < 64 && one == (1 as Word) << s && run == one + (one - 1)
    ensures BitAt(run, k) == (k <= s)
  {
    RunRaw(s, k);
  }

  lemma RunRaw(s: bv7, k: bv7)
    requires s < 64 && k < 64
    ensures ((((1 as Word) << s) + (((1 as Word) << s) - 1)) >> k) & 1 == if k <= s then 1 else 0
  {
  }

  // mask = 1UL << (nbitsinlong - 1); mask += mask - 1
  function Run(nbits: nat): Word
    requires 0 < nbits <= 64
  {
    var mask := Shl(1, nbits - 1);
    mask + (mask - 1)
  }

  lemma RunBit(nbits: nat, i: nat)
    requires 0 < nbits <= 64 && i < 64
    ensures Bit(Run(nbits), i) == (i < nbits)
  {
    hide BitAt, Index;
    IndexBound(i);
    IndexBound(nbits - 1);
    IndexOrder(nbits - 1, i);
    RunAt(Index(nbits - 1), Shl(1, nbits - 1), Run(nbits), Index(i));
  }

  function RegionMask(nbits: nat, offset: nat): Word
    requires 0 < nbits <= 64 && offset < 64
  {
    Shl(Run(nbits), offset)
  }

  lemma RegionMaskBit(nbits: nat, offset: nat, i: nat)
    requires 0 < nbits <= 64 && offset < 64 && i < 64
    ensures Bit(RegionMask(nbits, offset), i) == (offset <= i < offset + nbits)
  {
    hide Bit, Run, Shl;
    ShlBit(Run(nbits), offset, i);
    if i >= offset {
      RunBit(nbits, i - offset);
    }
  }

  // ---------- the words of a region ----------

  function Size(order: nat): (r: nat)
    ensures r > 0
  {
    Pow2(order)
  }

  // A region of order 0 is one bit, and each order doubles the one before
  lemma SizeDoubles(order: nat)
    ensures Size(0) == 1 && Size(order + 1) == 2 * Size(order)
  {
  }

  ghost predicate Aligned(pos: nat, order: nat) {
    pos % Size(order) == 0
  }

  ghost predicate Within(pos: nat, order: nat, i: nat) {
    pos <= i < pos + Size(order)
  }

  // Either the region lies in one word, or it consists of whole words
  lemma {:induction false} Shape(pos: nat, order: nat)
    requires Aligned(pos, order)
    ensures Size(order) <= 64 ==> pos % 64 + Size(order) <= 64
    ensures Size(order) >= 64 ==> pos % 64 == 0 && Size(order) % 64 == 0
  {
    if order >= 6 {
      Pow2Sum(6, order - 6);
      assert Pow2(6) == 64;
      Multiples(pos, Pow2(order - 6));
    } else {
      Pow2Small(order);
      SmallShape(pos, Size(order));
    }
  }

  lemma Pow2Small(order: nat)
    requires order < 6
    ensures Pow2(order) in {1, 2, 4, 8, 16, 32}
  {
    assert Pow2(0) == 1;
    assert Pow2(2) == 4;
    assert Pow2(4) == 16;
  }

  lemma SmallShape(pos: nat, size: nat)
    requires size in {1, 2, 4, 8, 16, 32} && pos % size == 0
    ensures pos % 64 + size <= 64
  {
  }

  lemma Multiples(pos: nat, q: nat)
    requires q > 0 && pos % (64 * q) == 0
    ensures pos % 64 == 0 && (64 * q) % 64 == 0
  {
    var k := pos / (64 * q);
    assert pos == (64 * q) * k == 64 * (q * k);
    QuotientAndRemainder(pos, 64, q * k, 0);
    QuotientAndRemainder(64 * q, 64, q, 0);
  }

  function Least(a: nat, b: nat): nat {
    if a < b then a else b
  }

  // The bits that __reg_op acts on: in each of the words it visits, those that the mask shows
  ghost predicate Touched(pos: nat, order: nat, i: nat) {
    && pos / 64 <= i / 64 < pos / 64 + Longs(Size(order))
    && pos % 64 <= i % 64 < pos % 64 + Least(Size(order), 64)
  }

  lemma MaskShowsTouched(pos: nat, order: nat, mask: Word, m: nat, j: nat)
    requires pos / 64 <= m < pos / 64 + Longs(Size(order)) && j < 64
    requires mask == RegionMask(Least(Size(order), 64), pos % 64)
    ensures Bit(mask, j) == Touched(pos, order, 64 * m + j)
  {
    hide Bit, RegionMask, Size;
    RegionMaskBit(Least(Size(order), 64), pos % 64, j);
    WordAndBit(m, j);
  }

  lemma OthersUntouched(pos: nat, order: nat, m: nat, j: nat)
    requires j < 64 && (m < pos / 64 || m >= pos / 64 + Longs(Size(order)))
    ensures !Touched(pos, order, 64 * m + j)
  {
    hide Size;
    WordAndBit(m, j);
  }

  lemma WordAndBit(m: nat, j: nat)
    requires j < 64
    ensures (64 * m + j) / 64 == m && (64 * m + j) % 64 == j
  {
  }

  ghost predicate RegionFree(s: seq<Word>, pos: nat, order: nat) {
    forall i: nat | Touched(pos, order, i) :: !At(s, i)
  }

  // The region does not cross into a word that __reg_op does not visit
  ghost predicate Straight(pos: nat, order: nat) {
    pos % 64 + Least(Size(order), 64) <= 64
  }

  lemma AlignedIsStraight(pos: nat, order: nat)
    requires Aligned(pos, order)
    ensures Straight(pos, order)
  {
    hide Size;
    Shape(pos, order);
  }

  lemma {:induction false} WholeWords(order: nat)
    ensures Size(order) < 64 || Size(order) % 64 == 0
  {
    if order >= 6 {
      Pow2Sum(6, order - 6);
      assert Pow2(6) == 64;
      QuotientAndRemainder(Size(order), 64, Pow2(order - 6), 0);
    } else {
      Pow2Small(order);
    }
  }

  lemma StraightBit(pos: nat, order: nat, i: nat)
    requires Straight(pos, order)
    ensures Touched(pos, order, i) <==> Within(pos, order, i)
  {
    hide Size;
    WholeWords(order);
  }

  // __reg_op acts on exactly the bits from pos on, if and only if they are straight
  lemma ActsOnRegion(pos: nat, order: nat)
    ensures (forall i: nat :: Touched(pos, order, i) <==> Within(pos, order, i)) <==> Straight(pos, order)
  {
    hide Size, Touched;
    if Straight(pos, order) {
      forall i: nat
        ensures Touched(pos, order, i) <==> Within(pos, order, i)
      {
        StraightBit(pos, order, i);
      }
    } else {
      LastUntouched(pos, order);
      assert Within(pos, order, pos + Size(order) - 1);
    }
  }

  lemma LastUntouched(pos: nat, order: nat)
    requires !Straight(pos, order)
    ensures !Touched(pos, order, pos + Size(order) - 1)
  {
    hide Size;
    WholeWords(order);
  }

  datatype RegOp = IsFree | Alloc | Release

  // __reg_op
  method ApplyRegOp(bitmap: array<Word>, pos: nat, order: nat, op: RegOp) returns (ret: nat)
    requires pos / 64 + Longs(Size(order)) <= bitmap.Length
    modifies bitmap
    ensures op.IsFree? ==> bitmap[..] == old(bitmap[..]) && ret == if RegionFree(bitmap[..], pos, order) then 1 else 0
    ensures op.Alloc? ==> forall i: nat :: At(bitmap[..], i) == (old(At(bitmap[..], i)) || Touched(pos, order, i))
    ensures op.Release? ==> forall i: nat :: At(bitmap[..], i) == (old(At(bitmap[..], i)) && !Touched(pos, order, i))
    ensures !op.IsFree? ==> ret == 0
  {
    hide Bit, RegionMask, Size, At, Touched;
    var nbits := Size(order);
    var index := pos / 64;
    var nlongs := Longs(nbits);
    var mask := RegionMask(Least(nbits, 64), pos % 64);
    match op {
      case IsFree =>
        ret := ScanRegion(bitmap, pos, order, index, nlongs, mask);
      case Alloc =>
        FillRegion(bitmap, pos, order, index, nlongs, mask);
        ret := 0;
      case Release =>
        ClearRegion(bitmap, pos, order, index, nlongs, mask);
        ret := 0;
    }
  }

  // bitmap[k] & mask, as a condition
  method Meets(w: Word, mask: Word) returns (hit: bool)
    ensures hit <==> exists j: nat :: j < 64 && Bit(w, j) && Bit(mask, j)
  {
    hide Bit;
    var both := w & mask;
    if both != 0 {
      var j := NonZero(both);
      AndIs(both, w, mask, j);
      return true;
    }
    forall j: nat | j < 64
      ensures !(Bit(w, j) && Bit(mask, j))
    {
      AndIs(both, w, mask, j);
      ZeroBit(j);
    }
    hit := false;
  }

  ghost predicate WordOr(t: Word, s: Word, mask: Word) {
    forall j: nat | j < 64 :: Bit(t, j) == (Bit(s, j) || Bit(mask, j))
  }

  ghost predicate WordAndNot(t: Word, s: Word, mask: Word) {
    forall j: nat | j < 64 :: Bit(t, j) == (Bit(s, j) && !Bit(mask, j))
  }

  // bitmap[k] |= mask
  method OrInto(bitmap: array<Word>, k: nat, mask: Word)
    requires k < bitmap.Length
    modifies bitmap
    ensures WordOr(bitmap[k], old(bitmap[k]), mask)
    ensures forall m: nat | m < bitmap.Length && m != k :: bitmap[m] == old(bitmap[m])
  {
    hide Bit;
    var w := bitmap[k] | mask;
    forall j: nat | j < 64
      ensures Bit(w, j) == (Bit(bitmap[k], j) || Bit(mask, j))
    {
      OrIs(w, bitmap[k], mask, j);
    }
    bitmap[k] := w;
  }

  // bitmap[k] &= ~mask
  method AndNotInto(bitmap: array<Word>, k: nat, mask: Word)
    requires k < bitmap.Length
    modifies bitmap
    ensures WordAndNot(bitmap[k], old(bitmap[k]), mask)
    ensures forall m: nat | m < bitmap.Length && m != k :: bitmap[m] == old(bitmap[m])
  {
    hide Bit;
    var w := bitmap[k] & !mask;
    forall j: nat | j < 64
      ensures Bit(w, j) == (Bit(bitmap[k], j) && !Bit(mask, j))
    {
      AndNotIs(w, bitmap[k], mask, j);
    }
    bitmap[k] := w;
  }

  method ScanRegion(bitmap: array<Word>, ghost pos: nat, ghost order: nat, index: nat, nlongs: nat, mask: Word)
    returns (ret: nat)
    requires index == pos / 64 && nlongs == Longs(Size(order))
    requires index + nlongs <= bitmap.Length && mask == RegionMask(Least(Size(order), 64), pos % 64)
    ensures ret == if RegionFree(bitmap[..], pos, order) then 1 else 0
  {
    hide Bit, RegionMask, Size, At, Touched;
    for i := 0 to nlongs
      invariant forall m: nat, j: nat | index <= m < index + i && j < 64 && Bit(mask, j) :: !Bit(bitmap[m], j)
    {
      var hit := Meets(bitmap[index + i], mask);
      if hit {
        ghost var j: nat :| j < 64 && Bit(bitmap[index + i], j) && Bit(mask, j);
        AtWord(bitmap[..], index + i, j);
        MaskShowsTouched(pos, order, mask, index + i, j);
        return 0;
      }
    }
    forall i: nat | Touched(pos, order, i)
      ensures !At(bitmap[..], i)
    {
      assert i == 64 * (i / 64) + i % 64;
      if i / 64 < index || i / 64 >= index + nlongs {
        OthersUntouched(pos, order, i / 64, i % 64);
      } else {
        MaskShowsTouched(pos, order, mask, i / 64, i % 64);
        AtIndex(bitmap[..], i);
      }
    }
    ret := 1;
  }

  method FillRegion(bitmap: array<Word>, ghost pos: nat, ghost order: nat, index: nat, nlongs: nat, mask: Word)
    requires index == pos / 64 && nlongs == Longs(Size(order))
    requires index + nlongs <= bitmap.Length && mask == RegionMask(Least(Size(order), 64), pos % 64)
    modifies bitmap
    ensures forall i: nat :: At(bitmap[..], i) == (old(At(bitmap[..], i)) || Touched(pos, order, i))
  {
    hide RegionMask, Size, At, Touched, WordOr;
    ghost var s := bitmap[..];
    for i := 0 to nlongs
      invariant forall m: nat | m < bitmap.Length && !(index <= m < index + i) :: bitmap[m] == s[m]
      invariant forall m: nat | index <= m < index + i :: WordOr(bitmap[m], s[m], mask)
    {
      OrInto(bitmap, index + i, mask);
    }
    FilledBits(s, bitmap[..], pos, order, mask);
  }

  lemma FilledBits(s: seq<Word>, t: seq<Word>, pos: nat, order: nat, mask: Word)
    requires pos / 64 + Longs(Size(order)) <= |s| == |t|
    requires mask == RegionMask(Least(Size(order), 64), pos % 64)
    requires forall m: nat | m < |s| && !(pos / 64 <= m < pos / 64 + Longs(Size(order))) :: t[m] == s[m]
    requires forall m: nat | pos / 64 <= m < pos / 64 + Longs(Size(order)) :: WordOr(t[m], s[m], mask)
    ensures forall i: nat :: At(t, i) == (At(s, i) || Touched(pos, order, i))
  {
    hide Bit, RegionMask, Size, Touched;
    forall i: nat
      ensures At(t, i) == (At(s, i) || Touched(pos, order, i))
    {
      var m, j := i / 64, i % 64;
      assert i == 64 * m + j;
      if pos / 64 <= m < pos / 64 + Longs(Size(order)) {
        MaskShowsTouched(pos, order, mask, m, j);
        assert WordOr(t[m], s[m], mask);
      } else {
        OthersUntouched(pos, order, m, j);
      }
    }
  }

  method ClearRegion(bitmap: array<Word>, ghost pos: nat, ghost order: nat, index: nat, nlongs: nat, mask: Word)
    requires index == pos / 64 && nlongs == Longs(Size(order))
    requires index + nlongs <= bitmap.Length && mask == RegionMask(Least(Size(order), 64), pos % 64)
    modifies bitmap
    ensures forall i: nat :: At(bitmap[..], i) == (old(At(bitmap[..], i)) && !Touched(pos, order, i))
  {
    hide RegionMask, Size, At, Touched, WordAndNot;
    ghost var s := bitmap[..];
    for i := 0 to nlongs
      invariant forall m: nat | m < bitmap.Length && !(index <= m < index + i) :: bitmap[m] == s[m]
      invariant forall m: nat | index <= m < index + i :: WordAndNot(bitmap[m], s[m], mask)
    {
      AndNotInto(bitmap, index + i, mask);
    }
    ClearedBits(s, bitmap[..], pos, order, mask);
  }

  lemma ClearedBits(s: seq<Word>, t: seq<Word>, pos: nat, order: nat, mask: Word)
    requires pos / 64 + Longs(Size(order)) <= |s| == |t|
    requires mask == RegionMask(Least(Size(order), 64), pos % 64)
    requires forall m: nat | m < |s| && !(pos / 64 <= m < pos / 64 + Longs(Size(order))) :: t[m] == s[m]
    requires forall m: nat | pos / 64 <= m < pos / 64 + Longs(Size(order)) :: WordAndNot(t[m], s[m], mask)
    ensures forall i: nat :: At(t, i) == (At(s, i) && !Touched(pos, order, i))
  {
    hide Bit, RegionMask, Size, Touched;
    forall i: nat
      ensures At(t, i) == (At(s, i) && !Touched(pos, order, i))
    {
      var m, j := i / 64, i % 64;
      assert i == 64 * m + j;
      if pos / 64 <= m < pos / 64 + Longs(Size(order)) {
        MaskShowsTouched(pos, order, mask, m, j);
        assert WordAndNot(t[m], s[m], mask);
      } else {
        OthersUntouched(pos, order, m, j);
      }
    }
  }
}
