/**
  Bit numbers over an array of words: single bits, and the searches of bitops.c.
 */
module Bitops {
  import opened Words

  // Bit i of the words s; false beyond their end
  predicate At(s: seq<Word>, i: nat) {
    i / 64 < |s| && Bit(s[i / 64], i % 64)
  }

  // The valid bits of a bitmap of n bits
  ghost function Bits(s: seq<Word>, n: nat): set<nat> {
    set i: nat | i < n && At(s, i)
  }

  // BITS_TO_LONGS
  function Longs(n: nat): nat {
    (n + 63) / 64
  }

  lemma AtWord(s: seq<Word>, k: nat, j: nat)
    requires k < |s| && j < 64
    ensures At(s, 64 * k + j) == Bit(s[k], j)
  {
    assert (64 * k + j) / 64 == k && (64 * k + j) % 64 == j;
  }

  lemma AtIndex(s: seq<Word>, i: nat)
    requires i < 64 * |s|
    ensures At(s, i) == Bit(s[i / 64], i % 64)
  {
  }

  // ---------- single bits ----------

  method SetBit(nr: nat, addr: array<Word>)
    requires nr < 64 * addr.Length
    modifies addr
    ensures forall i: nat :: At(addr[..], i) == (i == nr || old(At(addr[..], i)))
  {
    hide Bit, Shl;
    var mask := Shl(1, nr % 64);
    addr[nr / 64] := addr[nr / 64] | mask;
    forall i: nat
      ensures At(addr[..], i) == (i == nr || old(At(addr[..], i)))
    {
      if i / 64 == nr / 64 {
        OneHotBit(nr % 64, i % 64);
        OrIs(addr[nr / 64], old(addr[nr / 64]), mask, i % 64);
      }
    }
  }

  method ClearBit(nr: nat, addr: array<Word>)
    requires nr < 64 * addr.Length
    modifies addr
    ensures forall i: nat :: At(addr[..], i) == (i != nr && old(At(addr[..], i)))
  {
    hide Bit, Shl;
    var mask := Shl(1, nr % 64);
    addr[nr / 64] := addr[nr / 64] & !mask;
    forall i: nat
      ensures At(addr[..], i) == (i != nr && old(At(addr[..], i)))
    {
      if i / 64 == nr / 64 {
        OneHotBit(nr % 64, i % 64);
        AndNotIs(addr[nr / 64], old(addr[nr / 64]), mask, i % 64);
      }
    }
  }

  // Setting one valid bit adds it to the set of bits
  lemma AddedBit(s: seq<Word>, t: seq<Word>, n: nat, nr: nat)
    requires nr < n && forall i: nat :: At(t, i) == (i == nr || At(s, i))
    ensures Bits(t, n) == Bits(s, n) + {nr}
  {
    hide At;
  }

  // memset of the words [lo, hi)
  method ClearWords(dst: array<Word>, lo: nat, hi: nat)
    requires lo <= hi <= dst.Length
    modifies dst
    ensures forall m: nat | m < dst.Length :: dst[m] == if lo <= m < hi then 0 else old(dst[m])
  {
    forall m | lo <= m < hi {
      dst[m] := 0;
    }
  }

  // bitmap_zero
  method BitmapZero(dst: array<Word>, nbits: nat)
    requires Longs(nbits) <= dst.Length
    modifies dst
    ensures forall i: nat | i < 64 * Longs(nbits) :: !At(dst[..], i)
    ensures forall m: nat | Longs(nbits) <= m < dst.Length :: dst[m] == old(dst[m])
    ensures Bits(dst[..], nbits) == {}
  {
    hide Bit, At;
    ClearWords(dst, 0, Longs(nbits));
    forall i: nat | i < 64 * Longs(nbits)
      ensures !At(dst[..], i)
    {
      AtIndex(dst[..], i);
      ZeroBit(i % 64);
    }
  }

  // The 32-bit unit nr >> 5 of addr, on a little-endian machine
  function HalfWord(s: seq<Word>, h: nat): Word
    requires h / 2 < |s|
  {
    if h % 2 == 0 then s[h / 2] & 0xFFFF_FFFF else Shr(s[h / 2], 32)
  }

  method TestBit(nr: nat, addr: array<Word>) returns (b: bool)
    requires nr < 64 * addr.Length
    ensures b == At(addr[..], nr)
  {
    hide Bit, Shl, HalfWord;
    assert nr / 32 / 2 == nr / 64;
    var half := HalfWord(addr[..], nr / 32);
    var mask := Shl(1, nr % 32);
    var both := mask & half;
    b := both != 0;
    HalfWordBit(addr[..], nr);
    OneHotBit(nr % 32, nr % 32);
    AndIs(both, mask, half, nr % 32);
    if b {
      var i := NonZero(both);
      AndIs(both, mask, half, i);
      OneHotBit(nr % 32, i);
    } else {
      ZeroBit(nr % 32);
    }
  }

  lemma HalfWordBit(s: seq<Word>, nr: nat)
    requires nr / 64 < |s|
    ensures nr / 32 / 2 < |s| && Bit(HalfWord(s, nr / 32), nr % 32) == At(s, nr)
  {
    hide Bit, Shr, At, HalfWord;
    AtIndex(s, nr);
    assert nr / 32 / 2 == nr / 64;
    if nr / 32 % 2 == 0 {
      assert nr % 64 == nr % 32;
      LowHalf(s, nr / 32, nr % 32);
    } else {
      assert nr % 64 == nr % 32 + 32;
      HighHalf(s, nr / 32, nr % 32);
    }
  }

  lemma LowHalf(s: seq<Word>, h: nat, i: nat)
    requires h / 2 < |s| && h % 2 == 0 && i < 32
    ensures Bit(HalfWord(s, h), i) == Bit(s[h / 2], i)
  {
    hide Bit;
    LowHalfBit(i);
    AndIs(HalfWord(s, h), s[h / 2], 0xFFFF_FFFF, i);
  }

  lemma HighHalf(s: seq<Word>, h: nat, i: nat)
    requires h / 2 < |s| && h % 2 == 1 && i < 32
    ensures Bit(HalfWord(s, h), i) == Bit(s[h / 2], i + 32)
  {
    hide Bit, Shr;
    ShrBit(s[h / 2], 32, i);
  }

  lemma LowHalfBit(i: nat)
    requires i < 32
    ensures Bit(0xFFFF_FFFF, i)
  {
    IndexOrder(i, 32);
    IndexAsNat(32);
    SameIndex(32, 32);
    LowHalfAt(Index(i));
  }

  lemma LowHalfAt(k: bv7)
    requires k < 32
    ensures BitAt(0xFFFF_FFFF, k)
  {
  }

  // ---------- searches ----------

  // r is the least i >= offset below size with bit i equal to on, and size if there is none
  ghost predicate FirstFrom(s: seq<Word>, on: bool, size: nat, offset: nat, r: nat) {
    if offset >= size then r == size
    else
      && offset <= r <= size
      && (forall i: nat | offset <= i < r :: At(s, i) != on)
      && (r < size ==> At(s, r) == on)
  }

  // tmp shows, as set bits, the hits at or after offset in the 64 bits from base on
  ghost predicate Window(s: seq<Word>, on: bool, base: nat, offset: nat, tmp: Word) {
    forall j: nat | j < 64 :: Bit(tmp, j) == (base + j >= offset && At(s, base + j) == on)
  }

  ghost predicate NoneBefore(s: seq<Word>, on: bool, offset: nat, base: nat) {
    forall i: nat | offset <= i < base :: At(s, i) != on
  }

  // find_next_bit
  method FindNextBit(addr: array<Word>, size: nat, offset: nat) returns (r: nat)
    requires Longs(size) <= addr.Length
    ensures FirstFrom(addr[..], true, size, offset, r)
  {
    hide Bit, At, NoneBefore;
    if offset >= size {
      return size;
    }
    var p := offset / 64;
    var result := offset - offset % 64;
    NothingSkipped(addr[..], true, offset, result);
    if offset % 64 == 0 {
      r := ScanWords(addr, size, offset, p, result);
    } else {
      r := SearchFromMiddle(addr, size, offset, p, result);
    }
  }

  method FirstWord(addr: array<Word>, offset: nat, p: nat) returns (tmp: Word)
    requires p < addr.Length && p == offset / 64 && offset % 64 != 0
    ensures Window(addr[..], true, 64 * p, offset, tmp)
  {
    hide Bit, Shl, At, Window;
    tmp := addr[p] & Shl(ONES, offset % 64);
    WindowFrom(addr[..], p, offset, tmp);
  }

  // The first word, of which only the bits from offset on count
  method SearchFromMiddle(addr: array<Word>, size: nat, offset: nat, p: nat, result: nat) returns (r: nat)
    requires Longs(size) <= addr.Length && offset < size
    requires p == offset / 64 && result == offset - offset % 64 && offset % 64 != 0
    requires NoneBefore(addr[..], true, offset, result)
    ensures FirstFrom(addr[..], true, size, offset, r)
  {
    hide Bit, At, Window, NoneBefore, FirstFrom;
    var tmp := FirstWord(addr, offset, p);
    if size - result < 64 {
      r := FoundFirst(addr[..], size, offset, tmp, result, size - result);
    } else {
      if tmp != 0 {
        r := FoundMiddle(addr[..], size, offset, tmp, result);
      } else {
        SkipWord(addr[..], true, result, offset, tmp);
        r := ScanWords(addr, size, offset, p + 1, result + 64);
      }
    }
  }

  // find_first_bit
  method FindFirstBit(addr: array<Word>, size: nat) returns (r: nat)
    requires Longs(size) <= addr.Length
    ensures FirstFrom(addr[..], true, size, 0, r)
  {
    hide Bit, At;
    if size == 0 {
      return 0;
    }
    r := ScanWords(addr, size, 0, 0, 0);
  }

  // The loop over whole words that both searches end with, and the last partial word
  method ScanWords(addr: array<Word>, size: nat, ghost offset: nat, p0: nat, result0: nat) returns (r: nat)
    requires Longs(size) <= addr.Length && result0 == 64 * p0 && offset <= result0 <= size && offset < size
    requires NoneBefore(addr[..], true, offset, result0)
    ensures FirstFrom(addr[..], true, size, offset, r)
  {
    hide Bit, At, Window, NoneBefore;
    var p, result, left := p0, result0, size - result0;
    while left >= 64
      invariant result == 64 * p && result + left == size && offset <= result && left >= 0
      invariant NoneBefore(addr[..], true, offset, result)
    {
      var tmp := addr[p];
      WindowWhole(addr[..], p, offset, tmp);
      if tmp != 0 {
        r := FoundMiddle(addr[..], size, offset, tmp, result);
        return;
      }
      SkipWord(addr[..], true, result, offset, tmp);
      p := p + 1;
      result := result + 64;
      left := left - 64;
    }
    if left == 0 {
      NoneFound(addr[..], true, size, offset);
      return result;
    }
    WindowWhole(addr[..], p, offset, addr[p]);
    r := FoundFirst(addr[..], size, offset, addr[p], result, left);
  }

  // Label found_first: only the low bits of tmp are within the bitmap
  method FoundFirst(ghost s: seq<Word>, ghost size: nat, ghost offset: nat, tmp: Word, result: nat, left: nat)
    returns (r: nat)
    requires 0 < left < 64 && result + left == size && offset < size
    requires NoneBefore(s, true, offset, result) && Window(s, true, result, offset, tmp)
    ensures FirstFrom(s, true, size, offset, r)
  {
    hide Bit, Shr, At;
    var low := tmp & Shr(ONES, 64 - left);
    forall j: nat | j < 64
      ensures Bit(low, j) == (j < left && Bit(tmp, j))
    {
      AndIs(low, tmp, Shr(ONES, 64 - left), j);
      ShrBit(ONES, 64 - left, j);
      OnesBit(j + 64 - left);
    }
    if low == 0 {
      forall j: nat | j < left
        ensures !Bit(tmp, j)
      {
        ZeroBit(j);
      }
      forall i: nat | offset <= i < size
        ensures !At(s, i)
      {
        if i >= result {
          assert !Bit(tmp, i - result);
        }
      }
      return result + left;
    }
    var num := Ffs(low);
    LowestHit(s, true, result, offset, tmp, num);
    r := result + num;
  }

  // Label found_middle: the answer is the lowest bit of tmp
  method FoundMiddle(ghost s: seq<Word>, ghost size: nat, ghost offset: nat, tmp: Word, result: nat) returns (r: nat)
    requires result + 64 <= size && offset < size && tmp != 0
    requires NoneBefore(s, true, offset, result) && Window(s, true, result, offset, tmp)
    ensures FirstFrom(s, true, size, offset, r)
  {
    hide Bit, At;
    var num := Ffs(tmp);
    LowestHit(s, true, result, offset, tmp, num);
    r := result + num;
  }

  lemma NothingSkipped(s: seq<Word>, on: bool, offset: nat, base: nat)
    requires base <= offset
    ensures NoneBefore(s, on, offset, base)
  {
  }

  lemma NoneFound(s: seq<Word>, on: bool, size: nat, offset: nat)
    requires offset < size && NoneBefore(s, on, offset, size)
    ensures FirstFrom(s, on, size, offset, size)
  {
    hide At;
  }

  lemma LowestHit(s: seq<Word>, on: bool, base: nat, offset: nat, tmp: Word, num: nat)
    requires num < 64 && Bit(tmp, num) && forall j: nat | j < num :: !Bit(tmp, j)
    requires NoneBefore(s, on, offset, base) && Window(s, on, base, offset, tmp)
    ensures offset <= base + num && At(s, base + num) == on && NoneBefore(s, on, offset, base + num)
  {
    hide Bit, At;
    forall i: nat | offset <= i < base + num
      ensures At(s, i) != on
    {
      if i >= base {
        assert !Bit(tmp, i - base);
      }
    }
  }

  lemma SkipWord(s: seq<Word>, on: bool, base: nat, offset: nat, tmp: Word)
    requires tmp == 0
    requires NoneBefore(s, on, offset, base) && Window(s, on, base, offset, tmp)
    ensures NoneBefore(s, on, offset, base + 64)
  {
    hide Bit, At;
    forall i: nat | offset <= i < base + 64
      ensures At(s, i) != on
    {
      if i >= base {
        ZeroBit(i - base);
        assert !Bit(tmp, i - base);
      }
    }
  }

  lemma WindowFrom(s: seq<Word>, p: nat, offset: nat, tmp: Word)
    requires p < |s| && p == offset / 64 && tmp == s[p] & Shl(ONES, offset % 64)
    ensures Window(s, true, 64 * p, offset, tmp)
  {
    hide Bit, Shl, At;
    forall j: nat | j < 64
      ensures Bit(tmp, j) == (64 * p + j >= offset && At(s, 64 * p + j))
    {
      AtWord(s, p, j);
      MaskedFrom(tmp, s[p], offset % 64, j);
    }
  }

  lemma MaskedFrom(tmp: Word, w: Word, off: nat, j: nat)
    requires off < 64 && tmp == w & Shl(ONES, off) && j < 64
    ensures Bit(tmp, j) == (j >= off && Bit(w, j))
  {
    hide Bit, Shl;
    AndIs(tmp, w, Shl(ONES, off), j);
    ShlBit(ONES, off, j);
    if j >= off {
      OnesBit(j - off);
    }
  }

  lemma WindowWhole(s: seq<Word>, p: nat, offset: nat, tmp: Word)
    requires p < |s| && offset <= 64 * p && tmp == s[p]
    ensures Window(s, true, 64 * p, offset, tmp)
  {
    hide Bit, At;
    forall j: nat | j < 64
      ensures Bit(tmp, j) == (64 * p + j >= offset && At(s, 64 * p + j))
    {
      AtWord(s, p, j);
    }
  }

  // ---------- searches for a clear bit: the windows show ~tmp ----------

  // find_next_zero_bit
  method FindNextZeroBit(addr: array<Word>, size: nat, offset: nat) returns (r: nat)
    requires Longs(size) <= addr.Length
    ensures FirstFrom(addr[..], false, size, offset, r)
  {
    hide Bit, At, NoneBefore;
    if offset >= size {
      return size;
    }
    var p := offset / 64;
    var result := offset - offset % 64;
    NothingSkipped(addr[..], false, offset, result);
    if offset % 64 == 0 {
      r := ScanZeroWords(addr, size, offset, p, result);
    } else {
      r := SearchFromZeroMiddle(addr, size, offset, p, result);
    }
  }

  method ZeroFirstWord(addr: array<Word>, offset: nat, p: nat) returns (tmp: Word)
    requires p < addr.Length && p == offset / 64 && offset % 64 != 0
    ensures Window(addr[..], false, 64 * p, offset, !tmp)
  {
    hide Bit, Shr, At, Window;
    tmp := addr[p] | Shr(ONES, 64 - offset % 64);
    ZeroWindowFrom(addr[..], p, offset, tmp);
  }

  // The first word, of which only the bits from offset on count
  method SearchFromZeroMiddle(addr: array<Word>, size: nat, offset: nat, p: nat, result: nat) returns (r: nat)
    requires Longs(size) <= addr.Length && offset < size
    requires p == offset / 64 && result == offset - offset % 64 && offset % 64 != 0
    requires NoneBefore(addr[..], false, offset, result)
    ensures FirstFrom(addr[..], false, size, offset, r)
  {
    hide Bit, At, Window, NoneBefore, FirstFrom;
    var tmp := ZeroFirstWord(addr, offset, p);
    if size - result < 64 {
      r := FoundFirstZero(addr[..], size, offset, tmp, result, size - result);
    } else {
      if !tmp != 0 {
        r := FoundMiddleZero(addr[..], size, offset, tmp, result);
      } else {
        SkipWord(addr[..], false, result, offset, !tmp);
        r := ScanZeroWords(addr, size, offset, p + 1, result + 64);
      }
    }
  }

  // find_first_zero_bit
  method FindFirstZeroBit(addr: array<Word>, size: nat) returns (r: nat)
    requires Longs(size) <= addr.Length
    ensures FirstFrom(addr[..], false, size, 0, r)
  {
    hide Bit, At;
    if size == 0 {
      return 0;
    }
    r := ScanZeroWords(addr, size, 0, 0, 0);
  }

  method ScanZeroWords(addr: array<Word>, size: nat, ghost offset: nat, p0: nat, result0: nat) returns (r: nat)
    requires Longs(size) <= addr.Length && result0 == 64 * p0 && offset <= result0 <= size && offset < size
    requires NoneBefore(addr[..], false, offset, result0)
    ensures FirstFrom(addr[..], false, size, offset, r)
  {
    hide Bit, At, Window, NoneBefore;
    var p, result, left := p0, result0, size - result0;
    while left >= 64
      invariant result == 64 * p && result + left == size && offset <= result && left >= 0
      invariant NoneBefore(addr[..], false, offset, result)
    {
      var tmp := addr[p];
      ZeroWindowWhole(addr[..], p, offset, tmp);
      if !tmp != 0 {
        r := FoundMiddleZero(addr[..], size, offset, tmp, result);
        return;
      }
      SkipWord(addr[..], false, result, offset, !tmp);
      p := p + 1;
      result := result + 64;
      left := left - 64;
    }
    if left == 0 {
      NoneFound(addr[..], false, size, offset);
      return result;
    }
    ZeroWindowWhole(addr[..], p, offset, addr[p]);
    r := FoundFirstZero(addr[..], size, offset, addr[p], result, left);
  }

  // Label found_first
  method FoundFirstZero(ghost s: seq<Word>, ghost size: nat, ghost offset: nat, tmp: Word, result: nat, left: nat)
    returns (r: nat)
    requires 0 < left < 64 && result + left == size && offset < size
    requires NoneBefore(s, false, offset, result) && Window(s, false, result, offset, !tmp)
    ensures FirstFrom(s, false, size, offset, r)
  {
    hide Bit, Shl, At;
    var high := tmp | Shl(ONES, left);
    var zeros := !high;
    ghost var clear := !tmp;
    forall j: nat | j < 64
      ensures Bit(zeros, j) == (j < left && Bit(clear, j))
    {
      NotOrIs(zeros, tmp, Shl(ONES, left), j);
      NotIs(clear, tmp, j);
      ShlBit(ONES, left, j);
      if j >= left {
        OnesBit(j - left);
      }
    }
    if high == ONES {
      AllOnes(high);
      forall i: nat | offset <= i < size
        ensures At(s, i)
      {
        if i >= result {
          ZeroBit(i - result);
          assert !Bit(clear, i - result);
        }
      }
      return result + left;
    }
    NotAllOnes(high);
    var num := Ffs(zeros);
    LowestHit(s, false, result, offset, clear, num);
    r := result + num;
  }

  // Label found_middle
  method FoundMiddleZero(ghost s: seq<Word>, ghost size: nat, ghost offset: nat, tmp: Word, result: nat)
    returns (r: nat)
    requires result + 64 <= size && offset < size && !tmp != 0
    requires NoneBefore(s, false, offset, result) && Window(s, false, result, offset, !tmp)
    ensures FirstFrom(s, false, size, offset, r)
  {
    hide Bit, At;
    var num := Ffs(!tmp);
    LowestHit(s, false, result, offset, !tmp, num);
    r := result + num;
  }

  lemma AllOnes(w: Word)
    requires w == ONES
    ensures !w == 0
  {
  }

  lemma NotAllOnes(w: Word)
    requires w != ONES
    ensures !w != 0
  {
  }

  lemma ZeroWindowFrom(s: seq<Word>, p: nat, offset: nat, tmp: Word)
    requires p < |s| && p == offset / 64 && offset % 64 > 0 && tmp == s[p] | Shr(ONES, 64 - offset % 64)
    ensures Window(s, false, 64 * p, offset, !tmp)
  {
    hide Bit, Shr;
    var clear := !tmp;
    forall j: nat | j < 64
      ensures Bit(clear, j) == (64 * p + j >= offset && !At(s, 64 * p + j))
    {
      AtWord(s, p, j);
      OrIs(tmp, s[p], Shr(ONES, 64 - offset % 64), j);
      NotIs(clear, tmp, j);
      ShrBit(ONES, 64 - offset % 64, j);
      OnesBit(j + 64 - offset % 64);
    }
  }

  lemma ZeroWindowWhole(s: seq<Word>, p: nat, offset: nat, tmp: Word)
    requires p < |s| && offset <= 64 * p && tmp == s[p]
    ensures Window(s, false, 64 * p, offset, !tmp)
  {
    hide Bit, At;
    var clear := !tmp;
    forall j: nat | j < 64
      ensures Bit(clear, j) == (64 * p + j >= offset && !At(s, 64 * p + j))
    {
      AtWord(s, p, j);
      NotIs(clear, tmp, j);
    }
  }

  // ---------- iteration ----------

  // for_each_set_bit: the bits it visits
  method ForEachSetBit(addr: array<Word>, size: nat) returns (visited: seq<nat>)
    requires Longs(size) <= addr.Length
    ensures forall k, l | 0 <= k < l < |visited| :: visited[k] < visited[l]
    ensures forall i: nat :: i in visited <==> i < size && At(addr[..], i)
  {
    hide At;
    visited := [];
    var bit := FindFirstBit(addr, size);
    while bit < size
      invariant bit <= size && (bit < size ==> At(addr[..], bit))
      invariant forall k | 0 <= k < |visited| :: visited[k] < bit
      invariant forall k, l | 0 <= k < l < |visited| :: visited[k] < visited[l]
      invariant forall i: nat | i < bit :: i in visited <==> At(addr[..], i)
      decreases size - bit
    {
      visited := visited + [bit];
      bit := FindNextBit(addr, size, bit + 1);
    }
  }
}
