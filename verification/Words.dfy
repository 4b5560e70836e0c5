/**
  One 64-bit word of a bitmap: its bits, shifts by a variable amount, and masks.

  Shift amounts and bit numbers are naturals; Index(i) is the machine
  representation of i, so that Shl and Shr are the machine's << and >>.
  Lemmas named ...At speak about machine indices, the others about naturals.
 */
module Words {

  type Word = bv64

  const ONES: Word := 0xFFFF_FFFF_FFFF_FFFF

  function Index(i: nat): bv7 {
    if i == 0 then 0 else Index(i - 1) + 1
  }

  predicate BitAt(w: Word, k: bv7) {
    k < 64 && (w >> k) & 1 == 1
  }

  // Bit i of w; false for every i >= 64
  predicate Bit(w: Word, i: nat) {
    i < 64 && BitAt(w, Index(i))
  }

  function ShlAt(w: Word, k: bv7): Word {
    if k < 64 then w << k else 0
  }

  function ShrAt(w: Word, k: bv7): Word {
    if k < 64 then w >> k else 0
  }

  // w << s, and 0 for the amount 64 that C leaves undefined
  function Shl(w: Word, s: nat): Word
    requires s <= 64
  {
    ShlAt(w, Index(s))
  }

  function Shr(w: Word, s: nat): Word
    requires s <= 64
  {
    ShrAt(w, Index(s))
  }

  // ---------- indices ----------

  lemma {:induction false} IndexSum(i: nat, j: nat)
    ensures Index(i + j) == Index(i) + Index(j)
  {
    if i == 0 {
    } else {
      IndexSum(i - 1, j);
    }
  }

  lemma SuccessorAsNat(k: bv7)
    requires k < 127
    ensures (k + 1) as nat == k as nat + 1
  {
  }

  lemma BelowAsNat(k: bv7, l: bv7)
    ensures (k < l) == (k as nat < l as nat)
    ensures (k == l) == (k as nat == l as nat)
  {
  }

  lemma Below127(k: bv7)
    ensures (k < 127) == (k as nat < 127)
  {
  }

  // Index(i) represents i
  lemma {:induction false} IndexAsNat(i: nat)
    requires i < 128
    ensures Index(i) as nat == i
  {
    if i == 0 {
    } else {
      IndexAsNat(i - 1);
      Below127(Index(i - 1));
      SuccessorAsNat(Index(i - 1));
    }
  }

  lemma IndexOrder(i: nat, j: nat)
    requires i < 128 && j < 128
    ensures (Index(i) < Index(j)) == (i < j)
    ensures (Index(i) == Index(j)) == (i == j)
  {
    IndexAsNat(i);
    IndexAsNat(j);
    BelowAsNat(Index(i), Index(j));
  }

  lemma IndexBound(i: nat)
    requires i < 128
    ensures (Index(i) < 64) == (i < 64)
  {
    IndexAsNat(i);
    Below64(Index(i));
  }

  lemma Below64(k: bv7)
    ensures (k < 64) == (k as nat < 64)
  {
  }

  // ---------- bits of combined words ----------

  lemma OrAt(a: Word, b: Word, k: bv7)
    ensures BitAt(a | b, k) == (BitAt(a, k) || BitAt(b, k))
  {
  }

  lemma AndAt(a: Word, b: Word, k: bv7)
    ensures BitAt(a & b, k) == (BitAt(a, k) && BitAt(b, k))
  {
  }

  lemma NotAt(a: Word, k: bv7)
    requires k < 64
    ensures BitAt(!a, k) == !BitAt(a, k)
  {
  }

  lemma OrBit(a: Word, b: Word, i: nat)
    ensures Bit(a | b, i) == (Bit(a, i) || Bit(b, i))
  {
    OrAt(a, b, Index(i));
  }

  lemma AndBit(a: Word, b: Word, i: nat)
    ensures Bit(a & b, i) == (Bit(a, i) && Bit(b, i))
  {
    AndAt(a, b, Index(i));
  }

  // The bits of a word known to be a conjunction, resp. a disjunction
  lemma AndIs(w: Word, a: Word, b: Word, i: nat)
    requires w == a & b
    ensures Bit(w, i) == (Bit(a, i) && Bit(b, i))
  {
    hide Bit;
    AndBit(a, b, i);
  }

  lemma OrIs(w: Word, a: Word, b: Word, i: nat)
    requires w == a | b
    ensures Bit(w, i) == (Bit(a, i) || Bit(b, i))
  {
    hide Bit;
    OrBit(a, b, i);
  }

  lemma AndNotAt(w: Word, a: Word, b: Word, k: bv7)
    requires w == a & !b && k < 64
    ensures BitAt(w, k) == (BitAt(a, k) && !BitAt(b, k))
  {
  }

  lemma AndNotIs(w: Word, a: Word, b: Word, i: nat)
    requires w == a & !b && i < 64
    ensures Bit(w, i) == (Bit(a, i) && !Bit(b, i))
  {
    hide BitAt, Index;
    IndexBound(i);
    AndNotAt(w, a, b, Index(i));
  }

  lemma NotIs(w: Word, a: Word, i: nat)
    requires w == !a && i < 64
    ensures Bit(w, i) == !Bit(a, i)
  {
    hide Bit;
    NotBit(a, i);
  }

  lemma NotOrAt(w: Word, a: Word, b: Word, k: bv7)
    requires w == !(a | b) && k < 64
    ensures BitAt(w, k) == (!BitAt(a, k) && !BitAt(b, k))
  {
  }

  lemma NotOrIs(w: Word, a: Word, b: Word, i: nat)
    requires w == !(a | b) && i < 64
    ensures Bit(w, i) == (!Bit(a, i) && !Bit(b, i))
  {
    hide BitAt, Index;
    IndexBound(i);
    NotOrAt(w, a, b, Index(i));
  }

  lemma NotBit(a: Word, i: nat)
    requires i < 64
    ensures Bit(!a, i) == !Bit(a, i)
  {
    IndexBound(i);
    NotAt(a, Index(i));
  }

  lemma ZeroAt(k: bv7)
    ensures !BitAt(0, k)
  {
  }

  lemma OnesAt(k: bv7)
    ensures BitAt(ONES, k) == (k < 64)
  {
  }

  lemma ZeroBit(i: nat)
    ensures !Bit(0, i)
  {
    ZeroAt(Index(i));
  }

  lemma OnesBit(i: nat)
    ensures Bit(ONES, i) == (i < 64)
  {
    OnesAt(Index(i));
    if i < 64 {
      IndexBound(i);
    }
  }

  lemma ShlRaw(w: Word, s: bv7, k: bv7)
    requires s < 64 && k < 64
    ensures ((w << s) >> k) & 1 == if k >= s then (w >> (k - s)) & 1 else 0
  {
  }

  lemma ShrRaw(w: Word, s: bv7, k: bv7)
    requires s < 64 && k < 64
    ensures ((w >> s) >> k) & 1 == if k + s < 64 then (w >> (k + s)) & 1 else 0
  {
  }

  // v is w << s, and d is k - s
  lemma ShlStep(w: Word, s: bv7, v: Word, k: bv7, d: bv7)
    requires s < 64 && k < 64 && v == w << s && d == k - s
    ensures BitAt(v, k) == (k >= s && BitAt(w, d))
  {
    ShlRaw(w, s, k);
  }

  lemma ShrStep(w: Word, s: bv7, v: Word, k: bv7, d: bv7)
    requires s < 64 && k < 64 && v == w >> s && d == k + s
    ensures BitAt(v, k) == BitAt(w, d)
  {
    ShrRaw(w, s, k);
  }

  lemma ShlAtBit(w: Word, s: bv7, k: bv7, d: bv7)
    requires k < 64 && d == k - s
    ensures BitAt(ShlAt(w, s), k) == (k >= s && BitAt(w, d))
  {
    if s < 64 {
      ShlStep(w, s, ShlAt(w, s), k, d);
    } else {
      ZeroAt(k);
    }
  }

  lemma ShrAtBit(w: Word, s: bv7, k: bv7, d: bv7)
    requires k < 64 && s <= 64 && d == k + s
    ensures BitAt(ShrAt(w, s), k) == BitAt(w, d)
  {
    if s < 64 {
      ShrStep(w, s, ShrAt(w, s), k, d);
    } else {
      ZeroAt(k);
    }
  }

  lemma ShlBit(w: Word, s: nat, i: nat)
    requires s <= 64 && i < 64
    ensures Bit(Shl(w, s), i) == (i >= s && Bit(w, i - s))
  {
    hide BitAt, ShlAt, Index;
    IndexBound(i);
    IndexOrder(i, s);
    ShlAtBit(w, Index(s), Index(i), Index(i) - Index(s));
    if i >= s {
      IndexSum(i - s, s);
    }
  }

  lemma HighAt(w: Word, k: bv7)
    requires k >= 64
    ensures !BitAt(w, k)
  {
  }

  lemma ShrBit(w: Word, s: nat, i: nat)
    requires s <= 64 && i < 64
    ensures Bit(Shr(w, s), i) == Bit(w, i + s)
  {
    hide BitAt, ShrAt, Index;
    IndexBound(i);
    IndexBound(i + s);
    IndexSum(i, s);
    IndexAsNat(s);
    AtMost64(Index(s));
    ShrAtBit(w, Index(s), Index(i), Index(i) + Index(s));
    if i + s >= 64 {
      HighAt(w, Index(i + s));
    }
  }

  lemma AtMost64(k: bv7)
    ensures (k <= 64) == (k as nat <= 64)
  {
  }

  // ---------- masks ----------

  lemma OneHotAt(s: bv7, v: Word, k: bv7)
    requires s < 64 && k < 64 && v == (1 as Word) << s
    ensures BitAt(v, k) == (k == s)
  {
  }

  // The mask of set_bit and clear_bit: 1 << s
  lemma OneHotBit(s: nat, i: nat)
    requires s < 64
    ensures Bit(Shl(1, s), i) == (i == s)
  {
    hide BitAt, Index;
    if i < 64 {
      IndexBound(i);
      IndexBound(s);
      IndexOrder(i, s);
      OneHotAt(Index(s), Shl(1, s), Index(i));
    }
  }

  lemma LowMaskAt(s: bv7, v: Word, mask: Word, k: bv7)
    requires s < 64 && k < 64 && v == (1 as Word) << s && mask == v - 1
    ensures BitAt(mask, k) == (k < s)
  {
    LowMaskRaw(s, k);
  }

  lemma LowMaskRaw(s: bv7, k: bv7)
    requires s < 64 && k < 64
    ensures ((((1 as Word) << s) - 1) >> k) & 1 == if k < s then 1 else 0
  {
  }

  // (1 << s) - 1
  function LowMask(s: nat): Word
    requires s < 64
  {
    Shl(1, s) - 1
  }

  lemma LowMaskBit(s: nat, i: nat)
    requires s < 64
    ensures Bit(LowMask(s), i) == (i < s)
  {
    hide BitAt, Index;
    if i < 64 {
      IndexBound(i);
      IndexBound(s);
      IndexOrder(i, s);
      LowMaskAt(Index(s), Shl(1, s), LowMask(s), Index(i));
    }
  }

  lemma LowIs(low: Word, w: Word, s: nat, i: nat)
    requires s < 64 && low == w & LowMask(s)
    ensures Bit(low, i) == (i < s && Bit(w, i))
  {
    hide Bit, LowMask;
    AndIs(low, w, LowMask(s), i);
    LowMaskBit(s, i);
  }

  lemma HighBit(w: Word, i: nat)
    requires i >= 64
    ensures !Bit(w, i)
  {
  }

  // ---------- the lowest set bit ----------

  lemma SameIndex(k: bv7, i: nat)
    requires k as nat == i < 128
    ensures Index(i) == k
  {
    IndexAsNat(i);
    BelowAsNat(k, Index(i));
  }

  lemma LowestBit(w: Word, k: bv7, i: nat)
    requires k as nat == i < 64
    requires BitAt(w, k) && forall l: bv7 | l < k :: !BitAt(w, l)
    ensures Bit(w, i) && forall j: nat | j < i :: !Bit(w, j)
  {
    hide BitAt, Index;
    SameIndex(k, i);
    forall j: nat | j < i
      ensures !Bit(w, j)
    {
      IndexOrder(j, i);
    }
  }

  // __ffs: narrow to the half that holds the lowest set bit, six times
  method Ffs(word: Word) returns (num: nat)
    ensures num < 64
    ensures word == 0 ==> num == 63
    ensures word != 0 ==> Bit(word, num) && forall j: nat | j < num :: !Bit(word, j)
  {
    hide Bit, Index;
    var v := word;
    ghost var k: bv7 := 0;
    num := 0;
    if v & 0xFFFF_FFFF == 0 {
      num, k := num + 32, k + 32;
      v := v >> 32;
    }
    if v & 0xFFFF == 0 {
      num, k := num + 16, k + 16;
      v := v >> 16;
    }
    if v & 0xFF == 0 {
      num, k := num + 8, k + 8;
      v := v >> 8;
    }
    if v & 0xF == 0 {
      num, k := num + 4, k + 4;
      v := v >> 4;
    }
    if v & 0x3 == 0 {
      num, k := num + 2, k + 2;
      v := v >> 2;
    }
    if v & 0x1 == 0 {
      num, k := num + 1, k + 1;
    }
    assert k as nat == num;
    assert word == 0 ==> num == 63;
    if word != 0 {
      assert BitAt(word, k);
      assert forall l: bv7 | l < k :: !BitAt(word, l);
      LowestBit(word, k, num);
    }
  }

  // A word that is not zero has a bit
  lemma NonZero(w: Word) returns (i: nat)
    requires w != 0
    ensures i < 64 && Bit(w, i)
  {
    hide Bit, Index;
    var k := LowestBitAt(w);
    i := AsNatural(w, k);
  }

  lemma AsNatural(w: Word, k: bv7) returns (i: nat)
    requires k < 64
    ensures i < 64 && Index(i) == k && Bit(w, i) == BitAt(w, k)
  {
    hide Index, BitAt;
    i := k as nat;
    Below64(k);
    SameIndex(k, i);
  }

  lemma LowestBitAt(w: Word) returns (k: bv7)
    requires w != 0
    ensures BitAt(w, k)
  {
    var v := w;
    k := 0;
    if v & 0xFFFF_FFFF == 0 { k, v := k + 32, v >> 32; }
    if v & 0xFFFF == 0 { k, v := k + 16, v >> 16; }
    if v & 0xFF == 0 { k, v := k + 8, v >> 8; }
    if v & 0xF == 0 { k, v := k + 4, v >> 4; }
    if v & 0x3 == 0 { k, v := k + 2, v >> 2; }
    if v & 0x1 == 0 { k := k + 1; }
  }

  // ---------- the highest set bit ----------

  lemma HighestBit(w: Word, k: bv7, i: nat)
    requires 0 < k && k as nat == i <= 64
    requires BitAt(w, k - 1) && forall l: bv7 | l >= k :: !BitAt(w, l)
    ensures Bit(w, i - 1) && forall j: nat | i <= j < 64 :: !Bit(w, j)
  {
    hide BitAt, Index;
    SameIndex(k, i);
    IndexStep(i - 1);
    forall j: nat | i <= j < 64
      ensures !Bit(w, j)
    {
      IndexOrder(j, i);
    }
  }

  lemma IndexStep(i: nat)
    ensures Index(i + 1) - 1 == Index(i)
  {
  }

  // fls, on a value of 32 bits: narrow to the half that holds the highest set bit, five times
  method Fls(word: Word) returns (r: nat)
    requires word <= 0xFFFF_FFFF
    ensures r <= 32 && (r == 0 <==> word == 0)
    ensures word != 0 ==> Bit(word, r - 1) && forall j: nat | r <= j < 64 :: !Bit(word, j)
  {
    hide Bit, Index;
    r := 32;
    if word == 0 {
      return 0;
    }
    var x := word;
    ghost var k: bv7 := 32;
    if x & 0xFFFF_0000 == 0 {
      x := x << 16;
      r, k := r - 16, k - 16;
    }
    if x & 0xFF00_0000 == 0 {
      x := x << 8;
      r, k := r - 8, k - 8;
    }
    if x & 0xF000_0000 == 0 {
      x := x << 4;
      r, k := r - 4, k - 4;
    }
    if x & 0xC000_0000 == 0 {
      x := x << 2;
      r, k := r - 2, k - 2;
    }
    if x & 0x8000_0000 == 0 {
      x := x << 1;
      r, k := r - 1, k - 1;
    }
    assert k as nat == r && k > 0;
    assert BitAt(word, k - 1);
    assert forall l: bv7 | l >= k :: !BitAt(word, l);
    HighestBit(word, k, r);
  }
}
