/**
  The population count of a word, by the branch-free folding of bitops.c.
 */
module Hweight {
  import opened Words

  // The number of bits of w in [lo, lo + len)
  ghost function Count(w: Word, lo: nat, len: nat): nat {
    if len == 0 then 0
    else Count(w, lo, len - 1) + (if Bit(w, lo + len - 1) then 1 else 0)
  }

  lemma {:induction false} CountSplit(w: Word, lo: nat, m: nat, n: nat)
    ensures Count(w, lo, m + n) == Count(w, lo, m) + Count(w, lo + m, n)
  {
    if n == 0 {
    } else {
      CountSplit(w, lo, m, n - 1);
    }
  }

  // ---------- the folding steps ----------

  function Pairs(w: Word): Word {
    w - ((w >> 1) & 0x5555_5555_5555_5555)
  }

  function Nibbles(w: Word): Word {
    (w & 0x3333_3333_3333_3333) + ((w >> 2) & 0x3333_3333_3333_3333)
  }

  function Bytes(w: Word): Word {
    (w + (w >> 4)) & 0x0F0F_0F0F_0F0F_0F0F
  }

  function FoldShorts(w: Word): Word {
    w + (w >> 8)
  }

  function FoldLongs(w: Word): Word {
    w + (w >> 16)
  }

  function LowByte(w: Word): Word {
    (w + (w >> 32)) & 0xFF
  }

  // __sw_hweight64, as compiled without ARCH_HAS_FAST_MULTIPLIER
  function HWeight64(w: Word): Word {
    LowByte(FoldLongs(FoldShorts(Bytes(Nibbles(Pairs(w))))))
  }

  // ---------- what each step keeps, on machine indices ----------

  // The field of n bits at k, for n of 1, 2, 4 and 8
  ghost function Field(w: Word, k: bv7, n: nat): Word {
    if k >= 64 then 0
    else if n == 1 then (w >> k) & 1
    else if n == 2 then (w >> k) & 3
    else if n == 4 then (w >> k) & 15
    else (w >> k) & 0xFF
  }

  // The number in a word
  function Num(w: Word): nat {
    w as nat
  }

  ghost function Add(a: Word, b: Word): Word {
    a + b
  }

  lemma PairsField(w: Word, r: Word, k: bv7, l: bv7)
    requires k < 64 && k & 1 == 0 && l == k + 1 && r == w - ((w >> 1) & 0x5555_5555_5555_5555)
    ensures Field(r, k, 2) == Add(Field(w, k, 1), Field(w, l, 1))
  {
  }

  lemma NibblesField(w: Word, r: Word, k: bv7, l: bv7)
    requires k < 64 && k & 3 == 0 && l == k + 2
    requires r == (w & 0x3333_3333_3333_3333) + ((w >> 2) & 0x3333_3333_3333_3333)
    ensures Field(r, k, 4) == Add(Field(w, k, 2), Field(w, l, 2))
    ensures r & 0x8888_8888_8888_8888 == 0
  {
  }

  lemma BytesField(w: Word, r: Word, k: bv7, l: bv7)
    requires k < 64 && k & 7 == 0 && l == k + 4 && r == (w + (w >> 4)) & 0x0F0F_0F0F_0F0F_0F0F
    requires w & 0x8888_8888_8888_8888 == 0
    ensures Field(r, k, 8) == Add(Field(w, k, 4), Field(w, l, 4))
    ensures r & 0xF0F0_F0F0_F0F0_F0F0 == 0
  {
  }

  lemma ShortsField(r: Word, r4: Word)
    requires r & 0xF0F0_F0F0_F0F0_F0F0 == 0 && r4 == r + (r >> 8)
    ensures Field(r4, 0, 8) == Add(Field(r, 0, 8), Field(r, 8, 8))
    ensures Field(r4, 16, 8) == Add(Field(r, 16, 8), Field(r, 24, 8))
  {
  }

  lemma HighShortsField(r: Word, r4: Word)
    requires r & 0xF0F0_F0F0_F0F0_F0F0 == 0 && r4 == r + (r >> 8)
    ensures Field(r4, 32, 8) == Add(Field(r, 32, 8), Field(r, 40, 8))
    ensures Field(r4, 48, 8) == Add(Field(r, 48, 8), Field(r, 56, 8))
  {
  }

  lemma ShortsClear(r: Word, r4: Word)
    requires r & 0xF0F0_F0F0_F0F0_F0F0 == 0 && r4 == r + (r >> 8)
    ensures r4 & 0xE0E0_E0E0_E0E0_E0E0 == 0
  {
  }

  lemma LongsField(r4: Word, r5: Word)
    requires r4 & 0xE0E0_E0E0_E0E0_E0E0 == 0 && r5 == r4 + (r4 >> 16)
    ensures Field(r5, 0, 8) == Add(Field(r4, 0, 8), Field(r4, 16, 8))
    ensures Field(r5, 32, 8) == Add(Field(r4, 32, 8), Field(r4, 48, 8))
    ensures r5 & 0xC0C0_C0C0_C0C0_C0C0 == 0
  {
  }

  lemma LowByteField(r5: Word, r6: Word)
    requires r5 & 0xC0C0_C0C0_C0C0_C0C0 == 0 && r6 == (r5 + (r5 >> 32)) & 0xFF
    ensures r6 == Add(Field(r5, 0, 8), Field(r5, 32, 8))
  {
  }

  // ---------- what each step keeps, as counts ----------

  lemma EvenIndex(i: nat)
    ensures i % 2 == 0 ==> Index(i) & 1 == 0
    ensures i % 4 == 0 ==> Index(i) & 3 == 0
    ensures i % 8 == 0 ==> Index(i) & 7 == 0
  {
    IndexSum(i / 2, i / 2);
    IndexSum(i / 4, i / 4);
    IndexSum(i / 4 * 2, i / 4 * 2);
    IndexSum(i / 8, i / 8);
    IndexSum(i / 8 * 2, i / 8 * 2);
    IndexSum(i / 8 * 4, i / 8 * 4);
    Doubles(Index(i / 2), Index(i / 4), Index(i / 8));
  }

  lemma Doubles(k: bv7, l: bv7, m: bv7)
    ensures (k + k) & 1 == 0
    ensures ((l + l) + (l + l)) & 3 == 0
    ensures (((m + m) + (m + m)) + ((m + m) + (m + m))) & 7 == 0
  {
  }

  lemma AddSmall(a: Word, b: Word)
    requires Num(a) <= 32 && Num(b) <= 32
    ensures Num(Add(a, b)) == Num(a) + Num(b)
  {
    Small(a);
    Small(b);
    AddSmallAt(a, b);
  }

  lemma Small(a: Word)
    requires a as nat <= 32
    ensures a <= 32
  {
  }

  lemma AddSmallAt(a: Word, b: Word)
    requires a <= 32 && b <= 32
    ensures (a + b) as nat == a as nat + b as nat
  {
  }

  lemma {:induction false} FieldCountBound(w: Word, lo: nat, len: nat)
    ensures Count(w, lo, len) <= len
  {
    if len == 0 {
    } else {
      FieldCountBound(w, lo, len - 1);
    }
  }

  // Adjacent fields that hold counts add up to a field that holds a count
  lemma Merge(w: Word, i: nat, len: nat, x: Word, a: Word, b: Word)
    requires len <= 32 && x == Add(a, b)
    requires Num(a) == Count(w, i, len) && Num(b) == Count(w, i + len, len)
    ensures Num(x) == Count(w, i, 2 * len)
  {
    hide *;
    FieldCountBound(w, i, len);
    FieldCountBound(w, i + len, len);
    CountSplit(w, i, len, len);
    AddSmall(a, b);
  }

  lemma OneField(w: Word, k: bv7)
    requires k < 64
    ensures Field(w, k, 1) == if BitAt(w, k) then 1 else 0
  {
  }

  lemma Field1(w: Word, i: nat)
    requires i < 64
    ensures Num(Field(w, Index(i), 1)) == Count(w, i, 1)
  {
    hide Field, Index, BitAt;
    IndexBound(i);
    OneField(w, Index(i));
    assert Count(w, i, 0) == 0;
  }

  lemma Neighbours(i: nat)
    ensures Index(i + 1) == Index(i) + 1
    ensures Index(i + 2) == Index(i) + 2
    ensures Index(i + 4) == Index(i) + 4
  {
    IndexSum(i, 1);
    IndexSum(i, 2);
    IndexSum(i, 4);
    assert Index(3) == Index(2) + 1;
  }

  lemma PairsFields(w: Word, k: bv7, l: bv7)
    requires k < 64 && k & 1 == 0 && l == k + 1
    ensures Field(Pairs(w), k, 2) == Add(Field(w, k, 1), Field(w, l, 1))
  {
    hide Field;
    PairsField(w, Pairs(w), k, l);
  }

  lemma NibblesFields(w: Word, k: bv7, l: bv7)
    requires k < 64 && k & 3 == 0 && l == k + 2
    ensures Field(Nibbles(w), k, 4) == Add(Field(w, k, 2), Field(w, l, 2))
    ensures Nibbles(w) & 0x8888_8888_8888_8888 == 0
  {
    hide Field;
    NibblesField(w, Nibbles(w), k, l);
  }

  lemma BytesFields(w: Word, k: bv7, l: bv7)
    requires k < 64 && k & 7 == 0 && l == k + 4 && w & 0x8888_8888_8888_8888 == 0
    ensures Field(Bytes(w), k, 8) == Add(Field(w, k, 4), Field(w, l, 4))
    ensures Bytes(w) & 0xF0F0_F0F0_F0F0_F0F0 == 0
  {
    hide Field;
    BytesField(w, Bytes(w), k, l);
  }

  lemma Field2At(w: Word, i: nat, k: bv7, l: bv7)
    requires k < 64 && k & 1 == 0 && l == k + 1
    requires Num(Field(w, k, 1)) == Count(w, i, 1) && Num(Field(w, l, 1)) == Count(w, i + 1, 1)
    ensures Num(Field(Pairs(w), k, 2)) == Count(w, i, 2)
  {
    hide *;
    PairsFields(w, k, l);
    Merge(w, i, 1, Field(Pairs(w), k, 2), Field(w, k, 1), Field(w, l, 1));
  }

  lemma Field2(w: Word, i: nat)
    requires i < 64 && i % 2 == 0
    ensures Num(Field(Pairs(w), Index(i), 2)) == Count(w, i, 2)
  {
    hide *;
    Field1(w, i);
    Field1(w, i + 1);
    EvenIndex(i);
    IndexBound(i);
    Neighbours(i);
    Field2At(w, i, Index(i), Index(i + 1));
  }

  lemma Field4At(w: Word, i: nat, k: bv7, l: bv7)
    requires k < 64 && k & 3 == 0 && l == k + 2
    requires Num(Field(Pairs(w), k, 2)) == Count(w, i, 2) && Num(Field(Pairs(w), l, 2)) == Count(w, i + 2, 2)
    ensures Num(Field(Nibbles(Pairs(w)), k, 4)) == Count(w, i, 4)
  {
    hide *;
    NibblesFields(Pairs(w), k, l);
    Merge(w, i, 2, Field(Nibbles(Pairs(w)), k, 4), Field(Pairs(w), k, 2), Field(Pairs(w), l, 2));
  }

  lemma Field4(w: Word, i: nat)
    requires i < 64 && i % 4 == 0
    ensures Num(Field(Nibbles(Pairs(w)), Index(i), 4)) == Count(w, i, 4)
  {
    hide *;
    Field2(w, i);
    Field2(w, i + 2);
    EvenIndex(i);
    IndexBound(i);
    Neighbours(i);
    Field4At(w, i, Index(i), Index(i + 2));
  }

  lemma Field8At(w: Word, i: nat, k: bv7, l: bv7)
    requires k < 64 && k & 7 == 0 && l == k + 4
    requires Num(Field(Nibbles(Pairs(w)), k, 4)) == Count(w, i, 4)
    requires Num(Field(Nibbles(Pairs(w)), l, 4)) == Count(w, i + 4, 4)
    ensures Num(Field(Bytes(Nibbles(Pairs(w))), k, 8)) == Count(w, i, 8)
    ensures Bytes(Nibbles(Pairs(w))) & 0xF0F0_F0F0_F0F0_F0F0 == 0
  {
    hide *;
    NibblesFields(Pairs(w), 0, 2);
    BytesFields(Nibbles(Pairs(w)), k, l);
    Merge(w, i, 4, Field(Bytes(Nibbles(Pairs(w))), k, 8), Field(Nibbles(Pairs(w)), k, 4),
      Field(Nibbles(Pairs(w)), l, 4));
  }

  lemma Field8(w: Word, i: nat)
    requires i < 64 && i % 8 == 0
    ensures Num(Field(Bytes(Nibbles(Pairs(w))), Index(i), 8)) == Count(w, i, 8)
    ensures Bytes(Nibbles(Pairs(w))) & 0xF0F0_F0F0_F0F0_F0F0 == 0
  {
    hide *;
    Field4(w, i);
    Field4(w, i + 4);
    EvenIndex(i);
    IndexBound(i);
    Neighbours(i);
    Field8At(w, i, Index(i), Index(i + 4));
  }

  // The byte at the constant position i
  lemma ByteAt(w: Word, i: nat, k: bv7)
    requires k as nat == i < 64 && i % 8 == 0
    ensures Num(Field(Bytes(Nibbles(Pairs(w))), k, 8)) == Count(w, i, 8)
  {
    hide *;
    SameIndex(k, i);
    Field8(w, i);
  }

  lemma AllBytes(w: Word, r: Word)
    requires r == Bytes(Nibbles(Pairs(w)))
    ensures r & 0xF0F0_F0F0_F0F0_F0F0 == 0
    ensures Num(Field(r, 0, 8)) == Count(w, 0, 8) && Num(Field(r, 8, 8)) == Count(w, 8, 8)
    ensures Num(Field(r, 16, 8)) == Count(w, 16, 8) && Num(Field(r, 24, 8)) == Count(w, 24, 8)
    ensures Num(Field(r, 32, 8)) == Count(w, 32, 8) && Num(Field(r, 40, 8)) == Count(w, 40, 8)
    ensures Num(Field(r, 48, 8)) == Count(w, 48, 8) && Num(Field(r, 56, 8)) == Count(w, 56, 8)
  {
    hide *;
    Field8(w, 0);
    ByteAt(w, 0, 0);
    ByteAt(w, 8, 8);
    ByteAt(w, 16, 16);
    ByteAt(w, 24, 24);
    ByteAt(w, 32, 32);
    ByteAt(w, 40, 40);
    ByteAt(w, 48, 48);
    ByteAt(w, 56, 56);
  }

  // ---------- the results ----------

  lemma ShortsFields(r: Word)
    requires r & 0xF0F0_F0F0_F0F0_F0F0 == 0
    ensures Field(FoldShorts(r), 0, 8) == Add(Field(r, 0, 8), Field(r, 8, 8))
    ensures Field(FoldShorts(r), 16, 8) == Add(Field(r, 16, 8), Field(r, 24, 8))
    ensures Field(FoldShorts(r), 32, 8) == Add(Field(r, 32, 8), Field(r, 40, 8))
    ensures Field(FoldShorts(r), 48, 8) == Add(Field(r, 48, 8), Field(r, 56, 8))
    ensures FoldShorts(r) & 0xE0E0_E0E0_E0E0_E0E0 == 0
  {
    hide Field, Add;
    ShortsField(r, FoldShorts(r));
    HighShortsField(r, FoldShorts(r));
    ShortsClear(r, FoldShorts(r));
  }

  lemma LongsFields(r: Word)
    requires r & 0xE0E0_E0E0_E0E0_E0E0 == 0
    ensures Field(FoldLongs(r), 0, 8) == Add(Field(r, 0, 8), Field(r, 16, 8))
    ensures Field(FoldLongs(r), 32, 8) == Add(Field(r, 32, 8), Field(r, 48, 8))
    ensures FoldLongs(r) & 0xC0C0_C0C0_C0C0_C0C0 == 0
  {
    hide Field, Add;
    LongsField(r, FoldLongs(r));
  }

  lemma LowByteFields(r: Word)
    requires r & 0xC0C0_C0C0_C0C0_C0C0 == 0
    ensures LowByte(r) == Add(Field(r, 0, 8), Field(r, 32, 8))
  {
    hide Field, Add;
    LowByteField(r, LowByte(r));
  }

  lemma HWeight64IsCount(w: Word)
    ensures Num(HWeight64(w)) == Count(w, 0, 64)
  {
    hide Pairs, Nibbles, Bytes, FoldShorts, FoldLongs, LowByte, Num, Count, Field, Add;
    var r3 := Bytes(Nibbles(Pairs(w)));
    var r4 := FoldShorts(r3);
    var r5 := FoldLongs(r4);
    AllBytes(w, r3);
    ShortsFields(r3);
    Merge(w, 0, 8, Field(r4, 0, 8), Field(r3, 0, 8), Field(r3, 8, 8));
    Merge(w, 16, 8, Field(r4, 16, 8), Field(r3, 16, 8), Field(r3, 24, 8));
    Merge(w, 32, 8, Field(r4, 32, 8), Field(r3, 32, 8), Field(r3, 40, 8));
    Merge(w, 48, 8, Field(r4, 48, 8), Field(r3, 48, 8), Field(r3, 56, 8));
    LongsFields(r4);
    Merge(w, 0, 16, Field(r5, 0, 8), Field(r4, 0, 8), Field(r4, 16, 8));
    Merge(w, 32, 16, Field(r5, 32, 8), Field(r4, 32, 8), Field(r4, 48, 8));
    LowByteFields(r5);
    Merge(w, 0, 32, LowByte(r5), Field(r5, 0, 8), Field(r5, 32, 8));
  }

  // ---------- the multiplying form ----------

  function TopByte(r: Word): Word {
    r >> 56
  }

  function MultiplyFold(r: Word): Word {
    TopByte(r * 0x0101_0101_0101_0101)
  }

  // __sw_hweight64, as compiled with ARCH_HAS_FAST_MULTIPLIER
  function HWeight64Multiply(w: Word): Word {
    MultiplyFold(Bytes(Nibbles(Pairs(w))))
  }

  // The multiplication is three multiplications by two-bit constants; Part looks at a byte of a product

  ghost function Part(r: Word, m: Word, k: bv7): Word {
    Field(r * m, k, 8)
  }

  ghost predicate Clear(r: Word, mask: Word) {
    r & mask == 0
  }

  lemma Times101(r: Word)
    requires r & 0xF0F0_F0F0_F0F0_F0F0 == 0
    ensures Part(r, 0x101, 8) == Add(Field(r, 0, 8), Field(r, 8, 8))
    ensures Part(r, 0x101, 24) == Add(Field(r, 16, 8), Field(r, 24, 8))
    ensures Part(r, 0x101, 40) == Add(Field(r, 32, 8), Field(r, 40, 8))
    ensures Part(r, 0x101, 56) == Add(Field(r, 48, 8), Field(r, 56, 8))
  {
  }

  lemma ProductsClear(r: Word)
    requires r & 0xF0F0_F0F0_F0F0_F0F0 == 0
    ensures Clear(r * 0x101, 0xE0E0_E0E0_E0E0_E0E0)
    ensures Clear(r * 0x0101_0101, 0xC0C0_C0C0_C0C0_C0C0)
  {
  }

  lemma Times10001()
    ensures forall x {:trigger Clear(x, 0xE0E0_E0E0_E0E0_E0E0)} | Clear(x, 0xE0E0_E0E0_E0E0_E0E0) ::
              && Field(x * 0x1_0001, 24, 8) == Add(Field(x, 8, 8), Field(x, 24, 8))
              && Field(x * 0x1_0001, 56, 8) == Add(Field(x, 40, 8), Field(x, 56, 8))
  {
  }

  lemma Times100000001()
    ensures forall x {:trigger Clear(x, 0xC0C0_C0C0_C0C0_C0C0)} | Clear(x, 0xC0C0_C0C0_C0C0_C0C0) ::
              TopByte(x * 0x1_0000_0001) == Add(Field(x, 24, 8), Field(x, 56, 8))
  {
  }

  lemma Products(r: Word)
    requires r & 0xF0F0_F0F0_F0F0_F0F0 == 0
    ensures Part(r, 0x0101_0101, 24) == Add(Part(r, 0x101, 8), Part(r, 0x101, 24))
    ensures Part(r, 0x0101_0101, 56) == Add(Part(r, 0x101, 40), Part(r, 0x101, 56))
    ensures MultiplyFold(r) == Add(Part(r, 0x0101_0101, 24), Part(r, 0x0101_0101, 56))
  {
    hide Field, Add, Clear, TopByte;
    ProductsClear(r);
    Times10001();
    Times100000001();
  }

  lemma MultiplyIsCount(w: Word)
    ensures Num(HWeight64Multiply(w)) == Count(w, 0, 64)
  {
    hide Pairs, Nibbles, Bytes, MultiplyFold, Num, Count, Field, Add, Part;
    var r := Bytes(Nibbles(Pairs(w)));
    AllBytes(w, r);
    Times101(r);
    Products(r);
    Merge(w, 0, 8, Part(r, 0x101, 8), Field(r, 0, 8), Field(r, 8, 8));
    Merge(w, 16, 8, Part(r, 0x101, 24), Field(r, 16, 8), Field(r, 24, 8));
    Merge(w, 32, 8, Part(r, 0x101, 40), Field(r, 32, 8), Field(r, 40, 8));
    Merge(w, 48, 8, Part(r, 0x101, 56), Field(r, 48, 8), Field(r, 56, 8));
    Merge(w, 0, 16, Part(r, 0x0101_0101, 24), Part(r, 0x101, 8), Part(r, 0x101, 24));
    Merge(w, 32, 16, Part(r, 0x0101_0101, 56), Part(r, 0x101, 40), Part(r, 0x101, 56));
    Merge(w, 0, 32, MultiplyFold(r), Part(r, 0x0101_0101, 24), Part(r, 0x0101_0101, 56));
  }

  // ---------- the narrower forms ----------

  function Wide(w: bv32): Word {
    w as Word
  }

  function Pairs32(w: bv32): bv32 {
    w - ((w >> 1) & 0x5555_5555)
  }

  function Nibbles32(w: bv32): bv32 {
    (w & 0x3333_3333) + ((w >> 2) & 0x3333_3333)
  }

  function Bytes32(w: bv32): bv32 {
    (w + (w >> 4)) & 0x0F0F_0F0F
  }

  function FoldShorts32(w: bv32): bv32 {
    w + (w >> 8)
  }

  function LowByte32(w: bv32): bv32 {
    (w + (w >> 16)) & 0xFF
  }

  // __sw_hweight32, without ARCH_HAS_FAST_MULTIPLIER
  function HWeight32(w: bv32): bv32 {
    LowByte32(FoldShorts32(Bytes32(Nibbles32(Pairs32(w)))))
  }

  // __sw_hweight32, with ARCH_HAS_FAST_MULTIPLIER
  function HWeight32Multiply(w: bv32): bv32 {
    (Bytes32(Nibbles32(Pairs32(w))) * 0x0101_0101) >> 24
  }

  function Nibbles16(w: bv32): bv32 {
    var res := w - ((w >> 1) & 0x5555);
    (res & 0x3333) + ((res >> 2) & 0x3333)
  }

  function Fold16(w: bv32): bv32 {
    var res := (w + (w >> 4)) & 0x0F0F;
    (res + (res >> 8)) & 0x00FF
  }

  // __sw_hweight16
  function HWeight16(w: bv32): bv32 {
    Fold16(Nibbles16(w))
  }

  // __sw_hweight8
  function HWeight8(w: bv32): bv32 {
    var res := w - ((w >> 1) & 0x55);
    var nibbles := (res & 0x33) + ((res >> 2) & 0x33);
    (nibbles + (nibbles >> 4)) & 0x0F
  }

  // Each step is the wider step on a wider word

  lemma WidePairs(w: bv32)
    ensures Wide(Pairs32(w)) == Pairs(Wide(w))
  {
  }

  lemma WideNibbles(w: bv32)
    ensures Wide(Nibbles32(w)) == Nibbles(Wide(w)) && Nibbles32(w) & 0x8888_8888 == 0
  {
  }

  lemma WideBytes(w: bv32)
    requires w & 0x8888_8888 == 0
    ensures Wide(Bytes32(w)) == Bytes(Wide(w)) && Bytes32(w) & 0xF0F0_F0F0 == 0
  {
  }

  lemma WideShorts(w: bv32)
    requires w & 0xF0F0_F0F0 == 0
    ensures Wide(FoldShorts32(w)) == FoldShorts(Wide(w)) && FoldShorts32(w) & 0xE0E0_E0E0 == 0
  {
  }

  lemma WideLowByte(w: bv32)
    requires w & 0xE0E0_E0E0 == 0
    ensures Wide(LowByte32(w)) == LowByte(FoldLongs(Wide(w)))
  {
  }

  lemma MultiplyFold32(w: bv32)
    requires w & 0xF0F0_F0F0 == 0
    ensures (w * 0x0101_0101) >> 24 == LowByte32(FoldShorts32(w))
  {
  }

  lemma Wide32(w: bv32)
    ensures Wide(HWeight32(w)) == HWeight64(Wide(w)) && HWeight32Multiply(w) == HWeight32(w)
  {
    hide Wide, Pairs32, Nibbles32, Bytes32, FoldShorts32, LowByte32, Pairs, Nibbles, Bytes,
      FoldShorts, FoldLongs, LowByte;
    WidePairs(w);
    WideNibbles(Pairs32(w));
    WideBytes(Nibbles32(Pairs32(w)));
    WideShorts(Bytes32(Nibbles32(Pairs32(w))));
    WideLowByte(FoldShorts32(Bytes32(Nibbles32(Pairs32(w)))));
    MultiplyFold32(Bytes32(Nibbles32(Pairs32(w))));
  }

  lemma WideNibbles16(w: bv32)
    ensures Wide(Nibbles16(w)) == Nibbles(Pairs(Wide(w) & 0xFFFF)) && Nibbles16(w) & 0xFFFF_8888 == 0
  {
  }

  lemma WideFold16(w: bv32)
    requires w & 0xFFFF_8888 == 0
    ensures Wide(Fold16(w)) == LowByte(FoldLongs(FoldShorts(Bytes(Wide(w)))))
  {
  }

  lemma Wide16(w: bv32)
    ensures Wide(HWeight16(w)) == HWeight64(Wide(w) & 0xFFFF)
  {
    hide Wide, Nibbles16, Fold16, Pairs, Nibbles, Bytes, FoldShorts, FoldLongs, LowByte;
    WideNibbles16(w);
    WideFold16(Nibbles16(w));
  }

  lemma Wide8(w: bv32)
    ensures Wide(HWeight8(w)) == HWeight64(Wide(w) & 0xFF)
  {
  }

  // ---------- counting the low bits ----------

  lemma {:induction false} SameCount(v: Word, w: Word, len: nat)
    requires forall i: nat | i < len :: Bit(v, i) == Bit(w, i)
    ensures Count(v, 0, len) == Count(w, 0, len)
  {
    hide Bit;
    if len == 0 {
    } else {
      SameCount(v, w, len - 1);
    }
  }

  lemma {:induction false} NoneCounted(v: Word, lo: nat, len: nat)
    requires forall i: nat | lo <= i < lo + len :: !Bit(v, i)
    ensures Count(v, lo, len) == 0
  {
    hide Bit;
    if len == 0 {
    } else {
      NoneCounted(v, lo, len - 1);
    }
  }

  // A word that holds only the low bits of another
  lemma LowCount(v: Word, w: Word, n: nat)
    requires n <= 64 && forall i: nat | i < 64 :: Bit(v, i) == (i < n && Bit(w, i))
    ensures Count(v, 0, 64) == Count(w, 0, n)
  {
    hide Bit;
    CountSplit(v, 0, n, 64 - n);
    SameCount(v, w, n);
    NoneCounted(v, n, 64 - n);
  }

  lemma LowBitsAt(w: bv32, k: bv7)
    ensures BitAt(0xFFFF, k) == (k < 16) && BitAt(0xFF, k) == (k < 8)
    ensures k >= 32 ==> !BitAt(Wide(w), k)
  {
  }

  lemma LowBits(w: bv32, i: nat)
    requires i < 64
    ensures Bit(0xFFFF, i) == (i < 16) && Bit(0xFF, i) == (i < 8)
    ensures i >= 32 ==> !Bit(Wide(w), i)
  {
    hide BitAt, Index, Wide;
    LowBitsAt(w, Index(i));
    BelowIndex(i, 8, 8);
    BelowIndex(i, 16, 16);
    BelowIndex(i, 32, 32);
  }

  lemma BelowIndex(i: nat, n: nat, k: bv7)
    requires i < 64 && k as nat == n < 64
    ensures Index(i) < k <==> i < n
  {
    hide Index;
    SameIndex(k, n);
    IndexOrder(i, n);
  }

  lemma HWeight32IsCount(w: bv32)
    ensures Num(Wide(HWeight32(w))) == Count(Wide(w), 0, 32)
    ensures HWeight32Multiply(w) == HWeight32(w)
  {
    hide Wide, HWeight32, HWeight32Multiply, HWeight64, Count, Bit;
    Wide32(w);
    HWeight64IsCount(Wide(w));
    forall i: nat | i < 64
      ensures Bit(Wide(w), i) == (i < 32 && Bit(Wide(w), i))
    {
      LowBits(w, i);
    }
    LowCount(Wide(w), Wide(w), 32);
  }

  // Whatever the higher bits hold
  lemma HWeight16IsCount(w: bv32)
    ensures Num(Wide(HWeight16(w))) == Count(Wide(w), 0, 16)
  {
    hide Wide, HWeight16, HWeight64, Count, Bit;
    Wide16(w);
    Masked(w, Wide(w) & 0xFFFF, 0xFFFF, 16);
  }

  lemma HWeight8IsCount(w: bv32)
    ensures Num(Wide(HWeight8(w))) == Count(Wide(w), 0, 8)
  {
    hide Wide, HWeight8, HWeight64, Count, Bit;
    Wide8(w);
    Masked(w, Wide(w) & 0xFF, 0xFF, 8);
  }

  lemma Masked(w: bv32, v: Word, mask: Word, n: nat)
    requires v == Wide(w) & mask && ((n == 16 && mask == 0xFFFF) || (n == 8 && mask == 0xFF))
    ensures Num(HWeight64(v)) == Count(Wide(w), 0, n)
  {
    hide Wide, HWeight64, Count, Bit;
    HWeight64IsCount(v);
    forall i: nat | i < 64
      ensures Bit(v, i) == (i < n && Bit(Wide(w), i))
    {
      LowBits(w, i);
      AndIs(v, Wide(w), mask, i);
    }
    LowCount(v, Wide(w), n);
  }
}
