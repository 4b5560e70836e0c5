/**
  The hexadecimal format of bitmaps: comma-separated groups of 32 bits.
 */
module HexFormat {
  import opened Errors
  import opened Words
  import opened Bitops
  import opened Powers
  import opened Shifts
  import opened Tokens

  const TWO_TO_28 := 0x1000_0000

  lemma Constants()
    ensures Pow2(4) == 16 && Pow2(28) == TWO_TO_28 && Pow2(32) == TWO_TO_32
  {
    assert Pow2(2) == 4;
    Pow2Sum(2, 2);
    Pow2Sum(4, 4);
    Pow2Sum(8, 8);
    Pow2Sum(16, 16);
    Pow2Sum(16, 8);
    Pow2Sum(24, 4);
  }

  // ---------- the number in a word ----------

  ghost function WordValue(w: Word): nat {
    Digits([w], 0, 64)
  }

  // w has no bit at or above n
  ghost predicate Narrow(w: Word, n: nat) {
    forall i: nat | n <= i < 64 :: !Bit(w, i)
  }

  lemma WordAt(w: Word, i: nat)
    requires i < 64
    ensures At([w], i) == Bit(w, i)
  {
    hide Bit, At;
    AtIndex([w], i);
  }

  lemma NarrowValue(w: Word, n: nat)
    requires n <= 64 && Narrow(w, n)
    ensures WordValue(w) == Digits([w], 0, n) < Pow2(n)
  {
    hide Bit, At, Digits, Pow2;
    DigitsSplit([w], 0, n, 64 - n);
    forall i: nat | n <= i < 64
      ensures !At([w], i)
    {
      WordAt(w, i);
    }
    DigitsZero([w], n, 64 - n);
    DigitsBound([w], 0, n);
  }

  lemma {:induction false} DigitsAtLeast(s: seq<Word>, lo: nat, len: nat, i: nat)
    requires i < len && At(s, lo + i)
    ensures Digits(s, lo, len) >= Pow2(i)
  {
    hide At;
    if i >= len - 1 {
    } else {
      DigitsAtLeast(s, lo, len - 1, i);
    }
  }

  lemma WideValue(w: Word, i: nat)
    requires i < 64 && Bit(w, i)
    ensures WordValue(w) >= Pow2(i)
  {
    hide Bit, At;
    WordAt(w, i);
    DigitsAtLeast([w], 0, 64, i);
  }

  // ---------- hex digits ----------

  predicate IsXDigit(c: char) {
    '0' <= c <= '9' || 'a' <= c <= 'f' || 'A' <= c <= 'F'
  }

  lemma CommaIsNoDigit()
    ensures !IsXDigit(',')
  {
  }

  function ToLower(c: char): char {
    if 'A' <= c <= 'Z' then ((c as int - 'A' as int) + 'a' as int) as char else c
  }

  // hex_to_bin
  function HexToBin(ch: char): (v: int)
    ensures IsXDigit(ch) ==> 0 <= v < 16
    ensures !IsXDigit(ch) ==> v == -1
  {
    if '0' <= ch <= '9' then ch as int - '0' as int
    else
      var low := ToLower(ch);
      if 'a' <= low <= 'f' then low as int - 'a' as int + 10 else -1
  }

  function DigitWord(v: nat): Word
    requires v < 16
  {
    if v < 8 then
      if v < 4 then (if v == 0 then 0 else if v == 1 then 1 else if v == 2 then 2 else 3)
      else (if v == 4 then 4 else if v == 5 then 5 else if v == 6 then 6 else 7)
    else
      if v < 12 then (if v == 8 then 8 else if v == 9 then 9 else if v == 10 then 10 else 11)
      else (if v == 12 then 12 else if v == 13 then 13 else if v == 14 then 14 else 15)
  }

  ghost function B(b: bool): nat {
    if b then 1 else 0
  }

  lemma FourBits(w: Word)
    requires Narrow(w, 4)
    ensures WordValue(w) == B(Bit(w, 0)) + 2 * B(Bit(w, 1)) + 4 * B(Bit(w, 2)) + 8 * B(Bit(w, 3))
  {
    hide Bit, At;
    NarrowValue(w, 4);
    WordAt(w, 0);
    WordAt(w, 1);
    WordAt(w, 2);
    WordAt(w, 3);
    assert Digits([w], 0, 1) == B(Bit(w, 0)) by { assert Pow2(0) == 1; }
    assert Digits([w], 0, 2) == Digits([w], 0, 1) + 2 * B(Bit(w, 1)) by { assert Pow2(1) == 2; }
    assert Digits([w], 0, 3) == Digits([w], 0, 2) + 4 * B(Bit(w, 2)) by { assert Pow2(2) == 4; }
    assert Digits([w], 0, 4) == Digits([w], 0, 3) + 8 * B(Bit(w, 3)) by { assert Pow2(3) == 8; }
  }

  lemma FirstIndices()
    ensures Index(0) == 0 && Index(1) == 1 && Index(2) == 2 && Index(3) == 3 && Index(4) == 4
  {
  }

  lemma SmallAt(w: Word, k: bv7)
    requires w < 16 && k >= 4
    ensures !BitAt(w, k)
  {
  }

  lemma SmallNarrow(w: Word)
    requires w < 16
    ensures Narrow(w, 4)
  {
    hide BitAt, Index;
    FirstIndices();
    forall i: nat | 4 <= i < 64
      ensures !Bit(w, i)
    {
      IndexOrder(i, 4);
      SmallAt(w, Index(i));
    }
  }

  lemma LowDigitBitsAt(v: nat, w: Word)
    requires v < 16 && w == DigitWord(v)
    ensures w < 16 && BitAt(w, 0) == (v % 2 == 1) && BitAt(w, 1) == (v / 2 % 2 == 1)
  {
  }

  lemma HighDigitBitsAt(v: nat, w: Word)
    requires v < 16 && w == DigitWord(v)
    ensures BitAt(w, 2) == (v / 4 % 2 == 1) && BitAt(w, 3) == (v / 8 % 2 == 1)
  {
  }

  lemma DigitBits(v: nat)
    requires v < 16
    ensures DigitWord(v) < 16
    ensures Bit(DigitWord(v), 0) == (v % 2 == 1) && Bit(DigitWord(v), 1) == (v / 2 % 2 == 1)
    ensures Bit(DigitWord(v), 2) == (v / 4 % 2 == 1) && Bit(DigitWord(v), 3) == (v / 8 % 2 == 1)
  {
    hide BitAt, DigitWord;
    LowDigitBitsAt(v, DigitWord(v));
    HighDigitBitsAt(v, DigitWord(v));
    FirstIndices();
  }

  lemma DigitWordValue(v: nat)
    requires v < 16
    ensures WordValue(DigitWord(v)) == v && Narrow(DigitWord(v), 4)
  {
    hide Bit, DigitWord, WordValue;
    DigitBits(v);
    SmallNarrow(DigitWord(v));
    FourBits(DigitWord(v));
  }

  // The digit a word below 16 stands for
  function DigitOf(w: Word): (v: nat)
    ensures v < 16
    ensures w < 16 ==> DigitWord(v) == w
  {
    if w < 8 then
      if w < 4 then (if w == 0 then 0 else if w == 1 then 1 else if w == 2 then 2 else 3)
      else (if w == 4 then 4 else if w == 5 then 5 else if w == 6 then 6 else 7)
    else
      if w < 12 then (if w == 8 then 8 else if w == 9 then 9 else if w == 10 then 10 else 11)
      else (if w == 12 then 12 else if w == 13 then 13 else if w == 14 then 14 else 15)
  }

  function HexChar(v: nat): (c: char)
    requires v < 16
    ensures IsXDigit(c) && HexToBin(c) == v
  {
    if v < 10 then ('0' as int + v) as char else ('a' as int + v - 10) as char
  }

  // ---------- numbers in hex ----------

  ghost predicate AllXDigits(s: string) {
    forall i | 0 <= i < |s| :: IsXDigit(s[i])
  }

  ghost function HexNumber(s: string): nat
    requires AllXDigits(s)
  {
    if s == "" then 0 else HexNumber(s[..|s| - 1]) * 16 + HexToBin(s[|s| - 1])
  }

  lemma {:induction false} HexNumberGrows(s: string, t: string)
    requires AllXDigits(s + t)
    ensures AllXDigits(s) && HexNumber(s + t) >= HexNumber(s)
    decreases |t|
  {
    forall i | 0 <= i < |s|
      ensures IsXDigit(s[i])
    {
      assert (s + t)[i] == s[i];
    }
    if t == "" {
      assert s + t == s;
    } else {
      var u := t[..|t| - 1];
      assert (s + t)[..|s + t| - 1] == s + u;
      HexNumberGrows(s, u);
    }
  }

  // The number whose digits in base 2^32 are the items
  ghost function Numeral(items: seq<string>): nat
    requires forall item | item in items :: AllXDigits(item)
  {
    if items == [] then 0 else Numeral(items[..|items| - 1]) * TWO_TO_32 + HexNumber(items[|items| - 1])
  }

  lemma {:induction false} NumeralGrows(items: seq<string>, more: seq<string>)
    requires forall item | item in items + more :: AllXDigits(item)
    ensures (forall item | item in items :: AllXDigits(item)) && Numeral(items + more) >= Numeral(items)
    decreases |more|
  {
    hide AllXDigits;
    forall item | item in items
      ensures AllXDigits(item)
    {
      assert item in items + more;
    }
    if more == [] {
      assert items + more == items;
    } else {
      var init := more[..|more| - 1];
      assert (items + more)[..|items + more| - 1] == items + init;
      NumeralGrows(items, init);
    }
  }

  lemma NumeralAdd(items: seq<string>, item: string)
    requires AllXDigits(item) && forall i | i in items :: AllXDigits(i)
    ensures (forall i | i in items + [item] :: AllXDigits(i))
    ensures Numeral(items + [item]) == Numeral(items) * TWO_TO_32 + HexNumber(item)
  {
    hide AllXDigits;
    assert (items + [item])[..|items|] == items;
  }

  ghost predicate GoodItem(s: string) {
    s != "" && AllXDigits(s)
  }

  // ---------- the value of a chunk ----------

  ghost predicate Appended(next: Word, chunk: Word, low: Word) {
    forall i: nat | i < 64 :: Bit(next, i) == if i < 4 then Bit(low, i) else Bit(chunk, i - 4)
  }

  // (chunk << 4) | digit appends a hex digit
  lemma AppendDigit(chunk: Word, v: nat, next: Word)
    requires v < 16 && Narrow(chunk, 28) && next == Shl(chunk, 4) | DigitWord(v)
    ensures WordValue(next) == WordValue(chunk) * 16 + v && Narrow(next, 32)
  {
    hide Bit, DigitWord, Shl, WordValue;
    forall i: nat | i < 64
      ensures Bit(next, i) == if i < 4 then Bit(DigitWord(v), i) else Bit(chunk, i - 4)
    {
      AppendedBit(chunk, v, next, i);
    }
    DigitWordValue(v);
    AppendedValue(next, chunk, DigitWord(v));
  }

  lemma AppendedNarrow(next: Word, chunk: Word, low: Word)
    requires Narrow(chunk, 28) && Narrow(low, 4) && Appended(next, chunk, low)
    ensures Narrow(next, 32) && Narrow(chunk, 60)
  {
    hide Bit;
  }

  lemma AppendedParts(next: Word, chunk: Word, low: Word)
    requires Appended(next, chunk, low)
    ensures forall i: nat | i < 4 :: At([next], i) == At([low], i)
    ensures forall i: nat | i < 60 :: At([next], 4 + i) == At([chunk], i)
  {
    hide Bit, At;
    forall i: nat | i < 64
      ensures At([next], i) == Bit(next, i) && At([chunk], i) == Bit(chunk, i) && At([low], i) == Bit(low, i)
    {
      WordAt(next, i);
      WordAt(chunk, i);
      WordAt(low, i);
    }
  }

  lemma AppendedValue(next: Word, chunk: Word, low: Word)
    requires Narrow(chunk, 28) && Narrow(low, 4) && Appended(next, chunk, low)
    ensures WordValue(next) == WordValue(chunk) * 16 + WordValue(low) && Narrow(next, 32)
  {
    hide At, Digits, Pow2, Narrow, Appended;
    Constants();
    DigitsSplit([next], 0, 4, 60);
    AppendedNarrow(next, chunk, low);
    NarrowValue(low, 4);
    NarrowValue(chunk, 60);
    AppendedParts(next, chunk, low);
    DigitsAgree([next], 0, [low], 0, 4);
    DigitsAgree([next], 4, [chunk], 0, 60);
  }

  lemma AppendedBit(chunk: Word, v: nat, next: Word, i: nat)
    requires v < 16 && i < 64 && next == Shl(chunk, 4) | DigitWord(v)
    ensures Bit(next, i) == if i < 4 then Bit(DigitWord(v), i) else Bit(chunk, i - 4)
  {
    hide Bit, DigitWord, Shl;
    OrIs(next, Shl(chunk, 4), DigitWord(v), i);
    ShlBit(chunk, 4, i);
    DigitWordValue(v);
  }

  // chunk & ~((1UL << (CHUNKSZ - 4)) - 1): is there room for another digit?
  method Crowded(chunk: Word) returns (crowded: bool)
    ensures crowded <==> !Narrow(chunk, 28)
    ensures crowded ==> WordValue(chunk) >= TWO_TO_28
    ensures !crowded ==> WordValue(chunk) < TWO_TO_28
  {
    hide Bit, LowMask, WordValue;
    Constants();
    var high := chunk & !LowMask(28);
    crowded := high != 0;
    if crowded {
      var i := NonZero(high);
      HighPart(chunk, high, i);
      WideValue(chunk, i);
      Pow2Monotone(28, i);
    } else {
      forall i: nat | 28 <= i < 64
        ensures !Bit(chunk, i)
      {
        HighPart(chunk, high, i);
        ZeroBit(i);
      }
      NarrowValue(chunk, 28);
    }
  }

  lemma HighPart(chunk: Word, high: Word, i: nat)
    requires high == chunk & !LowMask(28) && i < 64
    ensures Bit(high, i) == (i >= 28 && Bit(chunk, i))
  {
    hide Bit, LowMask;
    AndNotIs(high, chunk, LowMask(28), i);
    LowMaskBit(28, i);
  }

  // ---------- reading one chunk ----------

  // Some leading part of s is a hex number of more than 32 bits
  ghost predicate TooWide(s: string) {
    exists m :: 0 <= m <= |s| && AllXDigits(s[..m]) && HexNumber(s[..m]) >= TWO_TO_32
  }

  ghost predicate ChunkState(p: string, ndigits: nat, chunk: Word) {
    AllXDigits(p) && ndigits == |p| && HexNumber(p) == WordValue(chunk) && Narrow(chunk, 32)
  }

  lemma ChunkStart()
    ensures ChunkState("", 0, 0)
  {
    hide Bit, At;
    forall i: nat
      ensures !Bit(0, i)
    {
      ZeroBit(i);
    }
    NarrowValue(0, 0);
  }

  lemma ChunkDigit(p: string, ndigits: nat, chunk: Word, c: char, next: Word)
    requires ChunkState(p, ndigits, chunk) && IsXDigit(c) && Narrow(chunk, 28)
    requires next == Shl(chunk, 4) | DigitWord(HexToBin(c))
    ensures ChunkState(p + [c], ndigits + 1, next)
  {
    hide Bit, DigitWord, Shl, WordValue, IsXDigit;
    AppendDigit(chunk, HexToBin(c), next);
    AppendNumber(p, c);
  }

  lemma AppendNumber(p: string, c: char)
    requires AllXDigits(p) && IsXDigit(c)
    ensures AllXDigits(p + [c]) && HexNumber(p + [c]) == HexNumber(p) * 16 + HexToBin(c)
  {
    assert (p + [c])[..|p|] == p;
  }

  // One more digit after a value of 28 bits makes the chunk too wide
  lemma CrowdedIsTooWide(p: string, c: char, rest: string)
    requires AllXDigits(p) && IsXDigit(c) && HexNumber(p) >= TWO_TO_28
    ensures TooWide(p + [c] + rest)
  {
    AppendNumber(p, c);
    var s := p + [c] + rest;
    assert s[..|p| + 1] == p + [c];
  }

  lemma TooWideGrows(s: string)
    requires AllXDigits(s) && TooWide(s)
    ensures HexNumber(s) >= TWO_TO_32
  {
    var m :| 0 <= m <= |s| && AllXDigits(s[..m]) && HexNumber(s[..m]) >= TWO_TO_32;
    assert s == s[..m] + s[m..];
    HexNumberGrows(s[..m], s[m..]);
  }

  // A wrong character before the chunk is too wide
  lemma BadXDigit(p: string, ndigits: nat, chunk: Word, c: char, rest: string)
    requires ChunkState(p, ndigits, chunk) && !IsXDigit(c)
    ensures !FittingItem(p + [c] + rest) && !TooWide(p + [c] + rest)
  {
    hide IsXDigit, WordValue, Narrow;
    Constants();
    NarrowValue(chunk, 32);
    var s := p + [c] + rest;
    assert s[|p|] == c;
    forall m | |p| < m <= |s|
      ensures !AllXDigits(s[..m])
    {
      assert s[..m][|p|] == c;
    }
    forall m | 0 <= m <= |p| && AllXDigits(s[..m])
      ensures HexNumber(s[..m]) < TWO_TO_32
    {
      assert p == s[..m] + p[m..];
      HexNumberGrows(s[..m], p[m..]);
    }
  }

  lemma SpaceIsNoXDigit(c: char)
    ensures IsSpace(c) || Ends(c) ==> !IsXDigit(c)
    ensures IsSpace(c) ==> c != NUL && !Ends(c)
  {
  }

  // The inner loop of __bitmap_parse
  method ReadChunk(buf: string, start: nat, digitsBefore: nat)
    returns (err: int, pos: nat, totaldigits: nat, ndigits: nat, chunk: Word)
    requires start <= |buf| && NoNul(buf, start) && CleanTo(buf, IsXDigit, start)
    requires digitsBefore > 0 <==> Seen(buf, IsXDigit, start)
    ensures err == 0 ==>
      var stop := StopAt(buf, start);
      && ChunkState(ItemAt(buf, start), ndigits, chunk)
      && pos == (if stop < |buf| then stop + 1 else stop)
      && NoNul(buf, stop) && CleanTo(buf, IsXDigit, pos)
      && (totaldigits > 0 <==> Seen(buf, IsXDigit, stop))
    ensures err != 0 ==> err == -EINVAL || err == -EOVERFLOW
    ensures err == -EINVAL && NoEmbedded(buf, IsXDigit) ==>
              !FittingItem(ItemAt(buf, start)) && !TooWide(ItemAt(buf, start))
    ensures err == -EOVERFLOW ==> TooWide(ItemAt(buf, start)) && !FittingItem(ItemAt(buf, start))
  {
    hide IsXDigit, FittingItem, NoEmbedded, CleanTo, NoNul, Seen, StopAt, ItemAt, TooWide, WordValue, Narrow,
      Shl, DigitWord;
    pos, totaldigits, ndigits, chunk, err := start, digitsBefore, 0, 0, 0;
    ghost var p := "";
    assert "" + ItemAt(buf, start) == ItemAt(buf, start);
    ChunkStart();
    while pos < |buf|
      invariant start <= pos <= |buf| && NoNul(buf, pos) && CleanTo(buf, IsXDigit, pos)
      invariant totaldigits > 0 <==> Seen(buf, IsXDigit, pos)
      invariant ItemAt(buf, start) == p + ItemAt(buf, pos) && StopAt(buf, start) == StopAt(buf, pos)
      invariant ChunkState(p, ndigits, chunk)
    {
      var c := buf[pos];
      var old_c := if pos > 0 then buf[pos - 1] else NUL;
      ItemStep(buf, pos);
      SpaceIsNoXDigit(c);
      SeenStep(buf, IsXDigit, pos);
      if IsSpace(c) {
        BlankStep(buf, IsXDigit, pos);
        pos := pos + 1;
        continue;
      }
      if totaldigits > 0 && c != NUL && IsSpace(old_c) {
        EmbeddedFound(buf, IsXDigit, pos);
        err := -EINVAL;
        return;
      }
      CleanStep(buf, IsXDigit, pos);
      if c == NUL || c == ',' {
        assert p + "" == p;
        pos := pos + 1;
        return;
      }
      ghost var rest := ItemAt(buf, pos + 1);
      assert p + ([c] + rest) == p + [c] + rest;
      if !IsXDigit(c) {
        BadXDigit(p, ndigits, chunk, c, rest);
        err := -EINVAL;
        return;
      }
      var crowded := Crowded(chunk);
      if crowded {
        CrowdedIsTooWide(p, c, rest);
        TooWideIsUnfit(p + [c] + rest);
        err := -EOVERFLOW;
        return;
      }
      chunk := PutDigit(p, ndigits, chunk, c);
      ndigits := ndigits + 1;
      totaldigits := totaldigits + 1;
      p := p + [c];
      pos := pos + 1;
    }
    ItemPastEnd(buf);
    assert p + "" == p;
  }

  // chunk = (chunk << 4) | hex_to_bin(c)
  method PutDigit(ghost p: string, ghost ndigits: nat, chunk: Word, c: char) returns (next: Word)
    requires ChunkState(p, ndigits, chunk) && IsXDigit(c) && Narrow(chunk, 28)
    ensures ChunkState(p + [c], ndigits + 1, next)
  {
    hide Bit, DigitWord, Shl, WordValue, IsXDigit, ChunkState;
    next := Shl(chunk, 4) | DigitWord(HexToBin(c));
    ChunkDigit(p, ndigits, chunk, c, next);
  }

  // ---------- shifting a chunk in ----------

  ghost predicate ChunkedIn(e: seq<Word>, d: seq<Word>, chunk: Word) {
    forall i: nat :: At(e, i) == (At(d, i) || (i < 64 && Bit(chunk, i)))
  }

  // *maskp |= chunk
  method OrChunk(mask: array<Word>, chunk: Word)
    requires mask.Length > 0
    modifies mask
    ensures ChunkedIn(mask[..], old(mask[..]), chunk)
  {
    hide Bit, At;
    ghost var d := mask[..];
    var word := mask[0] | chunk;
    mask[0] := word;
    forall i: nat
      ensures At(mask[..], i) == (At(d, i) || (i < 64 && Bit(chunk, i)))
    {
      if i < 64 {
        OrIs(word, d[0], chunk, i);
        AtIndex(mask[..], i);
        AtIndex(d, i);
      } else {
        SameAt(mask[..], d, i);
      }
    }
  }

  lemma SameAt(s: seq<Word>, t: seq<Word>, i: nat)
    requires |s| == |t| && (i / 64 < |s| ==> s[i / 64] == t[i / 64])
    ensures At(s, i) == At(t, i)
  {
  }

  // No bit is lost while the new value fits: the bitmap then holds the old value times 2^32 plus the chunk
  lemma ChunkValue(s: seq<Word>, d: seq<Word>, e: seq<Word>, chunk: Word, n: nat)
    requires IsLeft(d, s, 32, n) && ChunkedIn(e, d, chunk) && Narrow(chunk, 32)
    requires Value(s, n) * TWO_TO_32 + WordValue(chunk) < Pow2(n)
    ensures Value(e, n) == Value(s, n) * TWO_TO_32 + WordValue(chunk)
  {
    hide Digits, Pow2, IsLeft, ChunkedIn, Narrow, WordValue, At, Bit;
    Constants();
    if n >= 32 {
      LeftParts32(s, d, e, chunk, n);
      DigitsSplit(e, 0, 32, n - 32);
      DigitsSplit(s, 0, n - 32, 32);
      Pow2Sum(n - 32, 32);
      HighPartGone(Digits(s, 0, n - 32), Pow2(n - 32), Digits(s, n - 32, 32), Value(s, n));
    } else {
      Pow2Monotone(n, 32);
      ShortChunk(s, d, e, chunk, n);
    }
  }

  lemma HighPartGone(low: nat, p: nat, high: nat, v: nat)
    requires v == low + p * high && v < p
    ensures v == low
  {
    if high > 0 {
      MulMonotone(p, 1, high);
    }
  }

  lemma LeftParts32(s: seq<Word>, d: seq<Word>, e: seq<Word>, chunk: Word, n: nat)
    requires IsLeft(d, s, 32, n) && ChunkedIn(e, d, chunk) && Narrow(chunk, 32) && n >= 32
    ensures Digits(e, 0, 32) == WordValue(chunk)
    ensures Digits(e, 32, n - 32) == Digits(s, 0, n - 32)
  {
    hide Bit, At, Digits, Pow2;
    NarrowValue(chunk, 32);
    forall i: nat | i < 32
      ensures At(e, i) == At([chunk], i)
    {
      WordAt(chunk, i);
    }
    DigitsAgree(e, 0, [chunk], 0, 32);
    DigitsAgree(e, 32, s, 0, n - 32);
  }

  lemma ShortChunk(s: seq<Word>, d: seq<Word>, e: seq<Word>, chunk: Word, n: nat)
    requires IsLeft(d, s, 32, n) && ChunkedIn(e, d, chunk) && Narrow(chunk, 32) && n < 32
    requires WordValue(chunk) < Pow2(n)
    ensures Digits(e, 0, n) == WordValue(chunk)
  {
    hide Bit, At, Digits, Pow2, WordValue;
    forall i: nat | n <= i < 64
      ensures !Bit(chunk, i)
    {
      if Bit(chunk, i) {
        WideValue(chunk, i);
        Pow2Monotone(n, i);
      }
    }
    NarrowValue(chunk, n);
    forall i: nat | i < n
      ensures At(e, i) == At([chunk], i)
    {
      WordAt(chunk, i);
    }
    DigitsAgree(e, 0, [chunk], 0, n);
  }

  // ---------- the length of the number ----------

  // Exactly len binary digits
  ghost predicate Length(v: nat, len: nat) {
    if v == 0 then len == 0 else len > 0 && Pow2(len - 1) <= v < Pow2(len)
  }

  lemma LongerByChunk(v: nat, len: nat, c: nat)
    requires Length(v, len) && v > 0 && c < TWO_TO_32
    ensures Length(v * TWO_TO_32 + c, len + 32)
  {
    hide Pow2;
    Constants();
    Pow2Sum(len - 1, 32);
    Pow2Sum(len, 32);
  }

  lemma LengthFits(v: nat, len: nat, n: nat)
    requires Length(v, len)
    ensures len <= n <==> v < Pow2(n)
  {
    hide Pow2;
    if v > 0 {
      if len <= n {
        Pow2Monotone(len, n);
      } else {
        Pow2Monotone(n, len - 1);
      }
    }
  }

  // nbits_to_hold_value
  method ChunkLength(chunk: Word) returns (len: nat)
    requires Narrow(chunk, 32)
    ensures Length(WordValue(chunk), len)
  {
    hide Bit, WordValue;
    NarrowIsSmall(chunk);
    len := Fls(chunk);
    if chunk == 0 {
      forall i: nat
        ensures !Bit(chunk, i)
      {
        ZeroBit(i);
      }
      NarrowValue(chunk, 0);
    } else {
      NarrowValue(chunk, len);
      WideValue(chunk, len - 1);
      assert Pow2(len - 1) > 0;
    }
  }

  lemma NarrowIsSmall(w: Word)
    requires Narrow(w, 32)
    ensures w <= 0xFFFF_FFFF
  {
    hide Bit;
    if w & 0xFFFF_FFFF_0000_0000 != 0 {
      var i := NonZero(w & 0xFFFF_FFFF_0000_0000);
      HighHalfBit(w, w & 0xFFFF_FFFF_0000_0000, i);
    }
    SmallIfNoHigh(w);
  }

  lemma HighHalfBit(w: Word, high: Word, i: nat)
    requires high == w & 0xFFFF_FFFF_0000_0000 && i < 64 && Bit(high, i)
    ensures i >= 32 && Bit(w, i)
  {
    hide Bit;
    AndIs(high, w, 0xFFFF_FFFF_0000_0000, i);
    HighHalfMask(i);
  }

  lemma HighHalfMask(i: nat)
    requires i < 64
    ensures Bit(0xFFFF_FFFF_0000_0000, i) ==> i >= 32
  {
    hide BitAt, Index;
    SameIndex(32, 32);
    IndexOrder(i, 32);
    HighHalfMaskAt(Index(i));
  }

  lemma HighHalfMaskAt(k: bv7)
    ensures BitAt(0xFFFF_FFFF_0000_0000, k) ==> k >= 32
  {
  }

  lemma SmallIfNoHigh(w: Word)
    ensures w & 0xFFFF_FFFF_0000_0000 == 0 ==> w <= 0xFFFF_FFFF
  {
  }

  // ---------- the parser ----------

  ghost predicate FittingItem(s: string) {
    GoodItem(s) && HexNumber(s) < TWO_TO_32
  }

  ghost predicate FittingItems(items: seq<string>) {
    forall item | item in items :: FittingItem(item)
  }

  ghost function NumeralOf(items: seq<string>): nat
    requires FittingItems(items)
  {
    Numeral(items)
  }

  ghost predicate Accepts(text: string, n: nat) {
    NoEmbedded(text, IsXDigit) && Fits(Items(text), n)
  }

  ghost predicate Fits(items: seq<string>, n: nat) {
    FittingItems(items) && NumeralOf(items) < Pow2(n)
  }

  // Up to item k all is well, but not with it
  ghost predicate FirstUnfit(items: seq<string>, n: nat, k: nat) {
    k < |items| && Fits(items[..k], n) && !Fits(items[..k + 1], n)
  }

  // That item has more than 32 bits, or makes the number longer than n bits
  ghost predicate Overflows(items: seq<string>, n: nat) {
    exists k: nat :: FirstUnfit(items, n, k) && (TooWide(items[k]) || FittingItem(items[k]))
  }

  // That item is not a number, and has a wrong character before it has 32 bits
  ghost predicate Malformed(items: seq<string>, n: nat) {
    exists k: nat :: FirstUnfit(items, n, k) && !TooWide(items[k]) && !FittingItem(items[k])
  }

  lemma PrefixFits(items: seq<string>, j: nat, n: nat)
    requires Fits(items, n) && j <= |items|
    ensures Fits(items[..j], n)
  {
    hide AllXDigits, Pow2;
    assert items == items[..j] + items[j..];
    NumeralGrows(items[..j], items[j..]);
  }

  lemma FirstUnfitUnique(items: seq<string>, n: nat, j: nat, k: nat)
    requires FirstUnfit(items, n, j) && FirstUnfit(items, n, k)
    ensures j == k
  {
    hide Fits;
    if j < k {
      assert items[..k][..j + 1] == items[..j + 1];
      PrefixFits(items[..k], j + 1, n);
    } else if k < j {
      assert items[..j][..k + 1] == items[..k + 1];
      PrefixFits(items[..j], k + 1, n);
    }
  }

  // At most one of the two errors is due, and none if all is well
  lemma OneError(items: seq<string>, n: nat)
    ensures Overflows(items, n) ==> !Malformed(items, n)
    ensures Fits(items, n) ==> !Overflows(items, n) && !Malformed(items, n)
  {
    hide Fits, TooWide, FittingItem, FirstUnfit;
    forall j: nat, k: nat | FirstUnfit(items, n, j) && FirstUnfit(items, n, k)
      ensures j == k
    {
      FirstUnfitUnique(items, n, j, k);
    }
    forall k: nat | FirstUnfit(items, n, k)
      ensures k < |items| && !Fits(items, n)
    {
      UnfitPrefix(items, n, k);
    }
  }

  lemma UnfitPrefix(items: seq<string>, n: nat, k: nat)
    requires FirstUnfit(items, n, k)
    ensures k < |items| && !Fits(items, n)
  {
    hide Fits;
    if Fits(items, n) {
      PrefixFits(items, k + 1, n);
    }
  }

  lemma Unfit(done: seq<string>, item: string, rest: seq<string>, n: nat)
    requires Fits(done, n) && !Fits(done + [item], n) && rest != [] && rest[0] == item
    ensures TooWide(item) || FittingItem(item) ==> Overflows(done + rest, n)
    ensures !TooWide(item) && !FittingItem(item) ==> Malformed(done + rest, n)
  {
    hide Fits, TooWide, FittingItem;
    var items := done + rest;
    assert items[..|done|] == done && items[..|done| + 1] == done + [item] && items[|done|] == item;
    assert FirstUnfit(items, n, |done|);
  }

  // An item that does not fit makes the items not fit
  lemma UnfitItem(done: seq<string>, item: string, n: nat)
    requires !FittingItem(item)
    ensures !Fits(done + [item], n)
  {
    hide FittingItem;
    assert item in done + [item];
  }

  lemma TooWideIsUnfit(item: string)
    requires TooWide(item)
    ensures !FittingItem(item)
  {
    hide TooWide;
    if FittingItem(item) {
      TooWideGrows(item);
    }
  }

  // What the parser knows after the items done
  ghost predicate ParseState(done: seq<string>, v: nat, nchunks: nat, nbits: nat, n: nat) {
    && FittingItems(done) && NumeralOf(done) == v
    && (nchunks == 0 <==> v == 0)
    && Length(v, nbits) && nbits <= n
  }

  lemma ParseStart(text: string, n: nat)
    ensures NoNul(text, 0) && CleanTo(text, IsXDigit, 0) && !Seen(text, IsXDigit, 0)
    ensures ParseState([], 0, 0, 0, n) && Items(text) == [] + ItemsFrom(text, 0)
  {
    hide IsXDigit, ItemsFrom, GoodItem;
  }

  lemma {:induction false} EmptyValue(s: seq<Word>, n: nat)
    requires Bits(s, n) == {}
    ensures Value(s, n) == 0
  {
    hide At;
    forall i: nat | i < n
      ensures !At(s, i)
    {
      assert i !in Bits(s, n);
    }
    DigitsZero(s, 0, n);
  }

  // __bitmap_parse
  method ParseHex(buf: string, mask: array<Word>, n: nat) returns (ret: int)
    requires n > 0 && Longs(n) <= mask.Length
    modifies mask
    ensures ret == 0 <==> Accepts(buf, n)
    ensures ret == 0 ==> Value(mask[..], n) == NumeralOf(Items(buf))
    ensures ret != 0 ==> ret == -EINVAL || ret == -EOVERFLOW
    ensures ret == -EOVERFLOW ==> Overflows(Items(buf), n)
    ensures NoEmbedded(buf, IsXDigit) ==> (ret == -EOVERFLOW <==> Overflows(Items(buf), n))
    ensures NoEmbedded(buf, IsXDigit) ==> (ret == -EINVAL <==> Malformed(Items(buf), n))
  {
    hide At, IsXDigit, GoodItem, FittingItem, FittingItems, NumeralOf, NoEmbedded, CleanTo, NoNul, Seen, StopAt, ItemAt;
    hide ItemsFrom, Another, ParseState, Accepts, Fits, Overflows, Malformed, TooWide, Value, Pow2, ChunkState;
    BitmapZero(mask, n);
    EmptyValue(mask[..], n);
    var pos, totaldigits := 0, 0;
    var nchunks: nat, nbits: nat := 0, 0;
    ghost var done: seq<string> := [];
    ParseStart(buf, n);
    OneError(Items(buf), n);
    AcceptsMeans(buf, n);
    while true
      invariant pos <= |buf| && NoNul(buf, pos) && CleanTo(buf, IsXDigit, pos)
      invariant totaldigits > 0 <==> Seen(buf, IsXDigit, pos)
      invariant Items(buf) == done + ItemsFrom(buf, pos)
      invariant ParseState(done, Value(mask[..], n), nchunks, nbits, n)
      decreases |buf| - pos
    {
      ghost var item, stop := ItemAt(buf, pos), StopAt(buf, pos);
      ItemsStep(buf, pos);
      DoneFits(done, Value(mask[..], n), nchunks, nbits, n);
      if !Fits(done + [item], n) {
        Unfit(done, item, ItemsFrom(buf, pos), n);
      }
      var err, next, digits, ndigits, chunk := ReadChunk(buf, pos, totaldigits);
      if err != 0 {
        if !FittingItem(item) {
          UnfitItem(done, item, n);
        }
        return err;
      }
      if ndigits == 0 {
        NoDigits(item, ndigits, chunk);
        UnfitItem(done, item, n);
        return -EINVAL;
      }
      ghost var v := Value(mask[..], n);
      if nchunks == 0 && chunk == 0 {
        LeadingZero(done, item, v, nchunks, nbits, n, ndigits);
      } else {
        ghost var s := mask[..];
        ShiftLeft(mask, mask, 32, n);
        ghost var d := mask[..];
        OrChunk(mask, chunk);
        nchunks := nchunks + 1;
        var more := 32;
        ChunkIsNarrow(item, ndigits, chunk);
        if nchunks == 1 {
          more := ChunkLength(chunk);
        }
        nbits := nbits + more;
        NextChunk(done, item, v, nchunks, nbits, n, ndigits, chunk, more);
        if nbits > n {
          TooLong(done, item, n, nbits);
          return -EOVERFLOW;
        }
        Accumulated(done, item, s, d, mask[..], nchunks, nbits, n, chunk, ndigits);
      }
      done := done + [item];
      if !(next < |buf| && buf[next - 1] == ',') {
        Finished(buf, IsXDigit, pos, stop, next);
        assert Items(buf) == done;
        Accepted(buf, done, Value(mask[..], n), nchunks, nbits, n);
        return 0;
      }
      CommaIsNoDigit();
      Continues(buf, IsXDigit, stop, next);
      assert Items(buf) == done + ItemsFrom(buf, next);
      pos, totaldigits := next, digits;
    }
  }

  lemma ChunkIsNarrow(item: string, ndigits: nat, chunk: Word)
    requires ChunkState(item, ndigits, chunk)
    ensures Narrow(chunk, 32)
  {
  }

  lemma NoDigits(item: string, ndigits: nat, chunk: Word)
    requires ChunkState(item, ndigits, chunk) && ndigits == 0
    ensures !FittingItem(item) && !TooWide(item)
  {
  }

  lemma AcceptsMeans(text: string, n: nat)
    ensures Accepts(text, n) <==> NoEmbedded(text, IsXDigit) && Fits(Items(text), n)
  {
  }

  lemma DoneFits(done: seq<string>, v: nat, nchunks: nat, nbits: nat, n: nat)
    requires ParseState(done, v, nchunks, nbits, n)
    ensures Fits(done, n)
  {
    hide Pow2, FittingItems, NumeralOf;
    LengthFits(v, nbits, n);
  }

  lemma Accepted(text: string, items: seq<string>, v: nat, nchunks: nat, nbits: nat, n: nat)
    requires items == Items(text) && ParseState(items, v, nchunks, nbits, n) && NoEmbedded(text, IsXDigit)
    ensures Accepts(text, n) && NumeralOf(items) == v
  {
    hide Items, IsXDigit, NoEmbedded, FittingItems, NumeralOf;
    LengthFits(v, nbits, n);
  }

  lemma AddItem(done: seq<string>, item: string)
    requires FittingItems(done) && FittingItem(item)
    ensures FittingItems(done + [item])
    ensures NumeralOf(done + [item]) == NumeralOf(done) * TWO_TO_32 + HexNumber(item)
  {
    hide AllXDigits;
    NumeralAdd(done, item);
  }

  lemma ChunkFits(item: string, ndigits: nat, chunk: Word)
    requires ChunkState(item, ndigits, chunk) && ndigits > 0
    ensures FittingItem(item) && HexNumber(item) == WordValue(chunk)
  {
    hide AllXDigits, WordValue;
    Constants();
    NarrowValue(chunk, 32);
  }

  lemma LeadingZero(done: seq<string>, item: string, v: nat, nchunks: nat, nbits: nat, n: nat, ndigits: nat)
    requires ParseState(done, v, nchunks, nbits, n) && ChunkState(item, ndigits, 0) && ndigits > 0 && nchunks == 0
    ensures ParseState(done + [item], v, nchunks, nbits, n)
  {
    hide FittingItems, NumeralOf, FittingItem;
    ChunkFits(item, ndigits, 0);
    AddItem(done, item);
    ChunkStart();
    assert HexNumber("") == 0;
  }

  // Counting in the chunk, before the length is compared with the size of the bitmap
  lemma NextChunk(done: seq<string>, item: string, v: nat, nchunks: nat, nbits: nat, n: nat, ndigits: nat,
                  chunk: Word, more: nat)
    requires nchunks > 0 && nbits >= more && ParseState(done, v, nchunks - 1, nbits - more, n)
    requires ChunkState(item, ndigits, chunk) && ndigits > 0 && (nchunks == 1 ==> chunk != 0)
    requires if nchunks == 1 then Length(WordValue(chunk), more) else more == 32
    ensures FittingItem(item) && FittingItems(done) && FittingItems(done + [item])
    ensures NumeralOf(done + [item]) == v * TWO_TO_32 + WordValue(chunk) > 0
    ensures Length(NumeralOf(done + [item]), nbits)
  {
    hide FittingItems, NumeralOf, FittingItem, WordValue, Pow2, Bit;
    ChunkFits(item, ndigits, chunk);
    AddItem(done, item);
    Constants();
    NarrowValue(chunk, 32);
    if nchunks == 1 {
      PositiveChunk(chunk);
    } else {
      LongerByChunk(v, nbits - more, WordValue(chunk));
    }
  }

  lemma PositiveChunk(chunk: Word)
    requires chunk != 0
    ensures WordValue(chunk) > 0
  {
    hide Bit, WordValue;
    var i := NonZero(chunk);
    WideValue(chunk, i);
    assert Pow2(i) > 0;
  }

  lemma TooLong(done: seq<string>, item: string, n: nat, nbits: nat)
    requires FittingItems(done + [item]) && Length(NumeralOf(done + [item]), nbits) && nbits > n
    ensures !Fits(done + [item], n)
  {
    hide FittingItems, NumeralOf, Pow2, Length;
    LengthFits(NumeralOf(done + [item]), nbits, n);
  }

  lemma Accumulated(done: seq<string>, item: string, s: seq<Word>, d: seq<Word>, e: seq<Word>,
                    nchunks: nat, nbits: nat, n: nat, chunk: Word, ndigits: nat)
    requires FittingItems(done + [item]) && Length(NumeralOf(done + [item]), nbits) && nbits <= n && nchunks > 0
    requires NumeralOf(done + [item]) == Value(s, n) * TWO_TO_32 + WordValue(chunk) > 0
    requires ChunkState(item, ndigits, chunk) && IsLeft(d, s, 32, n) && ChunkedIn(e, d, chunk)
    ensures ParseState(done + [item], Value(e, n), nchunks, nbits, n)
  {
    hide FittingItems, NumeralOf, Pow2, Length, Value, WordValue, IsLeft, ChunkedIn, Narrow;
    LengthFits(NumeralOf(done + [item]), nbits, n);
    ChunkValue(s, d, e, chunk, n);
  }

  // ---------- the printer ----------

  // %0*lx for a value that fits in width digits
  function HexPadded(val: Word, width: nat): string
    decreases width
  {
    if width == 0 then "" else HexPadded(Shr(val, 4), width - 1) + [HexChar(DigitOf(val & 15))]
  }

  lemma LowNibble(val: Word, low: Word)
    requires low == val & 15
    ensures low < 16 && forall i: nat | i < 4 :: Bit(low, i) == Bit(val, i)
  {
    hide Bit;
    NibbleSmall(val, low);
    forall i: nat | i < 4
      ensures Bit(low, i) == Bit(val, i)
    {
      AndIs(low, val, 15, i);
      FifteenBit(i);
    }
  }

  lemma NibbleSmall(val: Word, low: Word)
    requires low == val & 15
    ensures low < 16
  {
  }

  lemma FifteenBit(i: nat)
    requires i < 4
    ensures Bit(15, i)
  {
    DigitBits(15);
  }

  // val is its upper digits followed by its lowest digit
  lemma NibbleSplit(val: Word, high: Word, low: Word, n: nat)
    requires n <= 32 && Narrow(val, n) && high == Shr(val, 4) && low == val & 15
    ensures WordValue(val) == WordValue(high) * 16 + DigitOf(low)
    ensures forall m: nat | n <= m + 4 :: Narrow(high, m)
  {
    hide Bit, Shr, WordValue, DigitWord, DigitOf;
    LowNibble(val, low);
    SmallNarrow(low);
    forall i: nat | i < 64
      ensures Bit(high, i) == Bit(val, i + 4)
    {
      ShrBit(val, 4, i);
    }
    forall i: nat | i >= n
      ensures !Bit(val, i)
    {
      if i >= 64 {
        HighBit(val, i);
      }
    }
    AppendedValue(val, high, low);
    DigitWordValue(DigitOf(low));
  }

  // The lower-case hex digits of a number, with leading zeros up to the width
  ghost function HexDigits(v: nat, width: nat): string {
    if width == 0 then "" else HexDigits(v / 16, width - 1) + [HexChar(v % 16)]
  }

  // The digits denote the number, if they are enough
  lemma {:induction false} HexDigitsNumber(v: nat, width: nat)
    requires v < Pow2(4 * width)
    ensures AllXDigits(HexDigits(v, width)) && |HexDigits(v, width)| == width
    ensures HexNumber(HexDigits(v, width)) == v
  {
    hide IsXDigit, HexChar, Pow2;
    if width == 0 {
      assert v < 1 by {
        assert Pow2(0) == 1 by {
          PowZero();
        }
      }
    } else {
      Constants();
      Pow2Sum(4 * (width - 1), 4);
      HexDigitsNumber(v / 16, width - 1);
      AppendNumber(HexDigits(v / 16, width - 1), HexChar(v % 16));
    }
  }

  lemma PowZero()
    ensures Pow2(0) == 1
  {
  }

  lemma LastDigit(v: nat, upper: nat, digit: nat)
    requires v == upper * 16 + digit && digit < 16
    ensures v / 16 == upper && v % 16 == digit
  {
  }

  lemma {:induction false} HexPaddedDigits(val: Word, width: nat)
    requires Narrow(val, 4 * width) && 4 * width <= 32
    ensures HexPadded(val, width) == HexDigits(WordValue(val), width)
    decreases width
  {
    hide Bit, Shr, WordValue, DigitOf, Narrow, IsXDigit, HexChar;
    if width == 0 {
    } else {
      var high, low := Shr(val, 4), val & 15;
      NibbleSplit(val, high, low, 4 * width);
      LastDigit(WordValue(val), WordValue(high), DigitOf(low));
      HexPaddedDigits(high, width - 1);
    }
  }

  // The chunk of the bitmap at i
  method ChunkAt(mask: array<Word>, i: nat, chunksz: nat) returns (val: Word)
    requires 0 < chunksz <= 32 && i % 32 == 0 && i / 64 < mask.Length
    ensures Narrow(val, chunksz) && WordValue(val) == Digits(mask[..], i, chunksz)
  {
    hide Bit, At, Shr, LowMask, WordValue;
    var word, bit := i / 64, i % 64;
    var shifted := Shr(mask[word], bit);
    val := shifted & LowMask(chunksz);
    forall j: nat | j < 64
      ensures Bit(val, j) == (j < chunksz && At(mask[..], i + j))
    {
      LowIs(val, shifted, chunksz, j);
      if j < chunksz {
        ShrBit(mask[word], bit, j);
        AtWord(mask[..], word, bit + j);
        assert i + j == 64 * word + (bit + j);
      }
    }
    ValueOfChunk(mask[..], i, chunksz, val);
  }

  lemma ValueOfChunk(s: seq<Word>, i: nat, size: nat, val: Word)
    requires size <= 64 && forall j: nat | j < 64 :: Bit(val, j) == (j < size && At(s, i + j))
    ensures Narrow(val, size) && WordValue(val) == Digits(s, i, size)
  {
    hide Bit, At, Digits;
    NarrowValue(val, size);
    forall j: nat | j < size
      ensures At([val], j) == At(s, j - 0 + i)
    {
      WordAt(val, j);
    }
    DigitsAgree([val], 0, s, i, size);
  }

  // The groups of hex digits of a bitmap of n bits, as printed
  ghost predicate Groups(items: seq<string>, s: seq<Word>, i: nat, n: nat)
    requires i <= n
  {
    && FittingItems(items) && NumeralOf(items) == Digits(s, i, n - i)
    && (forall item | item in items :: Plain(item) && 0 < |item| <= 8)
    && (forall k | 0 < k < |items| :: |items[k]| == 8)
  }

  ghost function ChunkSize(i: nat, n: nat): nat {
    if i >= n then 0 else if n - i < 32 then n - i else 32
  }

  // The texts of the chunks at i and above, the highest first
  ghost function HexItems(s: seq<Word>, i: nat, n: nat): seq<string>
    decreases n - i
  {
    if i >= n then []
    else
      var size := ChunkSize(i, n);
      HexItems(s, i + 32, n) + [HexDigits(Digits(s, i, size), (size + 3) / 4)]
  }

  // The text of a bitmap of n bits
  ghost function Text(s: seq<Word>, n: nat): string {
    Join(HexItems(s, 0, n))
  }

  // The chunk that holds the last bit
  lemma TopChunk(n: nat)
    requires n > 0
    ensures
      var top := (n + 31) / 32 * 32 - 32;
      && top % 32 == 0 && 0 <= top < n <= top + 32
      && ChunkSize(top, n) == (if n % 32 == 0 then 32 else n % 32)
  {
  }

  lemma LowerChunk(s: seq<Word>, i: nat, n: nat)
    ensures 32 <= i < n ==> ChunkSize(i - 32, n) == 32
    ensures i >= n ==> HexItems(s, i, n) == []
  {
  }

  // bitmap_scnprintf, with room for the whole text
  method ScnPrintf(mask: array<Word>, n: nat) returns (buf: string)
    requires n > 0 && Longs(n) <= mask.Length
    ensures buf == Text(mask[..], n)
  {
    hide Join, HexItems, ChunkSize;
    JoinNothing();
    TopChunk(n);
    LowerChunk(mask[..], (n + 31) / 32 * 32, n);
    var chunksz := n % 32;
    if chunksz == 0 {
      chunksz := 32;
    }
    var i := (n + 31) / 32 * 32 - 32;
    var sep := "";
    buf := "";
    while i >= 0
      invariant i % 32 == 0 && -32 <= i < n && (i >= 0 ==> chunksz == ChunkSize(i, n))
      invariant buf == Join(HexItems(mask[..], i + 32, n))
      invariant sep == if i + 32 >= n then "" else ","
      decreases i + 32
    {
      buf := EmitGroup(buf, sep, mask, i, chunksz, n);
      LowerChunk(mask[..], i, n);
      chunksz := 32;
      sep := ",";
      i := i - 32;
    }
  }

  // The body of the loop: sep and the digits of the chunk at i
  method EmitGroup(buf: string, sep: string, mask: array<Word>, i: nat, chunksz: nat, ghost n: nat)
    returns (out: string)
    requires i % 32 == 0 && i < n && chunksz == ChunkSize(i, n) && Longs(n) <= mask.Length
    requires buf == Join(HexItems(mask[..], i + 32, n)) && sep == if i + 32 >= n then "" else ","
    ensures out == Join(HexItems(mask[..], i, n))
  {
    hide HexPadded, WordValue, Narrow, Join, HexDigits;
    var val := ChunkAt(mask, i, chunksz);
    var text := HexPadded(val, (chunksz + 3) / 4);
    NarrowMore(val, chunksz, 4 * ((chunksz + 3) / 4));
    HexPaddedDigits(val, (chunksz + 3) / 4);
    JoinAppend(HexItems(mask[..], i + 32, n), text);
    JoinNothing();
    out := buf + sep + text;
    assert i + 32 >= n ==> "" + "" + text == text;
  }

  lemma NarrowMore(w: Word, m: nat, n: nat)
    requires Narrow(w, m) && m <= n
    ensures Narrow(w, n)
  {
    hide Bit;
  }

  lemma JoinNothing()
    ensures Join([]) == ""
  {
  }

  lemma NoGroups(s: seq<Word>, n: nat)
    ensures Groups([], s, n, n)
  {
    hide At;
  }

  lemma AddGroup(items: seq<string>, s: seq<Word>, i: nat, size: nat, n: nat, text: string)
    requires 0 < size <= 32 && i + size <= n && Groups(items, s, i + size, n)
    requires items == [] ==> i + size == n
    requires items != [] ==> size == 32
    requires text == HexDigits(Digits(s, i, size), (size + 3) / 4)
    ensures Groups(items + [text], s, i, n)
  {
    hide At, HexDigits, FittingItems, NumeralOf, FittingItem, Digits, Pow2;
    DigitsBound(s, i, size);
    PaddedItem(Digits(s, i, size), size, text);
    AddItem(items, text);
    DigitsSplit(s, i, size, n - i - size);
    Constants();
    NoGroups(s, n);
  }

  lemma PaddedItem(v: nat, size: nat, text: string)
    requires 0 < size <= 32 && v < Pow2(size) && text == HexDigits(v, (size + 3) / 4)
    ensures FittingItem(text) && HexNumber(text) == v && Plain(text) && |text| == (size + 3) / 4
  {
    hide HexDigits, IsXDigit, Pow2;
    Constants();
    Pow2Monotone(size, 4 * ((size + 3) / 4));
    Pow2Monotone(size, 32);
    HexDigitsNumber(v, (size + 3) / 4);
    forall k | 0 <= k < |text|
      ensures !Ends(text[k]) && !IsSpace(text[k])
    {
      SpaceIsNoXDigit(text[k]);
    }
  }

  lemma {:induction false} HexItemsGroups(s: seq<Word>, i: nat, n: nat)
    requires i < n
    ensures HexItems(s, i, n) != [] && Groups(HexItems(s, i, n), s, i, n)
    decreases n - i
  {
    hide Groups, Digits, HexDigits;
    var size := ChunkSize(i, n);
    if i + 32 < n {
      HexItemsGroups(s, i + 32, n);
    } else {
      NoGroups(s, n);
    }
    AddGroup(HexItems(s, i + 32, n), s, i, size, n, HexDigits(Digits(s, i, size), (size + 3) / 4));
  }

  // ---------- printing and parsing ----------

  // The printed text of a bitmap is accepted, and its numeral is the number the bitmap holds
  lemma PrintedIsAccepted(s: seq<Word>, n: nat)
    requires n > 0
    ensures Accepts(Text(s, n), n) && NumeralOf(Items(Text(s, n))) == Value(s, n)
  {
    hide At, FittingItems, NumeralOf, Join, ItemsFrom, NoEmbedded, IsXDigit, Digits, Pow2, HexItems;
    var items, text := HexItems(s, 0, n), Text(s, n);
    HexItemsGroups(s, 0, n);
    assert items[|items| - 1] in items;
    assert text[0..] == text;
    SplitJoin(text, 0, items);
    JoinNoBlank(items);
    NoBlankNoEmbedded(text, IsXDigit);
    DigitsBound(s, 0, n);
  }

  // Equal bitmaps and equal texts coincide
  lemma TextDeterminesBitmap(s: seq<Word>, t: seq<Word>, n: nat)
    requires n > 0
    ensures Text(s, n) == Text(t, n) <==> Bits(s, n) == Bits(t, n)
  {
    hide At, Accepts, NumeralOf, Items, Text, Value, Bits;
    PrintedIsAccepted(s, n);
    PrintedIsAccepted(t, n);
    DigitsInjective(s, t, n);
    if Bits(s, n) == Bits(t, n) {
      SameText(s, t, n);
    }
  }

  lemma SameText(s: seq<Word>, t: seq<Word>, n: nat)
    requires Bits(s, n) == Bits(t, n)
    ensures Text(s, n) == Text(t, n)
  {
    hide At, HexItems, Join;
    forall i: nat | i < n
      ensures At(s, i) == At(t, i)
    {
      assert At(s, i) <==> i in Bits(s, n);
      assert At(t, i) <==> i in Bits(t, n);
    }
    SameItems(s, t, 0, n);
  }

  lemma {:induction false} SameItems(s: seq<Word>, t: seq<Word>, i: nat, n: nat)
    requires forall k: nat | k < n :: At(s, k) == At(t, k)
    ensures HexItems(s, i, n) == HexItems(t, i, n)
    decreases n - i
  {
    hide At, HexDigits, Digits;
    if i >= n {
    } else {
      SameItems(s, t, i + 32, n);
      DigitsAgree(s, i, t, i, ChunkSize(i, n));
    }
  }

  // Printing a bitmap and parsing the text gives back its valid bits
  method PrintThenParse(src: array<Word>, dst: array<Word>, n: nat) returns (ret: int)
    requires n > 0 && Longs(n) <= src.Length && Longs(n) <= dst.Length
    modifies dst
    ensures ret == 0 && Bits(dst[..], n) == old(Bits(src[..], n))
  {
    hide Text, Accepts, NumeralOf, Items, Value, Bits;
    ghost var s := src[..];
    PrintedIsAccepted(s, n);
    var buf := ScnPrintf(src, n);
    ret := ParseHex(buf, dst, n);
    DigitsInjective(s, dst[..], n);
  }
}
