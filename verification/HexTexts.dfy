/**
  The hexadecimal format character by character, and what white space around a text does to it.
 */
module HexTexts {
  import opened Words
  import opened Bitops
  import opened Powers
  import opened Tokens
  import opened WhiteSpace
  import opened HexFormat

  const LOWER := "0123456789abcdef"
  const UPPER := "0123456789ABCDEF"

  // ---------- digits ----------

  lemma HexToBinMeans(c: char, v: nat)
    requires v < 16
    ensures HexToBin(c) == v <==> c == LOWER[v] || c == UPPER[v]
    ensures HexToBin(c) == -1 <==> c !in LOWER && c !in UPPER
    ensures IsXDigit(c) <==> c in LOWER || c in UPPER
    ensures HexChar(v) == LOWER[v]
  {
    LowerDigit(c);
    UpperDigit(c);
  }

  lemma LowerDigit(c: char)
    ensures c in LOWER <==> '0' <= c <= '9' || 'a' <= c <= 'f'
  {
    if '0' <= c <= '9' {
      assert LOWER[c as int - '0' as int] == c;
    }
    if 'a' <= c <= 'f' {
      assert LOWER[c as int - 'a' as int + 10] == c;
    }
  }

  lemma UpperDigit(c: char)
    ensures c in UPPER <==> '0' <= c <= '9' || 'A' <= c <= 'F'
  {
    if '0' <= c <= '9' {
      assert UPPER[c as int - '0' as int] == c;
    }
    if 'A' <= c <= 'F' {
      assert UPPER[c as int - 'A' as int + 10] == c;
    }
  }

  // ---------- the printed text ----------

  // The hex digit for the bits j to j + 3
  ghost function Nibble(bits: set<nat>, j: nat): (v: nat)
    ensures v < 16
  {
    B(j in bits) + 2 * B(j + 1 in bits) + 4 * B(j + 2 in bits) + 8 * B(j + 3 in bits)
  }

  // The character k places from the right of the text from bit i on: a comma after every eight digits
  ghost function CharAt(bits: set<nat>, i: nat, k: nat): char {
    if k % 9 == 8 then ',' else LOWER[Nibble(bits, i + 4 * (k - k / 9))]
  }

  lemma FourDigits(s: seq<Word>, n: nat, j: nat, len: nat)
    requires len == (if n - j < 4 then n - j else 4) && j < n
    ensures Digits(s, j, len) == Nibble(Bits(s, n), j)
  {
    hide At;
    assert Pow2(0) == 1 && Pow2(1) == 2 && Pow2(2) == 4 && Pow2(3) == 8;
    assert Digits(s, j, 0) == 0;
    assert Digits(s, j, 1) == B(At(s, j));
    if len > 1 {
      assert Digits(s, j, 2) == Digits(s, j, 1) + 2 * B(At(s, j + 1));
    }
    if len > 2 {
      assert Digits(s, j, 3) == Digits(s, j, 2) + 4 * B(At(s, j + 2));
    }
    if len > 3 {
      assert Digits(s, j, 4) == Digits(s, j, 3) + 8 * B(At(s, j + 3));
    }
  }

  lemma LowestDigit(s: seq<Word>, i: nat, size: nat)
    requires size > 0
    ensures
      var len := if size < 4 then size else 4;
      && Digits(s, i, size) / 16 == Digits(s, i + len, size - len)
      && Digits(s, i, size) % 16 == Digits(s, i, len)
  {
    hide At, Digits, Pow2;
    Constants();
    var len := if size < 4 then size else 4;
    DigitsSplit(s, i, len, size - len);
    DigitsBound(s, i, len);
    Pow2Monotone(len, 4);
    if size < 4 {
      NoDigitsLeft(s, i + len);
    }
  }

  lemma NoDigitsLeft(s: seq<Word>, i: nat)
    ensures Digits(s, i, 0) == 0
  {
  }

  // A chunk's text shows its bits, four to a digit
  lemma {:induction false} ChunkText(s: seq<Word>, i: nat, size: nat, n: nat, k: nat)
    requires k < (size + 3) / 4 && i + size <= n && (size % 4 == 0 || i + size == n)
    ensures
      var text := HexDigits(Digits(s, i, size), (size + 3) / 4);
      |text| == (size + 3) / 4 && text[|text| - 1 - k] == LOWER[Nibble(Bits(s, n), i + 4 * k)]
    decreases size
  {
    hide *;
    var len := if size < 4 then size else 4;
    var w := (size + 3) / 4;
    LowestDigit(s, i, size);
    FourDigits(s, n, i, len);
    LastHexDigit(Digits(s, i, size), w);
    assert (size - len + 3) / 4 == w - 1;
    if w == 1 {
      NoHexDigits(Digits(s, i + len, size - len));
    } else {
      ChunkText(s, i + len, size - len, n, if k > 0 then k - 1 else 0);
    }
  }

  lemma LastHexDigit(v: nat, w: nat)
    requires w > 0
    ensures HexDigits(v, w) == HexDigits(v / 16, w - 1) + [LOWER[v % 16]]
  {
    HexToBinMeans('0', v % 16);
  }

  lemma NoHexDigits(v: nat)
    ensures HexDigits(v, 0) == ""
  {
  }

  // The length of the text from bit i on
  ghost function Width(i: nat, n: nat): nat
    requires i < n
  {
    (n - i + 3) / 4 + (n - i - 1) / 32
  }

  // The text has this width, and k places from its right this character
  ghost predicate Looks(text: string, bits: set<nat>, i: nat, n: nat, k: nat)
    requires i < n
  {
    |text| == Width(i, n) && (k < |text| ==> text[|text| - 1 - k] == CharAt(bits, i, k))
  }

  lemma {:induction false} TextFrom(s: seq<Word>, i: nat, n: nat, k: nat)
    requires i < n
    ensures Looks(Join(HexItems(s, i, n)), Bits(s, n), i, n, k)
    decreases n - i
  {
    hide *;
    var size := ChunkSize(i, n);
    var chunk := HexDigits(Digits(s, i, size), (size + 3) / 4);
    JoinChunk(s, i, n, chunk);
    ChunkLooks(s, i, n, k);
    if i + 32 < n {
      TextFrom(s, i + 32, n, if k > 8 then k - 9 else 0);
      AddChunk(Join(HexItems(s, i + 32, n)), chunk, Bits(s, n), i, n, k);
    }
  }

  lemma JoinChunk(s: seq<Word>, i: nat, n: nat, chunk: string)
    requires i < n && chunk == HexDigits(Digits(s, i, ChunkSize(i, n)), (ChunkSize(i, n) + 3) / 4)
    ensures Join(HexItems(s, i, n)) == if i + 32 < n then Join(HexItems(s, i + 32, n)) + "," + chunk else chunk
  {
    hide Digits, HexDigits, Join, ChunkSize, Groups;
    JoinAppend(HexItems(s, i + 32, n), chunk);
    if i + 32 < n {
      HexItemsGroups(s, i + 32, n);
    }
  }

  lemma ChunkLooks(s: seq<Word>, i: nat, n: nat, k: nat)
    requires i < n
    ensures
      var size := ChunkSize(i, n);
      var chunk := HexDigits(Digits(s, i, size), (size + 3) / 4);
      && |chunk| == (size + 3) / 4
      && (k < |chunk| ==> chunk[|chunk| - 1 - k] == CharAt(Bits(s, n), i, k))
      && (if i + 32 < n then |chunk| == 8 else Looks(chunk, Bits(s, n), i, n, k))
  {
    hide Digits, HexDigits, Nibble, Bits, CharAt;
    var size := ChunkSize(i, n);
    ChunkText(s, i, size, n, if k < (size + 3) / 4 then k else 0);
    if k < (size + 3) / 4 {
      ChunkChar(Bits(s, n), i, k);
    }
  }

  lemma AddChunk(text: string, chunk: string, bits: set<nat>, i: nat, n: nat, k: nat)
    requires i + 32 < n && |chunk| == 8 && (k < 8 ==> chunk[7 - k] == CharAt(bits, i, k))
    requires Looks(text, bits, i + 32, n, if k > 8 then k - 9 else 0)
    ensures Looks(text + "," + chunk, bits, i, n, k)
  {
    hide CharAt;
    var all := text + "," + chunk;
    assert (n - i + 3) / 4 == (n - i - 32 + 3) / 4 + 8 && (n - i - 1) / 32 == (n - i - 33) / 32 + 1;
    assert |all| == Width(i, n) && |all| == |text| + 9;
    if k < 8 {
      assert all[|all| - 1 - k] == chunk[7 - k];
    } else if k < |all| {
      CommaChar(bits, i, k);
      assert k == 8 || all[|all| - 1 - k] == text[|text| - 1 - (k - 9)];
    }
  }

  lemma ChunkChar(bits: set<nat>, i: nat, k: nat)
    requires k < 8
    ensures CharAt(bits, i, k) == LOWER[Nibble(bits, i + 4 * k)]
  {
    hide Nibble;
  }

  lemma CommaChar(bits: set<nat>, i: nat, k: nat)
    requires k >= 8
    ensures k == 8 ==> CharAt(bits, i, k) == ','
    ensures k > 8 ==> CharAt(bits, i, k) == CharAt(bits, i + 32, k - 9)
  {
    hide Nibble;
    assert k > 8 ==> i + 4 * (k - k / 9) == (i + 32) + 4 * ((k - 9) - (k - 9) / 9);
  }

  // How the printed text looks: its length, and the character k places from its right end
  lemma PrintedLooks(s: seq<Word>, n: nat, k: nat)
    requires n > 0
    ensures |Text(s, n)| == (n + 3) / 4 + (n - 1) / 32
    ensures k < |Text(s, n)| ==>
      Text(s, n)[|Text(s, n)| - 1 - k] ==
        if k % 9 == 8 then ',' else LOWER[Nibble(Bits(s, n), 4 * (k - k / 9))]
  {
    hide Nibble, Bits, HexItems, Join;
    TextFrom(s, 0, n, k);
  }

  // ---------- items ----------

  lemma {:induction false} NumberOfTwo(a: string, b: string)
    requires AllXDigits(a) && AllXDigits(b)
    ensures AllXDigits(a + b) && HexNumber(a + b) == HexNumber(a) * Pow2(4 * |b|) + HexNumber(b)
    decreases |b|
  {
    hide IsXDigit, HexToBin, Pow2;
    if b == "" {
      assert a + b == a;
      PowZero();
    } else {
      var most, last := b[..|b| - 1], b[|b| - 1];
      NumberOfTwo(a, most);
      AppendNumber(a + most, last);
      assert a + most + [last] == a + b;
      Constants();
      Pow2Sum(4 * |most|, 4);
      TimesSixteen(HexNumber(a), Pow2(4 * |most|), HexNumber(most), HexToBin(last));
    }
  }

  lemma TimesSixteen(a: nat, p: nat, m: nat, d: int)
    ensures (a * p + m) * 16 + d == a * (p * 16) + (m * 16 + d)
  {
  }

  lemma {:induction false} NumberBound(s: string)
    requires AllXDigits(s)
    ensures HexNumber(s) < Pow2(4 * |s|)
    decreases |s|
  {
    hide IsXDigit, Pow2;
    if s == "" {
      PowZero();
    } else {
      NumberBound(s[..|s| - 1]);
      Constants();
      Pow2Sum(4 * (|s| - 1), 4);
    }
  }

  lemma {:induction false} ZeroNumber(s: string)
    requires AllXDigits(s)
    ensures HexNumber(s) == 0 <==> forall i | 0 <= i < |s| :: s[i] == '0'
    decreases |s|
  {
    if s != "" {
      var most := s[..|s| - 1];
      ZeroNumber(most);
      HexToBinMeans(s[|s| - 1], 0);
      assert forall i | 0 <= i < |most| :: most[i] == s[i];
    }
  }

  // An acceptable item is one of hex digits of either case, at most eight after leading zeros
  lemma FittingItemMeans(s: string)
    ensures FittingItem(s) <==>
              && s != ""
              && (forall i | 0 <= i < |s| :: s[i] in LOWER || s[i] in UPPER)
              && (forall i | 0 <= i < |s| - 8 :: s[i] == '0')
  {
    hide IsXDigit, HexNumber, Pow2;
    forall i | 0 <= i < |s|
      ensures IsXDigit(s[i]) <==> s[i] in LOWER || s[i] in UPPER
    {
      HexToBinMeans(s[i], 0);
    }
    if AllXDigits(s) {
      Constants();
      if |s| <= 8 {
        NumberBound(s);
        Pow2Monotone(4 * |s|, 32);
      } else {
        var a, b := s[..|s| - 8], s[|s| - 8..];
        assert a + b == s;
        NumberOfTwo(a, b);
        NumberBound(b);
        ZeroNumber(a);
        assert forall i | 0 <= i < |s| - 8 :: s[i] == a[i];
      }
    }
  }

  // A text that is one number is accepted if the number has at most n bits and at most 32; else the
  // overflow error is due
  lemma NumberMeans(text: string, n: nat)
    requires GoodItem(text)
    ensures Accepts(text, n) <==> HexNumber(text) < Pow2(n) && HexNumber(text) < TWO_TO_32
    ensures Accepts(text, n) ==> NumeralOf(Items(text)) == HexNumber(text)
    ensures Overflows(Items(text), n) <==> !Accepts(text, n)
    ensures !Malformed(Items(text), n)
  {
    hide IsXDigit, HexNumber, Pow2, NoEmbedded, Items, AllXDigits;
    OneItem(text);
    SingleItem(text, n);
    assert [text][..0] == [] && [text][..1] == [text];
    assert Fits([text], n) <==> Accepts(text, n);
    if !FittingItem(text) {
      assert text[..|text|] == text;
    }
    assert FirstUnfit([text], n, 0) <==> !Fits([text], n);
  }

  // Without any digit, the other error is due
  lemma NothingMeans(n: nat)
    ensures Malformed(Items(""), n) && !Accepts("", n)
  {
    hide Pow2;
    assert Items("") == [""];
    assert [""][..0] == [] && [""][..1] == [""];
    assert !FittingItem("") && !TooWide("");
    assert FirstUnfit([""], n, 0);
  }

  lemma OneItem(text: string)
    requires AllXDigits(text)
    ensures Items(text) == [text] && NoEmbedded(text, IsXDigit)
  {
    hide Items, NoEmbedded;
    assert Plain(text) && NoBlank(text);
    FirstItem(text, "");
    NoBlankNoEmbedded(text, IsXDigit);
  }

  lemma SingleItem(item: string, n: nat)
    requires GoodItem(item)
    ensures FittingItems([item]) <==> HexNumber(item) < TWO_TO_32
    ensures FittingItems([item]) ==> NumeralOf([item]) == HexNumber(item)
    ensures Fits([], n)
  {
    hide AllXDigits, HexNumber;
    assert [] + [item] == [item];
    NumeralAdd([], item);
    assert item in [item];
  }

  // ---------- white space ----------

  lemma WhiteIsNoXDigit(c: char)
    requires c in WHITE
    ensures !IsXDigit(c)
  {
  }

  // White space around a text matters to the parser only after a comma at the end, which then makes an item missing
  lemma WhiteAround(before: string, text: string, after: string, n: nat)
    requires Blank(before) && Blank(after)
    ensures
      var padded := before + text + after;
      && (Accepts(padded, n) <==> Accepts(text, n) && (after == "" || !OpenComma(text)))
      && (Accepts(padded, n) ==> Items(padded) == Items(text))
  {
    hide Items, NoEmbedded, IsXDigit, OpenComma, Fits, Blank;
    forall c | c in WHITE
      ensures !IsXDigit(c)
    {
      WhiteIsNoXDigit(c);
    }
    BlanksAround(before, text, after, IsXDigit);
    assert Items(text) + [] == Items(text);
    if after != "" && OpenComma(text) {
      MissingItem(Items(text) + [""], n);
    }
  }

  lemma MissingItem(items: seq<string>, n: nat)
    requires "" in items
    ensures !Fits(items, n)
  {
  }

  lemma PrintedEnd(s: seq<Word>, n: nat)
    requires n > 0
    ensures Text(s, n) != "" && !OpenComma(Text(s, n))
  {
    hide Text, Nibble, Bits;
    PrintedLooks(s, n, 0);
    assert (n + 3) / 4 > 0;
    LowerDigit(Text(s, n)[|Text(s, n)| - 1]);
  }

  // The printed text as a line, or with white space of any other kind around it, still denotes the bitmap
  lemma PrintedLineIsAccepted(s: seq<Word>, n: nat, before: string, after: string)
    requires n > 0 && Blank(before) && Blank(after)
    ensures
      var line := before + Text(s, n) + after;
      Accepts(line, n) && NumeralOf(Items(line)) == Value(s, n)
  {
    hide Text, Accepts, Items, OpenComma, NumeralOf, Value, Blank;
    PrintedIsAccepted(s, n);
    PrintedEnd(s, n);
    WhiteAround(before, Text(s, n), after, n);
  }

  // The contents of a file that ends in a newline
  lemma NewlineAfter(s: seq<Word>, n: nat)
    requires n > 0
    ensures Accepts(Text(s, n) + "\n", n) && NumeralOf(Items(Text(s, n) + "\n")) == Value(s, n)
  {
    hide Text, Accepts, Items, NumeralOf, Value;
    assert "" + Text(s, n) + "\n" == Text(s, n) + "\n";
    PrintedLineIsAccepted(s, n, "", "\n");
  }
}
