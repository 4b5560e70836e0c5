/**
  The list format character by character, and what white space around a text does to it.
 */
module ListTexts {
  import opened Errors
  import opened Ordinals
  import opened Tokens
  import opened WhiteSpace
  import opened ListFormat

  const DIGITS := "0123456789"

  // ---------- numbers ----------

  lemma DigitMeans(c: char, d: nat)
    requires d < 10
    ensures IsDigit(c) <==> c in DIGITS
    ensures IsDigit(c) ==> (DigitValue(c) == d <==> c == DIGITS[d])
    ensures DigitChar(d) == DIGITS[d]
  {
    if '0' <= c <= '9' {
      assert DIGITS[c as int - '0' as int] == c;
    }
  }

  // A number is read from the left, wrapping around at 2^32
  lemma NumberAppend(s: string, d: nat)
    requires AllDigits(s) && d < 10
    ensures Number("") == 0
    ensures AllDigits(s + [DIGITS[d]]) && Number(s + [DIGITS[d]]) == (Number(s) * 10 + d) % TWO_TO_32
  {
    hide IsDigit;
    DigitMeans(DIGITS[d], d);
    assert (s + [DIGITS[d]])[..|s|] == s;
  }

  // Numbers are printed without leading zeros
  lemma {:induction false} DecimalIsShort(v: nat)
    ensures Decimal(v)[0] == '0' <==> v == 0
    ensures v == 0 <==> Decimal(v) == "0"
  {
    if v >= 10 {
      DecimalIsShort(v / 10);
    }
  }

  // ---------- items ----------

  ghost predicate TwoNumbers(s: string, h: nat) {
    0 < h < |s| && AllDigits(s[..h]) && s[h] == '-' && AllDigits(s[h + 1..])
  }

  // An item is well formed if it is all digits, or digits, a hyphen and possibly more digits
  lemma GoodItemMeans(s: string)
    ensures GoodItem(s) <==> AllDigits(s) || exists h: nat :: TwoNumbers(s, h)
    ensures AllDigits(s) ==> GoodItem(s) && ItemRange(s) == Range(Number(s), Number(s))
    ensures forall h: nat | TwoNumbers(s, h) ::
              GoodItem(s) && ItemRange(s) == Range(Number(s[..h]), Number(s[h + 1..]))
  {
    hide Number;
    assert s[..|s|] == s;
    if AllDigits(s) {
      HyphenWhere(s, |s|);
    }
    forall h: nat | TwoNumbers(s, h)
      ensures Hyphen(s) == h
    {
      forall i | 0 <= i < h
        ensures s[i] != '-'
      {
        assert s[..h][i] == s[i];
      }
      HyphenWhere(s, h);
    }
    if GoodItem(s) && Hyphen(s) < |s| {
      assert TwoNumbers(s, Hyphen(s));
    }
  }

  // What a text with a single range means, and when which error is due
  lemma RangeMeans(a: nat, b: nat, n: nat)
    requires a < TWO_TO_32 && b < TWO_TO_32
    ensures
      var text := Decimal(a) + "-" + Decimal(b);
      && (Accepts(text, n) <==> a <= b < n)
      && (RangeError(Items(text), n) <==> a <= b && b >= n)
      && (ItemError(Items(text), n) <==> a > b)
      && (a <= b ==> forall i: nat :: i in Union(Items(text)) <==> a <= i <= b)
  {
    hide Decimal, Number, Hyphen, NoEmbedded, IsDigit, Items;
    var x, y := Decimal(a), Decimal(b);
    var text := x + "-" + y;
    PlainDigits(text);
    assert text[..|x|] == x && text[|x| + 1..] == y;
    assert TwoNumbers(text, |x|);
    GoodItemMeans(text);
    NumberOfDecimal(a);
    NumberOfDecimal(b);
    Judged(text, a, b, n);
    OnlyItem(text, n);
    assert [] + [text] == [text];
    UnionAdd([], text);
    assert forall i: nat :: i in Members(Range(a, b)) <==> Covers(Range(a, b), i);
  }

  lemma PlainDigits(text: string)
    requires forall i | 0 <= i < |text| :: IsDigit(text[i]) || text[i] == '-'
    ensures Items(text) == [text] && NoEmbedded(text, IsDigit)
  {
    hide Items, NoEmbedded;
    assert Plain(text) && NoBlank(text);
    FirstItem(text, "");
    NoBlankNoEmbedded(text, IsDigit);
  }

  lemma OnlyItem(item: string, n: nat)
    ensures RangeError([item], n) <==> TooLarge(item, n)
    ensures ItemError([item], n) <==> !TooLarge(item, n) && !FittingItem(item, n)
  {
    hide Hyphen, AllDigits, Number;
    assert FirstUnfit([item], n, 0) <==> !FittingItem(item, n);
  }

  // ---------- the printed text ----------

  lemma {:induction false} CoveredMeans(runs: seq<Range>, i: nat)
    ensures i in Covered(runs) <==> exists k :: 0 <= k < |runs| && runs[k].lo <= i <= runs[k].hi
    decreases |runs|
  {
    if runs != [] {
      var init := runs[..|runs| - 1];
      CoveredMeans(init, i);
      assert i in Members(runs[|runs| - 1]) <==> Covers(runs[|runs| - 1], i);
      assert forall k | 0 <= k < |init| :: init[k] == runs[k];
    }
  }

  lemma {:induction false} JoinHas(items: seq<string>, c: char)
    requires c != ','
    ensures c in Join(items) <==> exists item | item in items :: c in item
    decreases |items|
  {
    if |items| > 1 {
      JoinHas(items[1..], c);
      assert forall item :: item in items <==> item == items[0] || item in items[1..];
    }
  }

  // One number for a run of one bit; two with a single hyphen in between for a longer run
  lemma ItemLooks(r: Range)
    requires r.lo <= r.hi
    ensures
      var item, h := Rendered(r), |Decimal(r.lo)|;
      if r.lo == r.hi then item == Decimal(r.lo) && '-' !in item
      else item == Decimal(r.lo) + "-" + Decimal(r.hi) && forall i | 0 <= i < |item| :: item[i] == '-' <==> i == h
  {
    hide Decimal;
  }

  // The items of the printed text are those of the runs, in the same order
  lemma PrintedItems(text: string, s: set<nat>, runs: seq<Range>, k: nat)
    requires IsListText(text, s) && MaximalRuns(runs, s) && k < |runs|
    ensures |Items(text)| == |runs|
    ensures
      var item, lo, hi := Items(text)[k], Decimal(runs[k].lo), Decimal(runs[k].hi);
      if runs[k].lo == runs[k].hi then item == lo && '-' !in item
      else item == lo + "-" + hi && forall i | 0 <= i < |item| :: item[i] == '-' <==> i == |lo|
  {
    var all: seq<Range> :| MaximalRuns(all, s) && text == Join(RenderedAll(all));
    RunsUnique(all, runs, s);
    hide Rendered, Join, ItemsFrom, Covered, Decimal, Plain;
    var items := RenderedAll(runs);
    RenderedNotEmpty(runs);
    assert text[0..] == text;
    assert items[|items| - 1] in items;
    SplitJoin(text, 0, items);
    ItemLooks(runs[k]);
  }

  lemma Consecutive(runs: seq<Range>, s: set<nat>)
    requires MaximalRuns(runs, s)
    ensures (exists i :: i in s && i + 1 in s) <==> exists k :: 0 <= k < |runs| && runs[k].lo < runs[k].hi
  {
    hide Covered;
    if i :| i in s && i + 1 in s {
      CoveredMeans(runs, i);
      CoveredMeans(runs, i + 1);
      var k :| 0 <= k < |runs| && runs[k].lo <= i <= runs[k].hi;
      var j :| 0 <= j < |runs| && runs[j].lo <= i + 1 <= runs[j].hi;
      assert j == k;
    }
    if k :| 0 <= k < |runs| && runs[k].lo < runs[k].hi {
      CoveredMeans(runs, runs[k].lo);
      CoveredMeans(runs, runs[k].lo + 1);
      assert runs[k].lo in s;
    }
  }

  // A hyphen is printed exactly if two consecutive bits are set
  lemma HyphenMeans(text: string, s: set<nat>)
    requires IsListText(text, s)
    ensures '-' in text <==> exists i :: i in s && i + 1 in s
  {
    var runs: seq<Range> :| MaximalRuns(runs, s) && text == Join(RenderedAll(runs));
    hide Rendered, Join, Covered;
    Consecutive(runs, s);
    RenderedNotEmpty(runs);
    JoinHas(RenderedAll(runs), '-');
    forall k | 0 <= k < |runs|
      ensures '-' in RenderedAll(runs)[k] <==> runs[k].lo < runs[k].hi
    {
      RunHyphen(runs[k]);
    }
  }

  lemma RunHyphen(r: Range)
    requires r.lo <= r.hi
    ensures '-' in Rendered(r) <==> r.lo < r.hi
  {
    hide Decimal, Rendered;
    ItemLooks(r);
    assert r.lo < r.hi ==> Rendered(r)[|Decimal(r.lo)|] == '-';
  }

  // Nothing is printed but digits, commas and hyphens
  lemma PrintedChars(text: string, s: set<nat>)
    requires IsListText(text, s)
    ensures forall c | c in text :: c in DIGITS || c == ',' || c == '-'
  {
    var runs: seq<Range> :| MaximalRuns(runs, s) && text == Join(RenderedAll(runs));
    hide Rendered, Join, Covered;
    RenderedNotEmpty(runs);
    forall c | c in text && c != ','
      ensures c in DIGITS || c == '-'
    {
      JoinHas(RenderedAll(runs), c);
      var item :| item in RenderedAll(runs) && c in item;
      var k :| 0 <= k < |runs| && item == Rendered(runs[k]);
      ItemChars(runs[k], c);
    }
  }

  lemma ItemChars(r: Range, c: char)
    requires c in Rendered(r)
    ensures c in DIGITS || c == '-'
  {
    hide Decimal;
    DigitMeans(c, 0);
  }

  // The bits 0, 1, 2 and 5
  lemma PrintedExample()
    ensures IsListText("0-2,5", {0, 1, 2, 5})
  {
    var runs := [Range(0, 2), Range(5, 5)];
    assert Decimal(0) == "0" && Decimal(2) == "2" && Decimal(5) == "5";
    assert runs[..1] == [Range(0, 2)] && [Range(0, 2)][..0] == [];
    assert Rendered(Range(0, 2)) == "0-2" && RenderedAll([]) == [];
    assert RenderedAll([Range(0, 2)]) == ["0-2"];
    assert RenderedAll(runs) == ["0-2", "5"];
    assert Join(["0-2", "5"]) == "0-2,5" by {
      assert ["0-2", "5"][1..] == ["5"];
    }
    forall i: nat
      ensures i in Covered(runs) <==> i in {0, 1, 2, 5}
    {
      CoveredMeans(runs, i);
      assert runs[0] == Range(0, 2) && runs[1] == Range(5, 5);
    }
    assert MaximalRuns(runs, {0, 1, 2, 5});
  }

  // ---------- white space ----------

  lemma WhiteIsNoDigit(c: char)
    requires c in WHITE
    ensures !IsDigit(c)
  {
  }

  // White space around a text never matters to acceptance; after a comma at the end it adds bit 0
  lemma WhiteAround(before: string, text: string, after: string, n: nat)
    requires Blank(before) && Blank(after)
    ensures
      var padded := before + text + after;
      && (Accepts(padded, n) <==> Accepts(text, n))
      && Union(Items(padded)) == Union(Items(text)) + (if after != "" && OpenComma(text) then {0} else {})
  {
    hide Items, NoEmbedded, IsDigit, OpenComma, Blank, Union, FittingItem;
    forall c | c in WHITE
      ensures !IsDigit(c)
    {
      WhiteIsNoDigit(c);
    }
    BlanksAround(before, text, after, IsDigit);
    assert Items(text) + [] == Items(text);
    if after != "" && OpenComma(text) {
      EmptyItem(Items(text), n);
      HasItem(text);
    }
  }

  lemma HasItem(text: string)
    ensures exists item :: item in Items(text)
  {
    assert Items(text)[0] in Items(text);
  }

  // An empty item stands for bit 0, which fits where anything does
  lemma EmptyItem(items: seq<string>, n: nat)
    ensures Union(items + [""]) == Union(items) + {0}
    ensures FittingItem("", n) <==> n > 0
    ensures forall item | FittingItem(item, n) :: n > 0
  {
    assert GoodItem("") && ItemRange("") == Range(0, 0);
    UnionAdd(items, "");
    assert Members(Range(0, 0)) == {0} by {
      assert Covers(Range(0, 0), 0);
    }
  }

  lemma PrintedEnd(text: string, s: set<nat>)
    requires IsListText(text, s)
    ensures !OpenComma(text)
  {
    var runs: seq<Range> :| MaximalRuns(runs, s) && text == Join(RenderedAll(runs));
    hide Rendered, Covered;
    RenderedNotEmpty(runs);
    if runs != [] {
      JoinEnd(RenderedAll(runs));
    }
  }

  lemma {:induction false} JoinEnd(items: seq<string>)
    requires items != [] && forall item | item in items :: item != "" && Plain(item)
    ensures Join(items) != "" && Join(items)[|Join(items)| - 1] != ','
    decreases |items|
  {
    if |items| == 1 {
      assert items[0] in items;
    } else {
      forall item | item in items[1..]
        ensures item != "" && Plain(item)
      {
        assert item in items;
      }
      JoinEnd(items[1..]);
    }
  }

  // The printed text as a line, or with white space of any other kind around it, denotes the bitmap as before
  lemma PrintedLineIsAccepted(text: string, s: set<nat>, n: nat, before: string, after: string)
    requires IsListText(text, s) && Below(s, n) && 0 < n < TWO_TO_32 && Blank(before) && Blank(after)
    ensures
      var line := before + text + after;
      Accepts(line, n) && (Union(Items(line)) == s <==> s != {})
  {
    hide IsListText, Accepts, Items, OpenComma, Union, Blank;
    RoundTrip(text, s, n);
    PrintedEnd(text, s);
    WhiteAround(before, text, after, n);
  }

  // The contents of a file that ends in a newline
  lemma NewlineAfter(text: string, s: set<nat>, n: nat)
    requires IsListText(text, s) && Below(s, n) && 0 < n < TWO_TO_32
    ensures Accepts(text + "\n", n) && (Union(Items(text + "\n")) == s <==> s != {})
  {
    hide IsListText, Accepts, Items, Union;
    assert "" + text + "\n" == text + "\n";
    PrintedLineIsAccepted(text, s, n, "", "\n");
  }
}
