/**
  The list format of bitmaps: comma-separated decimal numbers and ranges.
 */
module ListFormat {
  import opened Errors
  import opened Words
  import opened Bitops
  import opened Ordinals
  import opened Tokens

  // ---------- decimal numbers ----------

  predicate IsDigit(c: char) {
    '0' <= c <= '9'
  }

  lemma CommaIsNoDigit()
    ensures !IsDigit(',')
  {
  }

  function DigitValue(c: char): (d: nat)
    requires IsDigit(c)
    ensures d < 10
  {
    c as int - '0' as int
  }

  function DigitChar(d: nat): (c: char)
    requires d < 10
    ensures IsDigit(c) && DigitValue(c) == d
  {
    ('0' as int + d) as char
  }

  ghost predicate AllDigits(s: string) {
    forall i | 0 <= i < |s| :: IsDigit(s[i])
  }

  // What the parser's unsigned arithmetic makes of a digit string
  ghost function Number(s: string): (v: nat)
    requires AllDigits(s)
    ensures v < TWO_TO_32
  {
    if s == "" then 0
    else (Number(s[..|s| - 1]) * 10 + DigitValue(s[|s| - 1])) % TWO_TO_32
  }

  // %d
  function Decimal(v: nat): (s: string)
    ensures |s| > 0 && AllDigits(s)
  {
    if v < 10 then [DigitChar(v)] else Decimal(v / 10) + [DigitChar(v % 10)]
  }

  lemma {:induction false} NumberOfDecimal(v: nat)
    requires v < TWO_TO_32
    ensures Number(Decimal(v)) == v
  {
    if v < 10 {
      assert Decimal(v)[..0] == "";
    } else {
      NumberOfDecimal(v / 10);
      var s := Decimal(v);
      assert s[..|s| - 1] == Decimal(v / 10);
    }
  }

  // ---------- items ----------

  datatype Range = Range(lo: nat, hi: nat)

  ghost predicate Covers(r: Range, i: nat) {
    r.lo <= i <= r.hi
  }

  ghost function Members(r: Range): set<nat> {
    set i: nat | i <= r.hi && Covers(r, i)
  }

  // The position of the first hyphen, or the end
  ghost function Hyphen(s: string): (h: nat)
    ensures h <= |s| && (h < |s| ==> s[h] == '-')
    ensures forall i | 0 <= i < h :: s[i] != '-'
  {
    if s == "" then 0 else if s[0] == '-' then 0 else 1 + Hyphen(s[1..])
  }

  // Digits, optionally a hyphen after at least one of them and more digits, or nothing at all
  ghost predicate GoodItem(s: string) {
    var h := Hyphen(s);
    && AllDigits(s[..h])
    && (h < |s| ==> h > 0 && AllDigits(s[h + 1..]))
  }

  ghost function ItemRange(s: string): Range
    requires GoodItem(s)
  {
    var h := Hyphen(s);
    Range(Number(s[..h]), if h < |s| then Number(s[h + 1..]) else Number(s[..h]))
  }

  // A good item whose range is not empty and lies within n bits
  ghost predicate FittingItem(s: string, n: nat) {
    GoodItem(s) && ItemRange(s).lo <= ItemRange(s).hi < n
  }

  // The first item that does not fit is number k
  ghost predicate FirstUnfit(items: seq<string>, n: nat, k: nat) {
    k < |items| && (forall j | 0 <= j < k :: FittingItem(items[j], n)) && !FittingItem(items[k], n)
  }

  // A good item whose range is not empty but ends beyond n bits
  ghost predicate TooLarge(s: string, n: nat) {
    GoodItem(s) && ItemRange(s).lo <= ItemRange(s).hi && ItemRange(s).hi >= n
  }

  // The range error is due, or the other one
  ghost predicate RangeError(items: seq<string>, n: nat) {
    exists k: nat :: FirstUnfit(items, n, k) && TooLarge(items[k], n)
  }

  ghost predicate ItemError(items: seq<string>, n: nat) {
    exists k: nat :: FirstUnfit(items, n, k) && !TooLarge(items[k], n)
  }

  lemma Unfit(done: seq<string>, item: string, rest: seq<string>, n: nat)
    requires AllFit(done, n) && !FittingItem(item, n) && rest != [] && rest[0] == item
    ensures TooLarge(item, n) ==> RangeError(done + rest, n)
    ensures !TooLarge(item, n) ==> ItemError(done + rest, n)
  {
    hide FittingItem, TooLarge;
    var items := done + rest;
    assert items[|done|] == item;
    forall j | 0 <= j < |done|
      ensures FittingItem(items[j], n)
    {
      assert items[j] == done[j];
    }
    assert FirstUnfit(items, n, |done|);
  }

  lemma Judged(item: string, a: nat, b: nat, n: nat)
    ensures FittingItem(item, n) || TooLarge(item, n) ==> GoodItem(item)
    ensures GoodItem(item) && ItemRange(item) == Range(a, b) ==> (FittingItem(item, n) <==> a <= b < n)
    ensures GoodItem(item) && ItemRange(item) == Range(a, b) ==> (TooLarge(item, n) <==> a <= b && b >= n)
  {
    hide GoodItem, ItemRange;
  }

  // At most one of the two errors is due, and none if all is well
  lemma OneError(items: seq<string>, n: nat)
    ensures RangeError(items, n) ==> !ItemError(items, n)
    ensures AllFit(items, n) ==> !RangeError(items, n) && !ItemError(items, n)
  {
    hide FittingItem, TooLarge;
    forall k: nat | FirstUnfit(items, n, k)
      ensures !AllFit(items, n)
    {
      assert items[k] in items;
    }
  }

  lemma {:induction false} HyphenAppend(s: string, c: char)
    ensures Hyphen(s + [c]) == if Hyphen(s) < |s| || c == '-' then Hyphen(s) else |s| + 1
  {
    if s != "" && s[0] != '-' {
      HyphenAppend(s[1..], c);
      assert (s + [c])[1..] == s[1..] + [c];
    }
  }

  lemma {:induction false} HyphenPrefix(s: string, t: string)
    requires Hyphen(s) < |s|
    ensures Hyphen(s + t) == Hyphen(s)
  {
    if s[0] == '-' {
    } else {
      HyphenPrefix(s[1..], t);
      assert (s + t)[1..] == s[1..] + t;
    }
  }

  lemma HyphenWhere(s: string, h: nat)
    requires h <= |s| && (forall i | 0 <= i < h :: s[i] != '-') && (h < |s| ==> s[h] == '-')
    ensures Hyphen(s) == h
  {
  }

  // What the parser knows after the characters p of an item
  ghost predicate ScanState(p: string, expDigit: bool, inRange: bool, a: nat, b: nat) {
    var h := Hyphen(p);
    && GoodItem(p)
    && inRange == (h < |p|)
    && expDigit == (p == "" || (inRange && h == |p| - 1))
    && a == ItemRange(p).lo && b == ItemRange(p).hi
  }

  lemma ScanDigit(p: string, c: char, expDigit: bool, inRange: bool, a: nat, b: nat)
    requires ScanState(p, expDigit, inRange, a, b) && IsDigit(c)
    ensures
      var v := (b * 10 + DigitValue(c)) % TWO_TO_32;
      ScanState(p + [c], false, inRange, if inRange then a else v, v)
  {
    hide IsDigit;
    var h, q := Hyphen(p), p + [c];
    HyphenAppend(p, c);
    NotHyphen(c);
    if inRange {
      assert q[..h] == p[..h];
      assert q[h + 1..] == p[h + 1..] + [c];
      assert q[h + 1..][..|q[h + 1..]| - 1] == p[h + 1..];
    } else {
      assert p[..h] == p && q[..|q|] == q && q[..|q| - 1] == p;
    }
  }

  lemma NotHyphen(c: char)
    requires IsDigit(c)
    ensures c != '-' && !IsSpace(c) && !Ends(c)
  {
  }

  lemma ScanHyphen(p: string, inRange: bool, a: nat, b: nat)
    requires ScanState(p, false, inRange, a, b) && !inRange
    ensures ScanState(p + ['-'], true, true, a, 0)
  {
    var q := p + ['-'];
    HyphenAppend(p, '-');
    assert q[..|p|] == p == p[..|p|];
    assert q[|p| + 1..] == "";
  }

  // A hyphen where a digit is expected, or a second hyphen, spoils the item
  lemma BadHyphen(p: string, rest: string, expDigit: bool, inRange: bool, a: nat, b: nat)
    requires ScanState(p, expDigit, inRange, a, b) && (expDigit || inRange)
    ensures !GoodItem(p + ['-'] + rest)
  {
    var s := p + ['-'] + rest;
    var h := Hyphen(p);
    assert s[|p|] == '-';
    if inRange {
      HyphenPrefix(p, ['-'] + rest);
      assert p + (['-'] + rest) == s;
      assert s[h + 1..][|p| - (h + 1)] == '-';
    } else {
      HyphenWhere(s, 0);
    }
  }

  lemma BadChar(p: string, c: char, rest: string)
    requires !IsDigit(c) && c != '-'
    ensures !GoodItem(p + [c] + rest)
  {
    var s := p + [c] + rest;
    var h := Hyphen(s);
    assert s[|p|] == c;
    if |p| < h {
      assert s[..h][|p|] == c;
    } else if h < |p| {
      assert s[h + 1..][|p| - (h + 1)] == c;
    }
  }

  // ---------- the parser ----------

  // The bits that the good ones among the items name
  ghost function Union(items: seq<string>): set<nat> {
    if items == [] then {}
    else
      var last := items[|items| - 1];
      Union(items[..|items| - 1]) + (if GoodItem(last) then Members(ItemRange(last)) else {})
  }

  ghost predicate Accepts(text: string, n: nat) {
    && NoEmbedded(text, IsDigit)
    && forall item | item in Items(text) :: FittingItem(item, n)
  }

  lemma ScanStart()
    ensures ScanState("", true, false, 0, 0)
  {
  }

  lemma SpaceIsNoDigit(c: char)
    ensures IsSpace(c) || c == '-' ==> !IsDigit(c) && c != NUL && !Ends(c)
  {
  }

  // The inner loop of __bitmap_parselist: one item, and the character that ends it
  method ReadItem(buf: string, start: nat, digitsBefore: nat)
    returns (err: int, pos: nat, totaldigits: nat, a: nat, b: nat)
    requires start <= |buf| && NoNul(buf, start) && CleanTo(buf, IsDigit, start)
    requires digitsBefore > 0 <==> Seen(buf, IsDigit, start)
    ensures err == 0 ==>
      var stop := StopAt(buf, start);
      && GoodItem(ItemAt(buf, start)) && ItemRange(ItemAt(buf, start)) == Range(a, b)
      && pos == (if stop < |buf| then stop + 1 else stop)
      && NoNul(buf, stop) && CleanTo(buf, IsDigit, pos)
      && (totaldigits > 0 <==> Seen(buf, IsDigit, stop))
    ensures err != 0 ==>
      err == -EINVAL && (!GoodItem(ItemAt(buf, start)) || !NoEmbedded(buf, IsDigit))
  {
    hide IsDigit, GoodItem, ItemRange, NoEmbedded, CleanTo, NoNul, Seen, StopAt, ItemAt, ScanState;
    pos, totaldigits, a, b, err := start, digitsBefore, 0, 0, 0;
    var expDigit, inRange := true, false;
    ghost var p := "";
    assert "" + ItemAt(buf, start) == ItemAt(buf, start);
    ScanStart();
    while pos < |buf|
      invariant start <= pos <= |buf| && NoNul(buf, pos) && CleanTo(buf, IsDigit, pos)
      invariant totaldigits > 0 <==> Seen(buf, IsDigit, pos)
      invariant ItemAt(buf, start) == p + ItemAt(buf, pos) && StopAt(buf, start) == StopAt(buf, pos)
      invariant ScanState(p, expDigit, inRange, a, b)
    {
      var c := buf[pos];
      var old_c := if pos > 0 then buf[pos - 1] else NUL;
      ItemStep(buf, pos);
      if IsSpace(c) {
        SpaceIsNoDigit(c);
        BlankStep(buf, IsDigit, pos);
        SeenStep(buf, IsDigit, pos);
        pos := pos + 1;
        continue;
      }
      if totaldigits > 0 && c != NUL && IsSpace(old_c) {
        SeenStep(buf, IsDigit, pos);
        EmbeddedFound(buf, IsDigit, pos);
        err := -EINVAL;
        return;
      }
      CleanStep(buf, IsDigit, pos);
      if c == NUL || c == ',' {
        assert p + "" == p;
        ScanEnd(p, expDigit, inRange, a, b);
        pos := pos + 1;
        return;
      }
      ghost var rest := ItemAt(buf, pos + 1);
      assert p + ([c] + rest) == p + [c] + rest;
      if c == '-' {
        if expDigit || inRange {
          BadHyphen(p, rest, expDigit, inRange, a, b);
          err := -EINVAL;
          return;
        }
        ScanHyphen(p, inRange, a, b);
        SpaceIsNoDigit(c);
        SeenStep(buf, IsDigit, pos);
        b := 0;
        inRange := true;
        expDigit := true;
        p := p + [c];
        pos := pos + 1;
        continue;
      }
      if !IsDigit(c) {
        BadChar(p, c, rest);
        err := -EINVAL;
        return;
      }
      ScanDigit(p, c, expDigit, inRange, a, b);
      SeenStep(buf, IsDigit, pos);
      b := (b * 10 + DigitValue(c)) % TWO_TO_32;
      if !inRange {
        a := b;
      }
      expDigit := false;
      totaldigits := totaldigits + 1;
      p := p + [c];
      pos := pos + 1;
    }
    ItemPastEnd(buf);
    assert p + "" == p;
    ScanEnd(p, expDigit, inRange, a, b);
  }

  lemma ScanEnd(p: string, expDigit: bool, inRange: bool, a: nat, b: nat)
    requires ScanState(p, expDigit, inRange, a, b)
    ensures GoodItem(p) && ItemRange(p) == Range(a, b)
  {
  }

  // The loop that sets the bits from a to b
  method SetRange(a: nat, b: nat, mask: array<Word>, n: nat)
    requires a <= b < n && Longs(n) <= mask.Length
    modifies mask
    ensures Bits(mask[..], n) == old(Bits(mask[..], n)) + Members(Range(a, b))
  {
    hide At;
    ghost var s := Bits(mask[..], n);
    var next := a;
    while next <= b
      invariant a <= next <= b + 1
      invariant forall i: nat :: i in Bits(mask[..], n) <==> i in s || a <= i < next
    {
      ghost var before := mask[..];
      SetBit(next, mask);
      AddedBit(before, mask[..], n, next);
      next := next + 1;
    }
    assert forall i: nat :: i in Members(Range(a, b)) <==> Covers(Range(a, b), i);
  }

  // __bitmap_parselist
  method ParseList(buf: string, mask: array<Word>, n: nat) returns (ret: int)
    requires Longs(n) <= mask.Length
    modifies mask
    ensures ret == 0 <==> Accepts(buf, n)
    ensures ret == 0 ==> Bits(mask[..], n) == Union(Items(buf))
    ensures ret != 0 ==> ret == -EINVAL || ret == -ERANGE
    ensures ret == -ERANGE ==> RangeError(Items(buf), n)
    ensures NoEmbedded(buf, IsDigit) ==> (ret == -ERANGE <==> RangeError(Items(buf), n))
    ensures NoEmbedded(buf, IsDigit) ==> (ret == -EINVAL <==> ItemError(Items(buf), n))
  {
    hide Accepts, AllFit, RangeError, ItemError, FittingItem, TooLarge, At, IsDigit, GoodItem, ItemRange,
      NoEmbedded, CleanTo, NoNul, Seen, StopAt, ItemAt, ItemsFrom, Another, Union, Bits, Members, Longs;
    BitmapZero(mask, n);
    var pos, totaldigits := 0, 0;
    ghost var done: seq<string> := [];
    ParseStart(buf);
    NoneUnfit(n);
    OneError(Items(buf), n);
    while true
      invariant pos <= |buf| && NoNul(buf, pos) && CleanTo(buf, IsDigit, pos)
      invariant totaldigits > 0 <==> Seen(buf, IsDigit, pos)
      invariant Items(buf) == done + ItemsFrom(buf, pos)
      invariant AllFit(done, n)
      invariant Bits(mask[..], n) == Union(done)
      decreases |buf| - pos
    {
      ghost var item, stop := ItemAt(buf, pos), StopAt(buf, pos);
      ItemsStep(buf, pos);
      if !FittingItem(item, n) {
        Unfit(done, item, ItemsFrom(buf, pos), n);
      }
      var err, next, digits, a, b := ReadItem(buf, pos, totaldigits);
      Judged(item, a, b, n);
      Verdict(buf, item, n);
      if err != 0 {
        return err;
      }
      if !(a <= b) {
        return -EINVAL;
      }
      if b >= n {
        return -ERANGE;
      }
      SetRange(a, b, mask, n);
      UnionAdd(done, item);
      OneMoreFits(done, item, n);
      done := done + [item];
      if !(next < |buf| && buf[next - 1] == ',') {
        Finished(buf, IsDigit, pos, stop, next);
        assert Items(buf) == done;
        AllAccepted(buf, n);
        return 0;
      }
      CommaIsNoDigit();
      Continues(buf, IsDigit, stop, next);
      assert Items(buf) == done + ItemsFrom(buf, next);
      pos, totaldigits := next, digits;
    }
  }

  ghost predicate AllFit(items: seq<string>, n: nat) {
    forall item | item in items :: FittingItem(item, n)
  }

  lemma NoneUnfit(n: nat)
    ensures AllFit([], n)
  {
  }

  lemma OneMoreFits(items: seq<string>, item: string, n: nat)
    requires AllFit(items, n) && FittingItem(item, n)
    ensures AllFit(items + [item], n)
  {
    hide FittingItem;
  }

  lemma AllAccepted(text: string, n: nat)
    requires AllFit(Items(text), n) && NoEmbedded(text, IsDigit)
    ensures Accepts(text, n)
  {
  }

  lemma Verdict(text: string, item: string, n: nat)
    requires item in Items(text)
    ensures !FittingItem(item, n) || !NoEmbedded(text, IsDigit) ==> !Accepts(text, n)
  {
  }

  lemma ParseStart(text: string)
    ensures NoNul(text, 0) && CleanTo(text, IsDigit, 0) && !Seen(text, IsDigit, 0)
    ensures Union([]) == {} && Items(text) == [] + ItemsFrom(text, 0)
  {
    hide IsDigit, ItemsFrom;
  }

  lemma UnionAdd(items: seq<string>, item: string)
    requires GoodItem(item)
    ensures Union(items + [item]) == Union(items) + Members(ItemRange(item))
  {
    hide GoodItem, ItemRange;
    assert (items + [item])[..|items|] == items;
  }

  // ---------- the printer ----------

  ghost function Rendered(r: Range): string {
    if r.lo == r.hi then Decimal(r.lo) else Decimal(r.lo) + "-" + Decimal(r.hi)
  }

  ghost function RenderedAll(runs: seq<Range>): seq<string> {
    if runs == [] then [] else RenderedAll(runs[..|runs| - 1]) + [Rendered(runs[|runs| - 1])]
  }

  ghost function Covered(runs: seq<Range>): set<nat> {
    if runs == [] then {} else Covered(runs[..|runs| - 1]) + Members(runs[|runs| - 1])
  }

  // Ascending ranges with gaps between them
  ghost predicate InOrder(runs: seq<Range>) {
    && (forall k | 0 <= k < |runs| :: runs[k].lo <= runs[k].hi)
    && (forall j, k | 0 <= j < k < |runs| :: runs[j].hi + 1 < runs[k].lo)
  }

  // The maximal runs of s, in ascending order
  ghost predicate MaximalRuns(runs: seq<Range>, s: set<nat>) {
    Covered(runs) == s && InOrder(runs)
  }

  // bscnl_emit
  method Emit(buf: string, rbot: nat, rtop: nat, ghost items: seq<string>) returns (out: string)
    requires buf == Join(items) && forall item | item in items :: item != ""
    ensures out == Join(items + [Rendered(Range(rbot, rtop))])
  {
    out := buf;
    JoinAppend(items, Rendered(Range(rbot, rtop)));
    JoinEmpty(items);
    if |buf| > 0 {
      out := out + ",";
    }
    if rbot == rtop {
      out := out + Decimal(rbot);
    } else {
      out := out + (Decimal(rbot) + "-" + Decimal(rtop));
    }
  }

  lemma {:induction false} CoveredBelow(runs: seq<Range>, m: nat)
    requires forall k | 0 <= k < |runs| :: runs[k].hi < m
    ensures Below(Covered(runs), m)
  {
    if runs == [] {
    } else {
      CoveredBelow(runs[..|runs| - 1], m);
    }
  }

  lemma AppendRun(runs: seq<Range>, s: set<nat>, r: Range)
    requires MaximalRuns(runs, Prefix(s, r.lo)) && r.lo <= r.hi
    requires runs == [] || runs[|runs| - 1].hi + 1 < r.lo
    requires forall i | r.lo <= i <= r.hi :: i in s
    ensures MaximalRuns(runs + [r], Prefix(s, r.hi + 1))
    ensures RenderedAll(runs + [r]) == RenderedAll(runs) + [Rendered(r)]
  {
    AppendedRun(runs, r);
    AppendedOrder(runs, r);
    ExtendedPrefix(s, r);
    hide RenderedAll, Rendered, Covered, Members, Prefix, InOrder;
  }

  lemma AppendedRun(runs: seq<Range>, r: Range)
    ensures Covered(runs + [r]) == Covered(runs) + Members(r)
    ensures RenderedAll(runs + [r]) == RenderedAll(runs) + [Rendered(r)]
  {
    hide Members, Rendered;
    assert (runs + [r])[..|runs|] == runs;
  }

  lemma AppendedOrder(runs: seq<Range>, r: Range)
    requires InOrder(runs) && r.lo <= r.hi && (runs == [] || runs[|runs| - 1].hi + 1 < r.lo)
    ensures InOrder(runs + [r])
  {
    assert forall j | 0 <= j < |runs| :: runs[j].hi + 1 < r.lo;
  }

  lemma ExtendedPrefix(s: set<nat>, r: Range)
    requires r.lo <= r.hi && forall i | r.lo <= i <= r.hi :: i in s
    ensures Prefix(s, r.hi + 1) == Prefix(s, r.lo) + Members(r)
  {
  }

  lemma RenderedPlain(r: Range)
    ensures Rendered(r) != "" && Plain(Rendered(r))
  {
    hide Decimal;
  }

  lemma {:induction false} RenderedNotEmpty(runs: seq<Range>)
    ensures |RenderedAll(runs)| == |runs|
    ensures forall k | 0 <= k < |runs| :: RenderedAll(runs)[k] == Rendered(runs[k])
    ensures forall item | item in RenderedAll(runs) :: item != "" && Plain(item)
  {
    hide Rendered, Plain;
    if runs == [] {
    } else {
      RenderedNotEmpty(runs[..|runs| - 1]);
      RenderedPlain(runs[|runs| - 1]);
    }
  }

  // The text lists the maximal runs of s, in ascending order
  ghost predicate IsListText(text: string, s: set<nat>) {
    exists runs :: MaximalRuns(runs, s) && text == Join(RenderedAll(runs))
  }

  // bitmap_scnlistprintf, with room for the whole text
  method ScnListPrintf(mask: array<Word>, n: nat) returns (buf: string)
    requires Longs(n) <= mask.Length
    ensures IsListText(buf, Bits(mask[..], n))
  {
    hide At, MaximalRuns, RenderedAll, Rendered;
    ghost var s := Bits(mask[..], n);
    buf := "";
    ghost var runs: seq<Range> := [];
    var rbot := FindFirstBit(mask, n);
    var cur := rbot;
    PrintStart(s, rbot);
    while cur < n
      invariant 0 <= rbot <= cur <= n && (cur == n ==> rbot == n)
      invariant MaximalRuns(runs, Prefix(s, rbot)) && buf == Join(RenderedAll(runs))
      invariant runs == [] || runs[|runs| - 1].hi + 1 < rbot || rbot == n
      invariant forall i | rbot <= i <= cur && cur < n :: i in s
      decreases n - cur
    {
      var rtop := cur;
      cur := FindNextBit(mask, n, cur + 1);
      if cur >= n || cur > rtop + 1 {
        AppendRun(runs, s, Range(rbot, rtop));
        RenderedNotEmpty(runs);
        buf := Emit(buf, rbot, rtop, RenderedAll(runs));
        runs := runs + [Range(rbot, rtop)];
        assert Prefix(s, cur) == Prefix(s, rtop + 1);
        rbot := cur;
      }
    }
    assert Prefix(s, n) == s;
  }

  lemma PrintStart(s: set<nat>, first: nat)
    requires forall i | i in s :: i >= first
    ensures MaximalRuns([], Prefix(s, first)) && Join(RenderedAll([])) == ""
  {
    assert Prefix(s, first) == {};
  }

  // ---------- printing and parsing ----------

  // A rendered range is read back as that range
  lemma RenderedItem(r: Range)
    requires r.lo <= r.hi < TWO_TO_32
    ensures GoodItem(Rendered(r)) && ItemRange(Rendered(r)) == r
  {
    hide Decimal, Number;
    var lo, hi := Decimal(r.lo), Decimal(r.hi);
    var s := Rendered(r);
    NumberOfDecimal(r.lo);
    NumberOfDecimal(r.hi);
    if r.lo == r.hi {
      HyphenWhere(s, |s|);
      assert s[..|s|] == s;
    } else {
      HyphenWhere(s, |lo|);
      assert s[..|lo|] == lo && s[|lo| + 1..] == hi;
    }
  }

  lemma {:induction false} RenderedUnion(runs: seq<Range>)
    requires forall k | 0 <= k < |runs| :: runs[k].lo <= runs[k].hi < TWO_TO_32
    ensures Union(RenderedAll(runs)) == Covered(runs)
  {
    hide Rendered, GoodItem, ItemRange;
    if runs == [] {
    } else {
      var init := runs[..|runs| - 1];
      RenderedUnion(init);
      RenderedItem(runs[|runs| - 1]);
      UnionAdd(RenderedAll(init), Rendered(runs[|runs| - 1]));
    }
  }

  lemma {:induction false} CoveredMembers(runs: seq<Range>, k: nat, i: nat)
    requires k < |runs| && Covers(runs[k], i)
    ensures i in Covered(runs)
  {
    if k == |runs| - 1 {
    } else {
      CoveredMembers(runs[..|runs| - 1], k, i);
    }
  }

  // The printed text of a bitmap with a bit set is accepted, and means that bitmap
  lemma PrintedIsAccepted(text: string, s: set<nat>, n: nat)
    requires IsListText(text, s) && Below(s, n) && n < TWO_TO_32 && s != {}
    ensures Accepts(text, n) && Union(Items(text)) == s
  {
    var runs: seq<Range> :| MaximalRuns(runs, s) && text == Join(RenderedAll(runs));
    hide Rendered, GoodItem, ItemRange, Join, ItemsFrom, NoEmbedded, Covered;
    var items := RenderedAll(runs);
    NonEmptyRuns(runs, s);
    RenderedNotEmpty(runs);
    assert text[0..] == text;
    assert items[|items| - 1] in items;
    SplitJoin(text, 0, items);
    JoinNoBlank(items);
    NoBlankNoEmbedded(text, IsDigit);
    forall k | 0 <= k < |runs|
      ensures runs[k].hi < n && FittingItem(items[k], n)
    {
      CoveredMembers(runs, k, runs[k].hi);
      RenderedItem(runs[k]);
    }
    RenderedUnion(runs);
  }

  lemma NonEmptyRuns(runs: seq<Range>, s: set<nat>)
    requires MaximalRuns(runs, s) && s != {}
    ensures runs != []
  {
  }

  // The empty text, which is what the empty bitmap prints, is read as bit 0
  lemma EmptyTextIsBitZero(n: nat)
    requires n > 0
    ensures Accepts("", n) && Union(Items("")) == {0}
  {
    assert Items("") == [""];
    assert ItemRange("") == Range(0, 0);
    UnionAdd([], "");
    assert [] + [""] == [""];
    assert Members(Range(0, 0)) == {0} by {
      assert Covers(Range(0, 0), 0);
    }
  }

  // The digits are counted from the start of the text, so a blank after a comma is an embedded one
  lemma BlankAfterComma(n: nat)
    ensures !Accepts("1, 2", n)
  {
    var text := "1, 2";
    assert IsDigit(text[0]) && Seen(text, IsDigit, 3);
    assert EmbeddedAt(text, IsDigit, 3);
    EmbeddedFound(text, IsDigit, 3);
  }

  // Parsing what was printed restores the bitmap exactly when it is not empty
  lemma RoundTrip(text: string, s: set<nat>, n: nat)
    requires IsListText(text, s) && Below(s, n) && 0 < n < TWO_TO_32
    ensures Accepts(text, n)
    ensures Union(Items(text)) == s <==> s != {}
  {
    hide Accepts, Union, Items, IsListText;
    if s == {} {
      EmptyPrintsNothing(text, s);
      EmptyTextIsBitZero(n);
    } else {
      PrintedIsAccepted(text, s, n);
    }
  }

  lemma NoRuns(runs: seq<Range>)
    requires MaximalRuns(runs, {})
    ensures runs == []
  {
    if runs != [] {
      CoveredMembers(runs, 0, runs[0].lo);
    }
  }

  // Equal bitmaps and equal texts coincide
  lemma TextDeterminesBitmap(p: string, s: set<nat>, q: string, t: set<nat>, n: nat)
    requires IsListText(p, s) && IsListText(q, t) && Below(s, n) && Below(t, n) && 0 < n < TWO_TO_32
    ensures p == q <==> s == t
  {
    hide Accepts, Union, Items, IsListText;
    if p == q {
      RoundTrip(p, s, n);
      RoundTrip(q, t, n);
      EmptyPrintsNothing(p, s);
      EmptyPrintsNothing(q, t);
    }
    if s == t {
      OneText(p, q, s);
    }
  }

  lemma OneText(p: string, q: string, s: set<nat>)
    requires IsListText(p, s) && IsListText(q, s)
    ensures p == q
  {
    hide MaximalRuns, RenderedAll, Join;
    var runs: seq<Range> :| MaximalRuns(runs, s) && p == Join(RenderedAll(runs));
    var more: seq<Range> :| MaximalRuns(more, s) && q == Join(RenderedAll(more));
    RunsUnique(runs, more, s);
  }

  lemma EmptyPrintsNothing(text: string, s: set<nat>)
    requires IsListText(text, s)
    ensures s == {} <==> text == ""
  {
    hide Join;
    var runs: seq<Range> :| MaximalRuns(runs, s) && text == Join(RenderedAll(runs));
    RenderedNotEmpty(runs);
    JoinEmpty(RenderedAll(runs));
    if s == {} {
      NoRuns(runs);
    }
  }

  // A set has only one sequence of maximal runs
  lemma {:induction false} RunsUnique(q: seq<Range>, r: seq<Range>, s: set<nat>)
    requires MaximalRuns(q, s) && MaximalRuns(r, s)
    ensures q == r
    decreases |q|
  {
    if q == [] {
      NoRuns(r);
    } else if r == [] {
      NoRuns(q);
    } else {
      var j, k := |q| - 1, |r| - 1;
      LastRun(q, s);
      LastRun(r, s);
      LastRunsAgree(q[j], r[k], s);
      WithoutLast(q, s);
      WithoutLast(r, s);
      RunsUnique(q[..j], r[..k], s - Members(q[j]));
    }
  }

  // The last run ends at the maximum and begins after a gap
  ghost predicate IsLastRun(r: Range, s: set<nat>) {
    && r.lo <= r.hi
    && (forall i | i in s :: i <= r.hi)
    && (forall i: nat | Covers(r, i) :: i in s)
    && (r.lo > 0 ==> r.lo - 1 !in s)
  }

  lemma LastRunsAgree(q: Range, r: Range, s: set<nat>)
    requires IsLastRun(q, s) && IsLastRun(r, s)
    ensures q == r
  {
    assert Covers(q, q.hi) && Covers(r, r.hi);
    assert r.lo > 0 ==> !Covers(q, r.lo - 1);
    assert q.lo > 0 ==> !Covers(r, q.lo - 1);
  }

  lemma LastRun(runs: seq<Range>, s: set<nat>)
    requires MaximalRuns(runs, s) && runs != []
    ensures IsLastRun(runs[|runs| - 1], s)
  {
    var r := runs[|runs| - 1];
    var init := runs[..|runs| - 1];
    if init != [] {
      assert runs[0].hi + 1 < r.lo;
      CoveredBelow(init, r.lo - 1);
    }
    assert s == Covered(init) + Members(r);
  }

  lemma WithoutLast(runs: seq<Range>, s: set<nat>)
    requires MaximalRuns(runs, s) && runs != []
    ensures MaximalRuns(runs[..|runs| - 1], s - Members(runs[|runs| - 1]))
  {
    var r := runs[|runs| - 1];
    var init := runs[..|runs| - 1];
    CoveredBelow(init, r.lo);
  }

  // Printing a bitmap and parsing the text gives it back, unless it is empty
  method PrintThenParse(src: array<Word>, dst: array<Word>, n: nat) returns (ret: int)
    requires 0 < n < TWO_TO_32 && Longs(n) <= src.Length && Longs(n) <= dst.Length
    modifies dst
    ensures ret == 0
    ensures Bits(dst[..], n) == old(Bits(src[..], n)) <==> old(Bits(src[..], n)) != {}
    ensures old(Bits(src[..], n)) == {} ==> Bits(dst[..], n) == {0}
  {
    ghost var s := Bits(src[..], n);
    var buf := ScnListPrintf(src, n);
    hide Accepts, IsListText, At;
    RoundTrip(buf, s, n);
    EmptyPrintsNothing(buf, s);
    EmptyTextIsBitZero(n);
    ret := ParseList(buf, dst, n);
  }
}
