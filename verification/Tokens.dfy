/**
  What both bitmap parsers read from their buffer: items separated by commas, up to
  a NUL or the end of the buffer, with white space left out.
 */
module Tokens {

  const NUL: char := '\0'

  // What unsigned arithmetic wraps around at
  const TWO_TO_32 := 0x1_0000_0000

  // isspace in the C locale
  predicate IsSpace(c: char) {
    c == ' ' || '\t' <= c <= '\r'
  }

  predicate Ends(c: char) {
    c == NUL || c == ','
  }

  // The item that starts at pos, without its white space
  ghost function ItemAt(text: string, pos: nat): string
    decreases |text| - pos
  {
    if pos >= |text| || Ends(text[pos]) then ""
    else (if IsSpace(text[pos]) then "" else [text[pos]]) + ItemAt(text, pos + 1)
  }

  // Where the item that starts at pos ends
  ghost function StopAt(text: string, pos: nat): (stop: nat)
    requires pos <= |text|
    ensures pos <= stop <= |text| && (stop < |text| ==> Ends(text[stop]))
    decreases |text| - pos
  {
    if pos == |text| || Ends(text[pos]) then pos else StopAt(text, pos + 1)
  }

  // A comma that is not the last character of the buffer asks for another item
  ghost predicate Another(text: string, stop: nat) {
    stop + 1 < |text| && text[stop] == ','
  }

  ghost function ItemsFrom(text: string, pos: nat): (items: seq<string>)
    requires pos <= |text|
    ensures |items| > 0
    decreases |text| - pos
  {
    var stop := StopAt(text, pos);
    [ItemAt(text, pos)] + (if Another(text, stop) then ItemsFrom(text, stop + 1) else [])
  }

  ghost function Items(text: string): seq<string> {
    ItemsFrom(text, 0)
  }

  // How much of the text is read: up to a NUL
  ghost function VisibleFrom(text: string, pos: nat): nat
    requires pos <= |text|
    decreases |text| - pos
  {
    if pos == |text| || text[pos] == NUL then pos else VisibleFrom(text, pos + 1)
  }

  ghost predicate Seen(text: string, digit: char -> bool, pos: nat)
    requires pos <= |text|
  {
    exists i | 0 <= i < pos :: digit(text[i])
  }

  // White space between the digit seen first and a later character
  ghost predicate EmbeddedAt(text: string, digit: char -> bool, i: nat)
    requires i < |text|
  {
    i > 0 && IsSpace(text[i - 1]) && !IsSpace(text[i]) && Seen(text, digit, i)
  }

  ghost predicate NoEmbedded(text: string, digit: char -> bool) {
    forall i: nat | i < |text| && i < VisibleFrom(text, 0) :: !EmbeddedAt(text, digit, i)
  }

  lemma {:induction false} VisibleSkips(text: string, lo: nat, hi: nat)
    requires lo <= hi <= |text| && forall i | lo <= i < hi :: text[i] != NUL
    ensures VisibleFrom(text, lo) == VisibleFrom(text, hi) >= hi
    decreases hi - lo
  {
    if lo < hi {
      VisibleSkips(text, lo + 1, hi);
    } else {
      VisibleBound(text, lo);
    }
  }

  lemma {:induction false} VisibleBound(text: string, pos: nat)
    requires pos <= |text|
    ensures pos <= VisibleFrom(text, pos) <= |text|
    decreases |text| - pos
  {
    if pos < |text| && text[pos] != NUL {
      VisibleBound(text, pos + 1);
    }
  }

  // No embedded white space up to hi, a NUL at the very end not counting
  ghost predicate CleanTo(text: string, digit: char -> bool, hi: nat)
    requires hi <= |text|
  {
    forall i: nat | i < hi && text[i] != NUL :: !EmbeddedAt(text, digit, i)
  }

  ghost predicate NoNul(text: string, hi: nat)
    requires hi <= |text|
  {
    forall i | 0 <= i < hi :: text[i] != NUL
  }

  lemma CleanAll(text: string, digit: char -> bool, stop: nat, pos: nat)
    requires stop <= pos <= |text| && CleanTo(text, digit, pos) && NoNul(text, stop)
    requires stop < |text| ==> pos == stop + 1 && (text[stop] == NUL || pos == |text|)
    ensures NoEmbedded(text, digit)
  {
    VisibleSkips(text, 0, stop);
    VisibleBound(text, 0);
  }

  lemma EmbeddedFound(text: string, digit: char -> bool, i: nat)
    requires i < |text| && NoNul(text, i + 1) && EmbeddedAt(text, digit, i)
    ensures !NoEmbedded(text, digit)
  {
    VisibleSkips(text, 0, i + 1);
  }

  // ---------- one character ----------

  lemma ItemStep(text: string, pos: nat)
    requires pos < |text|
    ensures Ends(text[pos]) ==> ItemAt(text, pos) == "" && StopAt(text, pos) == pos
    ensures !Ends(text[pos]) && IsSpace(text[pos]) ==> ItemAt(text, pos) == ItemAt(text, pos + 1)
    ensures !Ends(text[pos]) && !IsSpace(text[pos]) ==> ItemAt(text, pos) == [text[pos]] + ItemAt(text, pos + 1)
    ensures !Ends(text[pos]) ==> StopAt(text, pos) == StopAt(text, pos + 1)
  {
  }

  lemma ItemPastEnd(text: string)
    ensures ItemAt(text, |text|) == "" && StopAt(text, |text|) == |text|
  {
  }

  lemma SeenStep(text: string, digit: char -> bool, pos: nat)
    requires pos < |text| && NoNul(text, pos)
    ensures Seen(text, digit, pos + 1) <==> Seen(text, digit, pos) || digit(text[pos])
    ensures text[pos] != NUL ==> NoNul(text, pos + 1)
  {
    if Seen(text, digit, pos) {
      var i :| 0 <= i < pos && digit(text[i]);
      assert i < pos + 1;
    }
  }

  lemma BlankStep(text: string, digit: char -> bool, pos: nat)
    requires pos < |text| && IsSpace(text[pos]) && CleanTo(text, digit, pos)
    ensures CleanTo(text, digit, pos + 1)
  {
  }

  lemma CleanStep(text: string, digit: char -> bool, pos: nat)
    requires pos < |text| && CleanTo(text, digit, pos)
    requires text[pos] == NUL || !Seen(text, digit, pos) || pos == 0 || !IsSpace(text[pos - 1])
    ensures CleanTo(text, digit, pos + 1)
  {
  }

  // ---------- one item ----------

  lemma ItemsStep(text: string, pos: nat)
    requires pos <= |text|
    ensures ItemsFrom(text, pos) ==
      [ItemAt(text, pos)] + (if Another(text, StopAt(text, pos)) then ItemsFrom(text, StopAt(text, pos) + 1) else [])
    ensures ItemAt(text, pos) in ItemsFrom(text, pos)
    ensures pos <= StopAt(text, pos) <= |text|
  {
    hide ItemAt, Another;
  }

  // The reader, having taken the character at stop if there is one, is at the next item
  lemma Continues(text: string, digit: char -> bool, stop: nat, next: nat)
    requires stop <= |text| && next == (if stop < |text| then stop + 1 else stop) && !digit(',')
    requires next < |text| && text[next - 1] == ',' && NoNul(text, stop)
    ensures Another(text, stop) && next == stop + 1 && NoNul(text, next)
    ensures Seen(text, digit, next) <==> Seen(text, digit, stop)
  {
    SeenStep(text, digit, stop);
  }

  // Or it has read the last one
  lemma Finished(text: string, digit: char -> bool, pos: nat, stop: nat, next: nat)
    requires pos <= |text| && stop == StopAt(text, pos) && next == (if stop < |text| then stop + 1 else stop)
    requires !(next < |text| && text[next - 1] == ',')
    requires NoNul(text, stop) && CleanTo(text, digit, next)
    ensures !Another(text, stop) && NoEmbedded(text, digit)
  {
    hide CleanTo, NoNul, NoEmbedded;
    CleanAll(text, digit, stop, next);
  }

  // ---------- joining ----------

  // The items with commas in between
  ghost function Join(items: seq<string>): string {
    if |items| == 0 then ""
    else if |items| == 1 then items[0]
    else items[0] + "," + Join(items[1..])
  }

  // An item as the printers write it
  ghost predicate Plain(item: string) {
    forall i | 0 <= i < |item| :: !Ends(item[i]) && !IsSpace(item[i])
  }

  lemma {:induction false} PlainItem(text: string, pos: nat, item: string)
    requires Plain(item) && pos + |item| <= |text| && text[pos..pos + |item|] == item
    requires pos + |item| == |text| || Ends(text[pos + |item|])
    ensures ItemAt(text, pos) == item && StopAt(text, pos) == pos + |item|
    decreases |item|
  {
    if item == "" {
    } else {
      assert text[pos] == item[0];
      assert text[pos + 1..pos + 1 + |item[1..]|] == item[1..];
      PlainItem(text, pos + 1, item[1..]);
      assert item == [item[0]] + item[1..];
    }
  }

  // The first item of joined items, and what follows its comma
  lemma FirstOfJoined(text: string, pos: nat, items: seq<string>)
    requires pos <= |text| && text[pos..] == Join(items) && |items| > 0 && Plain(items[0])
    ensures ItemAt(text, pos) == items[0] && StopAt(text, pos) == pos + |items[0]| <= |text|
    ensures |items| == 1 ==> pos + |items[0]| == |text|
    ensures |items| > 1 ==>
      var stop := pos + |items[0]|;
      stop < |text| && text[stop] == ',' && text[stop + 1..] == Join(items[1..])
  {
    var item := items[0];
    var stop := pos + |item|;
    assert text[pos..][..|item|] == item;
    assert text[pos..stop] == text[pos..][..|item|];
    if |items| > 1 {
      assert text[pos..][|item|] == ',';
      assert text[stop] == ',';
      assert text[stop + 1..] == text[pos..][|item| + 1..];
    }
    PlainItem(text, pos, item);
  }

  // Splitting undoes joining
  lemma {:induction false} SplitJoin(text: string, pos: nat, items: seq<string>)
    requires pos <= |text| && text[pos..] == Join(items)
    requires |items| > 0 && forall item | item in items :: Plain(item)
    requires |items| > 1 ==> items[|items| - 1] != ""
    ensures ItemsFrom(text, pos) == items
    decreases |items|
  {
    hide Plain, Join, ItemAt, StopAt, ItemsFrom;
    FirstOfJoined(text, pos, items);
    ItemsStep(text, pos);
    if |items| == 1 {
    } else {
      var rest := items[1..];
      JoinNotEmpty(rest);
      SplitJoin(text, pos + |items[0]| + 1, rest);
    }
  }

  lemma {:induction false} JoinNotEmpty(items: seq<string>)
    requires |items| > 0 && items[|items| - 1] != ""
    ensures Join(items) != ""
  {
  }

  lemma {:induction false} JoinAppend(items: seq<string>, item: string)
    ensures Join(items + [item]) == if items == [] then item else Join(items) + "," + item
    decreases |items|
  {
    if items == [] {
    } else {
      JoinAppend(items[1..], item);
      assert (items + [item])[1..] == items[1..] + [item];
    }
  }

  lemma JoinEmpty(items: seq<string>)
    requires forall item | item in items :: item != ""
    ensures Join(items) == "" <==> items == []
  {
    if items != [] {
      assert items[0] in items;
    }
  }

  ghost predicate NoBlank(text: string) {
    forall i | 0 <= i < |text| :: !IsSpace(text[i])
  }

  lemma {:induction false} JoinNoBlank(items: seq<string>)
    requires forall item | item in items :: Plain(item)
    ensures NoBlank(Join(items))
    decreases |items|
  {
    if items == [] {
    } else {
      assert Plain(items[0]);
      JoinNoBlank(items[1..]);
    }
  }

  lemma NoBlankNoEmbedded(text: string, digit: char -> bool)
    requires NoBlank(text)
    ensures NoEmbedded(text, digit)
  {
  }
}
