/**
  What white space and separators do to the items of a text, whichever of the two parsers reads it.
 */
module WhiteSpace {
  import opened Tokens

  const WHITE: string := [' ', '\t', '\n', '\U{0B}', '\U{0C}', '\r']

  ghost predicate Blank(text: string) {
    forall i | 0 <= i < |text| :: text[i] in WHITE
  }

  lemma SpaceIsWhite(c: char)
    ensures IsSpace(c) <==> c in WHITE
    ensures IsSpace(c) ==> !Ends(c)
  {
  }

  // The text is read to its end, and its last character is a comma
  ghost predicate OpenComma(text: string) {
    NoNul(text, |text|) && text != "" && text[|text| - 1] == ','
  }

  // ---------- one character more ----------

  // What t has from pos on is in u from at on
  ghost predicate SameRest(t: string, pos: nat, u: string, at: nat) {
    pos <= |t| && at <= |u| && t[pos..] == u[at..]
  }

  lemma RestStep(t: string, pos: nat, u: string, at: nat)
    requires SameRest(t, pos, u, at)
    ensures pos == |t| <==> at == |u|
    ensures pos < |t| ==> t[pos] == u[at] && SameRest(t, pos + 1, u, at + 1)
  {
    if pos < |t| {
      assert t[pos..][0] == u[at..][0];
      assert t[pos + 1..] == t[pos..][1..];
      assert u[at + 1..] == u[at..][1..];
    }
  }

  // Reading depends on what is left of the text alone
  lemma {:induction false} SameItem(t: string, pos: nat, u: string, at: nat)
    requires SameRest(t, pos, u, at)
    ensures ItemAt(t, pos) == ItemAt(u, at) && StopAt(t, pos) - pos == StopAt(u, at) - at
    ensures SameRest(t, StopAt(t, pos), u, StopAt(u, at))
    decreases |t| - pos
  {
    RestStep(t, pos, u, at);
    if pos < |t| && !Ends(t[pos]) {
      SameItem(t, pos + 1, u, at + 1);
    }
  }

  lemma {:induction false} SameItems(t: string, pos: nat, u: string, at: nat)
    requires SameRest(t, pos, u, at)
    ensures ItemsFrom(t, pos) == ItemsFrom(u, at)
    decreases |t| - pos
  {
    hide ItemAt, StopAt, ItemsFrom, SameRest;
    SameItem(t, pos, u, at);
    ItemsStep(t, pos);
    ItemsStep(u, at);
    var stop, end := StopAt(t, pos), StopAt(u, at);
    RestStep(t, stop, u, end);
    if stop < |t| {
      RestStep(t, stop + 1, u, end + 1);
      if Another(t, stop) {
        SameItems(t, stop + 1, u, end + 1);
      }
    }
  }

  // White space within or around an item is not part of it
  lemma {:induction false} BlankInItem(a: string, c: char, b: string, pos: nat)
    requires c in WHITE && pos <= |a|
    ensures ItemAt(a + [c] + b, pos) == ItemAt(a + b, pos)
    ensures StopAt(a + b, pos) < |a| ==> StopAt(a + [c] + b, pos) == StopAt(a + b, pos)
    ensures StopAt(a + b, pos) >= |a| ==> StopAt(a + [c] + b, pos) == StopAt(a + b, pos) + 1
    decreases |a| - pos
  {
    hide ItemAt, StopAt, Ends, IsSpace;
    var t, u := a + b, a + [c] + b;
    SpaceIsWhite(c);
    ItemStep(u, pos);
    if pos == |a| {
      assert t[pos..] == b == u[pos + 1..];
      SameItem(t, pos, u, pos + 1);
      ItemsStep(t, pos);
      assert u[pos] == c;
    } else {
      assert t[pos] == a[pos] == u[pos];
      ItemStep(t, pos);
      if !Ends(t[pos]) {
        BlankInItem(a, c, b, pos + 1);
      }
    }
  }

  lemma {:induction false} NoEndBefore(text: string, pos: nat)
    requires pos <= |text|
    ensures pos <= StopAt(text, pos) <= |text| && forall i | pos <= i < StopAt(text, pos) :: !Ends(text[i])
    decreases |text| - pos
  {
    if pos < |text| && !Ends(text[pos]) {
      NoEndBefore(text, pos + 1);
    }
  }

  lemma OnlyBlank(text: string, pos: nat)
    requires pos + 1 == |text| && IsSpace(text[pos])
    ensures ItemsFrom(text, pos) == [""]
  {
    ItemStep(text, pos);
    ItemPastEnd(text);
  }

  // The item that the new character belongs to
  lemma BlankInLast(a: string, c: char, b: string, pos: nat)
    requires c in WHITE && pos <= |a| && StopAt(a + b, pos) >= |a|
    ensures ItemsFrom(a + [c] + b, pos) == ItemsFrom(a + b, pos)
    ensures pos < |a| ==> !OpenComma(a)
  {
    hide ItemAt, StopAt, ItemsFrom;
    var t, u := a + b, a + [c] + b;
    var stop := StopAt(t, pos);
    BlankInItem(a, c, b, pos);
    ItemsStep(t, pos);
    ItemsStep(u, pos);
    NoEndBefore(t, pos);
    if pos < |a| {
      assert t[|a| - 1] == a[|a| - 1];
    }
    if stop + 1 < |t| {
      assert t[stop + 1..] == b[stop + 1 - |a|..] == u[stop + 2..];
      SameItems(t, stop + 1, u, stop + 2);
    }
    assert stop < |t| ==> t[stop] == b[stop - |a|] == u[stop + 1];
  }

  // So it changes the items only after a comma at the very end, where it begins another, empty item
  lemma {:induction false} BlankInItems(a: string, c: char, b: string, pos: nat)
    requires c in WHITE && pos <= |a| && NoNul(a, pos)
    ensures ItemsFrom(a + [c] + b, pos) ==
            ItemsFrom(a + b, pos) + (if b == "" && OpenComma(a) && pos < |a| then [""] else [])
    decreases |a| - pos
  {
    hide ItemAt, StopAt, ItemsFrom, Items;
    var t, u := a + b, a + [c] + b;
    var stop := StopAt(t, pos);
    BlankInItem(a, c, b, pos);
    ItemsStep(t, pos);
    ItemsStep(u, pos);
    NoEndBefore(t, pos);
    if stop >= |a| {
      BlankInLast(a, c, b, pos);
    } else if a[stop] == ',' {
      assert NoNul(a, stop + 1) by {
        assert forall i | pos <= i < stop :: t[i] == a[i];
      }
      if stop + 1 == |a| {
        if b == "" {
          OnlyBlank(u, |a|);
        }
      }
      if b != "" || stop + 1 < |a| {
        BlankInItems(a, c, b, stop + 1);
      }
    }
  }

  // ---------- white space around a text ----------

  // Embedded white space: after a digit, before a character that is not white space, and not after a NUL
  ghost predicate Embedded(text: string, digit: char -> bool) {
    exists i: nat :: IsEmbedded(text, digit, i)
  }

  ghost predicate IsEmbedded(text: string, digit: char -> bool, i: nat) {
    && 0 < i < |text| && text[i - 1] in WHITE && text[i] !in WHITE && NoNul(text, i + 1)
    && exists d | 0 <= d < i :: digit(text[d])
  }

  lemma EmbeddedMeans(text: string, digit: char -> bool)
    ensures NoEmbedded(text, digit) <==> !Embedded(text, digit)
  {
    forall i: nat | i < |text|
      ensures IsSpace(text[i]) <==> text[i] in WHITE
      ensures i < VisibleFrom(text, 0) <==> NoNul(text, i + 1)
    {
      SpaceIsWhite(text[i]);
      VisibleMeans(text, i);
    }
    forall i: nat | i < |text| && NoNul(text, i + 1)
      ensures EmbeddedAt(text, digit, i) <==> IsEmbedded(text, digit, i)
    {
      if i > 0 {
        SpaceIsWhite(text[i - 1]);
      }
    }
  }

  lemma VisibleMeans(text: string, i: nat)
    requires i < |text|
    ensures i < VisibleFrom(text, 0) <==> NoNul(text, i + 1)
  {
    if NoNul(text, i + 1) {
      VisibleSkips(text, 0, i + 1);
    } else {
      VisibleStops(text, 0, i);
    }
  }

  lemma {:induction false} VisibleStops(text: string, pos: nat, i: nat)
    requires pos <= i < |text| && exists k | pos <= k <= i :: text[k] == NUL
    ensures VisibleFrom(text, pos) <= i
    decreases i - pos
  {
    if text[pos] != NUL {
      VisibleStops(text, pos + 1, i);
    }
  }

  // Both texts show the same at i and before, u after k more characters that are no digits and no NUL
  lemma EmbeddedAlike(text: string, u: string, k: nat, digit: char -> bool, i: nat)
    requires i < |text| && i + k < |u| && forall j | 0 <= j <= i :: text[j] == u[j + k]
    requires forall j | 0 <= j < k :: u[j] != NUL && !digit(u[j])
    ensures IsEmbedded(text, digit, i) <==> IsEmbedded(u, digit, i + k)
  {
    if IsEmbedded(text, digit, i) {
      var d :| 0 <= d < i && digit(text[d]);
      assert digit(u[d + k]);
      assert forall j | k <= j < i + k + 1 :: u[j] == text[j - k];
    }
    if IsEmbedded(u, digit, i + k) {
      var d :| 0 <= d < i + k && digit(u[d]);
      assert text[d - k] == u[d];
      assert forall j | 0 <= j < i + 1 :: text[j] == u[j + k];
    }
  }

  lemma BlankBefore(c: char, text: string, digit: char -> bool)
    requires c in WHITE && !digit(c)
    ensures Embedded([c] + text, digit) <==> Embedded(text, digit)
  {
    var u := [c] + text;
    forall i: nat | i < |text|
      ensures IsEmbedded(text, digit, i) <==> IsEmbedded(u, digit, i + 1)
    {
      EmbeddedAlike(text, u, 1, digit, i);
    }
    hide IsEmbedded;
    if Embedded(text, digit) {
      var i: nat :| IsEmbedded(text, digit, i);
      EmbeddedInside(text, digit, i);
    }
    if Embedded(u, digit) {
      var i: nat :| IsEmbedded(u, digit, i);
      EmbeddedInside(u, digit, i);
      assert IsEmbedded(text, digit, i - 1);
    }
  }

  lemma BlankAfter(text: string, c: char, digit: char -> bool)
    requires c in WHITE
    ensures Embedded(text + [c], digit) <==> Embedded(text, digit)
  {
    var u := text + [c];
    forall i: nat | i < |text|
      ensures IsEmbedded(text, digit, i) <==> IsEmbedded(u, digit, i)
    {
      EmbeddedAlike(text, u, 0, digit, i);
    }
    if Embedded(text, digit) {
      var i: nat :| IsEmbedded(text, digit, i);
      assert IsEmbedded(u, digit, i);
    }
    if Embedded(u, digit) {
      var i: nat :| IsEmbedded(u, digit, i);
      assert i < |text|;
    }
  }

  lemma EmbeddedInside(text: string, digit: char -> bool, i: nat)
    requires IsEmbedded(text, digit, i)
    ensures 0 < i < |text|
  {
  }

  lemma {:induction false} BlanksAfter(text: string, after: string, digit: char -> bool)
    requires Blank(after)
    ensures Items(text + after) == Items(text) + (if after != "" && OpenComma(text) then [""] else [])
    ensures Embedded(text + after, digit) <==> Embedded(text, digit)
    decreases |after|
  {
    hide Embedded, ItemsFrom;
    if after == "" {
      assert text + after == text;
    } else {
      var most, last := after[..|after| - 1], after[|after| - 1];
      var u := text + most;
      BlanksAfter(text, most, digit);
      assert u + [last] + "" == text + after == u + [last] && u + "" == u;
      assert OpenComma(u) <==> OpenComma(text) && most == "" by {
        assert most != "" ==> u[|u| - 1] == most[|most| - 1] && most[|most| - 1] in WHITE;
        assert most == "" ==> u == text;
      }
      BlankInItems(u, last, "", 0);
      BlankAfter(u, last, digit);
    }
  }

  lemma {:induction false} BlanksBefore(before: string, text: string, digit: char -> bool)
    requires Blank(before) && forall c | c in WHITE :: !digit(c)
    ensures Items(before + text) == Items(text)
    ensures Embedded(before + text, digit) <==> Embedded(text, digit)
    decreases |before|
  {
    hide Embedded, ItemsFrom;
    if before == "" {
      assert before + text == text;
    } else {
      var first, rest := before[0], before[1..];
      BlanksBefore(rest, text, digit);
      assert "" + [first] + (rest + text) == before + text == [first] + (rest + text);
      assert "" + (rest + text) == rest + text;
      BlankInItems("", first, rest + text, 0);
      BlankBefore(first, rest + text, digit);
    }
  }

  // White space around a text changes neither its items nor whether they are clean, but for an open comma
  lemma BlanksAround(before: string, text: string, after: string, digit: char -> bool)
    requires Blank(before) && Blank(after) && forall c | c in WHITE :: !digit(c)
    ensures Items(before + text + after) == Items(text) + (if after != "" && OpenComma(text) then [""] else [])
    ensures NoEmbedded(before + text + after, digit) <==> NoEmbedded(text, digit)
  {
    hide Embedded, ItemsFrom, NoEmbedded, OpenComma;
    BlanksAfter(text, after, digit);
    BlanksBefore(before, text + after, digit);
    assert before + (text + after) == before + text + after;
    EmbeddedMeans(before + text + after, digit);
    EmbeddedMeans(text, digit);
  }

  // ---------- separators ----------

  // The first item of a text, if it has no white space, and what a comma or a NUL after it means
  lemma FirstItem(item: string, rest: string)
    requires Plain(item)
    ensures Items(item) == [item]
    ensures Items(item + "," + rest) == [item] + (if rest == "" then [] else Items(rest))
    ensures Items(item + [NUL] + rest) == [item]
  {
    hide ItemAt, StopAt, ItemsFrom;
    var n := |item|;
    PlainItem(item, 0, item);
    ItemsStep(item, 0);
    var t, u := item + "," + rest, item + [NUL] + rest;
    assert t[0..n] == item == u[0..n] && t[n] == ',' && u[n] == NUL;
    PlainItem(t, 0, item);
    ItemsStep(t, 0);
    PlainItem(u, 0, item);
    ItemsStep(u, 0);
    if rest != "" {
      assert t[n + 1..] == rest == rest[0..];
      SameItems(t, n + 1, rest, 0);
    }
  }

  // A digit, white space and another character make a text unacceptable wherever it has them
  lemma BlankAfterDigit(a: string, d: char, c: char, x: char, b: string, digit: char -> bool)
    requires NoNul(a, |a|) && d != NUL && digit(d) && c in WHITE && x !in WHITE && x != NUL
    ensures !NoEmbedded(a + [d] + [c] + [x] + b, digit)
  {
    var text := a + [d] + [c] + [x] + b;
    var i := |a| + 2;
    assert digit(text[i - 2]) && text[i - 1] == c && text[i] == x;
    assert NoNul(text, i + 1);
    assert IsEmbedded(text, digit, i);
    EmbeddedMeans(text, digit);
  }
}
