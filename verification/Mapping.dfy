/**
  The weight of a bitmap, and the functions of bitmap.c that map bits by ordinal.
 */
module Mapping {
  import opened Words
  import opened Hweight
  import opened Bitops
  import opened Ordinals
  import opened Powers

  // ---------- weight ----------

  // The bits of the words before the kth
  lemma {:induction false} CountWord(s: seq<Word>, n: nat, k: nat, len: nat, w: Word)
    requires k < |s| && 64 * k + len <= n && len <= 64
    requires forall j: nat | j < len :: Bit(w, j) == At(s, 64 * k + j)
    ensures CountBelow(Bits(s, n), 64 * k + len) == CountBelow(Bits(s, n), 64 * k) + Count(w, 0, len)
  {
    hide Bit, At;
    if len == 0 {
    } else {
      CountWord(s, n, k, len - 1, w);
      assert Bit(w, len - 1) == At(s, 64 * k + (len - 1));
    }
  }

  // __bitmap_weight
  method BitmapWeight(bitmap: array<Word>, bits: nat) returns (w: nat)
    requires Longs(bits) <= bitmap.Length
    ensures w == |Bits(bitmap[..], bits)|
  {
    hide Bit, At, HWeight64, Num, LowMask, Count;
    ghost var s := bitmap[..];
    var lim := bits / 64;
    w := 0;
    for k := 0 to lim
      invariant w == CountBelow(Bits(s, bits), 64 * k)
    {
      FullWordCount(s, bits, k);
      w := w + Num(HWeight64(bitmap[k]));
    }
    if bits % 64 != 0 {
      var last := bitmap[lim] & LowMask(bits % 64);
      LastWordCount(s, bits, last);
      w := w + Num(HWeight64(last));
    }
    CountIsCardinality(Bits(s, bits), bits);
  }

  lemma FullWordCount(s: seq<Word>, n: nat, k: nat)
    requires k < |s| && 64 * k + 64 <= n
    ensures CountBelow(Bits(s, n), 64 * (k + 1)) == CountBelow(Bits(s, n), 64 * k) + Num(HWeight64(s[k]))
  {
    hide Bit, At, HWeight64, Num;
    forall j: nat | j < 64
      ensures Bit(s[k], j) == At(s, 64 * k + j)
    {
      AtWord(s, k, j);
    }
    CountWord(s, n, k, 64, s[k]);
    HWeight64IsCount(s[k]);
  }

  lemma LastWordCount(s: seq<Word>, n: nat, last: Word)
    requires n / 64 < |s| && n % 64 != 0 && last == s[n / 64] & LowMask(n % 64)
    ensures CountBelow(Bits(s, n), n) == CountBelow(Bits(s, n), 64 * (n / 64)) + Num(HWeight64(last))
  {
    hide Bit, At, HWeight64, Num, LowMask;
    var k, left := n / 64, n % 64;
    forall j: nat | j < 64
      ensures Bit(last, j) == (j < left && At(s, 64 * k + j))
    {
      AtWord(s, k, j);
      LowIs(last, s[k], left, j);
    }
    CountWord(s, n, k, left, last);
    NoneCounted(last, left, 64 - left);
    CountSplit(last, 0, left, 64 - left);
    HWeight64IsCount(last);
  }

  // ---------- position and ordinal ----------

  // bitmap_pos_to_ord
  method PosToOrd(buf: array<Word>, pos: int, bits: nat) returns (ord: int)
    requires Longs(bits) <= buf.Length
    ensures ord == Ordinal(Bits(buf[..], bits), pos)
  {
    hide At;
    ghost var s := Bits(buf[..], bits);
    if pos < 0 || pos >= bits {
      return -1;
    }
    var isSet := TestBit(pos, buf);
    if !isSet {
      return -1;
    }
    var i := FindFirstBit(buf, bits);
    CountSkips(s, 0, i);
    ord := 0;
    while i < pos
      invariant i <= pos && i in s && ord == CountBelow(s, i)
      decreases pos - i
    {
      var next := FindNextBit(buf, bits, i + 1);
      CountSkips(s, i + 1, next);
      i := next;
      ord := ord + 1;
    }
  }

  // bitmap_ord_to_pos
  method OrdToPos(buf: array<Word>, ord: int, bits: nat) returns (pos: nat)
    requires Longs(bits) <= buf.Length
    ensures pos == Position(Bits(buf[..], bits), ord)
  {
    hide At;
    ghost var s := Bits(buf[..], bits);
    CountIsCardinality(s, bits);
    CountBound(s, bits);
    pos := 0;
    if 0 <= ord < bits {
      var todo := ord;
      var i := FindFirstBit(buf, bits);
      CountSkips(s, 0, i);
      while i < bits && todo > 0
        invariant i <= bits && 0 <= todo <= ord && CountBelow(s, i) == ord - todo
        invariant i < bits ==> i in s
        decreases bits - i
      {
        todo := todo - 1;
        var next := FindNextBit(buf, bits, i + 1);
        CountSkips(s, i + 1, next);
        i := next;
      }
      if i < bits && todo == 0 {
        pos := i;
        CountMonotone(s, i, bits);
        NthUnique(s, i, Position(s, ord));
      }
    }
  }

  // ---------- remap ----------

  // Where bit b goes when the nth bit of old goes to the (n mod w)th bit of new
  ghost function RemapBit(oldMap: set<nat>, newMap: set<nat>, b: nat): nat {
    var n := Ordinal(oldMap, b);
    if n < 0 || |newMap| == 0 then b else Position(newMap, n % |newMap|)
  }

  ghost function Remapped(src: set<nat>, oldMap: set<nat>, newMap: set<nat>): set<nat> {
    set b | b in src :: RemapBit(oldMap, newMap, b)
  }

  lemma RemappedAdd(src: set<nat>, b: nat, oldMap: set<nat>, newMap: set<nat>)
    ensures Remapped(src + {b}, oldMap, newMap) == Remapped(src, oldMap, newMap) + {RemapBit(oldMap, newMap, b)}
    ensures Remapped({}, oldMap, newMap) == {}
  {
    hide RemapBit;
  }

  lemma RemapBitValid(oldMap: set<nat>, newMap: set<nat>, n: nat, b: nat)
    requires b < n && Below(newMap, n)
    ensures RemapBit(oldMap, newMap, b) < n
  {
    var k := Ordinal(oldMap, b);
    if k >= 0 && |newMap| > 0 {
      assert Position(newMap, k % |newMap|) in newMap;
    }
  }

  // bitmap_bitremap
  method BitmapBitRemap(oldbit: nat, oldMap: array<Word>, newMap: array<Word>, bits: nat) returns (newbit: nat)
    requires Longs(bits) <= oldMap.Length && Longs(bits) <= newMap.Length
    ensures newbit == RemapBit(Bits(oldMap[..], bits), Bits(newMap[..], bits), oldbit)
  {
    var w := BitmapWeight(newMap, bits);
    var n := PosToOrd(oldMap, oldbit, bits);
    if n < 0 || w == 0 {
      return oldbit;
    }
    newbit := OrdToPos(newMap, n % w, bits);
  }

  // A bit outside the old map stays where it is, and so does every bit if the new map is empty
  lemma RemapBitStays(oldMap: set<nat>, newMap: set<nat>, b: nat)
    requires b !in oldMap || newMap == {}
    ensures RemapBit(oldMap, newMap, b) == b
  {
  }

  // Any other bit wraps around the new map: it goes to a bit of it, found by the remainder of its ordinal
  lemma RemapBitWraps(oldMap: set<nat>, newMap: set<nat>, b: nat)
    requires newMap != {} && b in oldMap
    ensures RemapBit(oldMap, newMap, b) in newMap
    ensures Ordinal(newMap, RemapBit(oldMap, newMap, b)) == Ordinal(oldMap, b) % |newMap|
  {
    PositionOfOrdinal(oldMap, b);
    OrdinalOfPosition(newMap, Ordinal(oldMap, b) % |newMap|);
  }

  // So no other bits than those of the new map are set
  lemma RemapIntoNew(src: set<nat>, oldMap: set<nat>, newMap: set<nat>)
    requires newMap != {} && src <= oldMap
    ensures Remapped(src, oldMap, newMap) <= newMap
  {
    hide RemapBit;
    forall b | b in src
      ensures RemapBit(oldMap, newMap, b) in newMap
    {
      RemapBitWraps(oldMap, newMap, b);
    }
  }

  // And each of them exactly when a bit of the source has its ordinal, up to the weight of the new map
  lemma RemapMembers(src: set<nat>, oldMap: set<nat>, newMap: set<nat>, m: nat)
    requires newMap != {} && src <= oldMap && m in newMap
    ensures m in Remapped(src, oldMap, newMap) <==>
            exists b :: b in src && Ordinal(oldMap, b) % |newMap| == Ordinal(newMap, m)
  {
    hide RemapBit, Ordinal;
    forall b | b in src
      ensures RemapBit(oldMap, newMap, b) == m <==> Ordinal(oldMap, b) % |newMap| == Ordinal(newMap, m)
    {
      RemapBitWraps(oldMap, newMap, b);
      PositionOfOrdinal(newMap, m);
      PositionOfOrdinal(newMap, RemapBit(oldMap, newMap, b));
    }
  }

  lemma RemapIdentity(src: set<nat>, oldMap: set<nat>, newMap: set<nat>)
    requires oldMap == {} || newMap == {}
    ensures Remapped(src, oldMap, newMap) == src
  {
    hide RemapBit;
    forall b | b in src
      ensures RemapBit(oldMap, newMap, b) == b
    {
      RemapBitStays(oldMap, newMap, b);
    }
  }

  // bitmap_remap; in place it leaves its argument alone, and a map that is the destination counts as empty
  method BitmapRemap(dst: array<Word>, src: array<Word>, oldMap: array<Word>, newMap: array<Word>, bits: nat)
    requires Longs(bits) <= dst.Length && Longs(bits) <= src.Length
    requires Longs(bits) <= oldMap.Length && Longs(bits) <= newMap.Length
    modifies dst
    ensures dst == src ==> dst[..] == old(dst[..])
    ensures dst != src ==>
      var o := if dst == oldMap then {} else Bits(oldMap[..], bits);
      var n := if dst == newMap then {} else Bits(newMap[..], bits);
      Bits(dst[..], bits) == Remapped(Bits(src[..], bits), o, n)
  {
    hide At, RemapBit, Remapped;
    if dst == src {
      return;
    }
    BitmapZero(dst, bits);
    ghost var s, o, n := Bits(src[..], bits), Bits(oldMap[..], bits), Bits(newMap[..], bits);
    RemappedAdd({}, 0, o, n);
    var w := BitmapWeight(newMap, bits);
    var oldbit := FindFirstBit(src, bits);
    assert Prefix(s, oldbit) == {};
    while oldbit < bits
      invariant oldbit <= bits && (oldbit < bits ==> oldbit in s)
      invariant Bits(dst[..], bits) == Remapped(Prefix(s, oldbit), o, n)
      decreases bits - oldbit
    {
      if o == {} || n == {} {
        RemapIdentity(Prefix(s, oldbit), o, n);
        RemapBitStays(o, n, oldbit);
        if dst == oldMap {
          RemapBitStays(Bits(oldMap[..], bits), Bits(newMap[..], bits), oldbit);
        }
      }
      var newbit := RemapOne(oldbit, oldMap, newMap, w, bits);
      ghost var before := dst[..];
      SetBit(newbit, dst);
      AddedBit(before, dst[..], bits, newbit);
      var next := FindNextBit(src, bits, oldbit + 1);
      RemappedAdd(Prefix(s, oldbit), oldbit, o, n);
      assert Prefix(s, next) == Prefix(s, oldbit) + {oldbit};
      oldbit := next;
    }
    assert Prefix(s, oldbit) == s;
  }

  // The loop body of bitmap_remap: the bit to set in dst
  method RemapOne(oldbit: nat, oldMap: array<Word>, newMap: array<Word>, w: nat, bits: nat) returns (newbit: nat)
    requires Longs(bits) <= oldMap.Length && Longs(bits) <= newMap.Length
    requires oldbit < bits && (w == |Bits(newMap[..], bits)| || w == 0)
    ensures newbit < bits
    ensures if w == 0 then newbit == oldbit
            else newbit == RemapBit(Bits(oldMap[..], bits), Bits(newMap[..], bits), oldbit)
  {
    var n := PosToOrd(oldMap, oldbit, bits);
    RemapBitValid(Bits(oldMap[..], bits), Bits(newMap[..], bits), bits, oldbit);
    if n < 0 || w == 0 {
      return oldbit;
    }
    newbit := OrdToPos(newMap, n % w, bits);
  }

  // Between sets of the same weight, a bit of old goes to the bit of new with its ordinal
  lemma RemapBitBack(oldMap: set<nat>, newMap: set<nat>, b: nat)
    requires |oldMap| == |newMap| && b in oldMap
    ensures RemapBit(oldMap, newMap, b) in newMap
    ensures Ordinal(newMap, RemapBit(oldMap, newMap, b)) == Ordinal(oldMap, b)
    ensures RemapBit(newMap, oldMap, RemapBit(oldMap, newMap, b)) == b
  {
    PositionOfOrdinal(oldMap, b);
    assert Ordinal(oldMap, b) % |newMap| == Ordinal(oldMap, b);
  }

  // Remapping from old to new and back restores every subset of old
  lemma RemapRoundTrip(src: set<nat>, oldMap: set<nat>, newMap: set<nat>)
    requires |oldMap| == |newMap| && src <= oldMap
    ensures Remapped(Remapped(src, oldMap, newMap), newMap, oldMap) == src
    ensures Remapped(src, oldMap, newMap) <= newMap
  {
    hide RemapBit;
    forall b | b in src
      ensures RemapBit(oldMap, newMap, b) in newMap && RemapBit(newMap, oldMap, RemapBit(oldMap, newMap, b)) == b
    {
      RemapBitBack(oldMap, newMap, b);
    }
    forall b | b in src
      ensures b in Remapped(Remapped(src, oldMap, newMap), newMap, oldMap)
    {
      assert RemapBit(oldMap, newMap, b) in Remapped(src, oldMap, newMap);
    }
  }

  // and keeps the weight
  lemma RemapWeight(src: set<nat>, oldMap: set<nat>, newMap: set<nat>)
    requires |oldMap| == |newMap| && src <= oldMap
    ensures |Remapped(src, oldMap, newMap)| == |src|
    decreases |src|
  {
    hide RemapBit;
    if src != {} {
      var b :| b in src;
      var rest := src - {b};
      RemapWeight(rest, oldMap, newMap);
      assert Remapped(src, oldMap, newMap) == Remapped(rest, oldMap, newMap) + {RemapBit(oldMap, newMap, b)};
      RemapBitBack(oldMap, newMap, b);
      if RemapBit(oldMap, newMap, b) in Remapped(rest, oldMap, newMap) {
        var c :| c in rest && RemapBit(oldMap, newMap, c) == RemapBit(oldMap, newMap, b);
        RemapBitBack(oldMap, newMap, c);
        assert false;
      }
    }
  }

  // ---------- onto and fold ----------

  // The bits n of relmap whose ordinal in relmap is in orig
  ghost function Onto(orig: set<nat>, relmap: set<nat>): set<nat> {
    set n | n in relmap && CountBelow(relmap, n) in orig
  }

  ghost function Folded(orig: set<nat>, sz: nat): set<nat>
    requires sz > 0
  {
    set b | b in orig :: b % sz
  }

  // bitmap_onto; in place it leaves its argument alone
  method BitmapOnto(dst: array<Word>, orig: array<Word>, relmap: array<Word>, bits: nat)
    requires Longs(bits) <= dst.Length && Longs(bits) <= orig.Length && Longs(bits) <= relmap.Length
    modifies dst
    ensures dst == orig ==> dst[..] == old(dst[..])
    ensures dst != orig ==>
      Bits(dst[..], bits) == Onto(Bits(orig[..], bits), if dst == relmap then {} else Bits(relmap[..], bits))
  {
    hide At;
    if dst == orig {
      return;
    }
    BitmapZero(dst, bits);
    ghost var o, rel := Bits(orig[..], bits), Bits(relmap[..], bits);
    var m := 0;
    var n := FindFirstBit(relmap, bits);
    CountSkips(rel, 0, n);
    while n < bits
      invariant n <= bits && (n < bits ==> n in rel) && m == CountBelow(rel, n)
      invariant Bits(dst[..], bits) == Prefix(Onto(o, rel), n)
      decreases bits - n
    {
      CountBound(rel, n);
      var isSet := TestBit(m, orig);
      if isSet {
        ghost var before := dst[..];
        SetBit(n, dst);
        AddedBit(before, dst[..], bits, n);
      }
      m := m + 1;
      var next := FindNextBit(relmap, bits, n + 1);
      CountSkips(rel, n + 1, next);
      assert Prefix(Onto(o, rel), next) == Prefix(Onto(o, rel), n) + (if n in Onto(o, rel) then {n} else {});
      n := next;
    }
    assert Prefix(Onto(o, rel), n) == Onto(o, rel);
  }

  // bitmap_fold; in place it leaves its argument alone
  method BitmapFold(dst: array<Word>, orig: array<Word>, sz: nat, bits: nat)
    requires Longs(bits) <= dst.Length && Longs(bits) <= orig.Length
    requires sz > 0
    modifies dst
    ensures dst == orig ==> dst[..] == old(dst[..])
    ensures dst != orig ==> Bits(dst[..], bits) == Folded(Bits(orig[..], bits), sz)
  {
    hide At, Folded;
    if dst == orig {
      return;
    }
    BitmapZero(dst, bits);
    ghost var o := Bits(orig[..], bits);
    FoldedAdd({}, 0, sz);
    var oldbit := FindFirstBit(orig, bits);
    assert Prefix(o, oldbit) == {};
    while oldbit < bits
      invariant oldbit <= bits && (oldbit < bits ==> oldbit in o)
      invariant Bits(dst[..], bits) == Folded(Prefix(o, oldbit), sz)
      decreases bits - oldbit
    {
      RemainderBound(oldbit, sz);
      ghost var before := dst[..];
      SetBit(oldbit % sz, dst);
      AddedBit(before, dst[..], bits, oldbit % sz);
      FoldedAdd(Prefix(o, oldbit), oldbit, sz);
      var next := FindNextBit(orig, bits, oldbit + 1);
      assert Prefix(o, next) == Prefix(o, oldbit) + {oldbit};
      oldbit := next;
    }
    assert Prefix(o, oldbit) == o;
  }

  // Bit m of the folded bitmap is set exactly when a bit at a whole multiple of the size above it is
  lemma FoldedMembers(orig: set<nat>, sz: nat, m: nat)
    requires sz > 0
    ensures m in Folded(orig, sz) <==> m < sz && exists k: nat :: m + k * sz in orig
  {
    if m < sz && exists k: nat :: m + k * sz in orig {
      var k: nat :| m + k * sz in orig;
      QuotientAndRemainder(m + k * sz, sz, k, m);
    }
    if m in Folded(orig, sz) {
      var b :| b in orig && b % sz == m;
      assert b == m + (b / sz) * sz;
      assert b / sz >= 0;
    }
  }

  lemma FoldedAdd(orig: set<nat>, b: nat, sz: nat)
    requires sz > 0
    ensures Folded(orig + {b}, sz) == Folded(orig, sz) + {b % sz}
    ensures Folded({}, sz) == {}
  {
  }

  lemma RemainderBound(b: nat, sz: nat)
    requires sz > 0
    ensures b % sz <= b
  {
  }

  // The definition the single pass replaces: go through the ordinals
  lemma OntoByOrdinals(orig: set<nat>, relmap: set<nat>)
    ensures Onto(orig, relmap) == set m | m in orig && m < |relmap| :: Position(relmap, m)
  {
    var byOrdinals := set m | m in orig && m < |relmap| :: Position(relmap, m);
    forall n | n in Onto(orig, relmap)
      ensures n in byOrdinals
    {
      PositionOfOrdinal(relmap, n);
    }
  }

  // onto keeps the weight of an orig that lies below the weight of relmap
  lemma OntoWeight(orig: set<nat>, relmap: set<nat>)
    requires Below(orig, |relmap|)
    ensures |Onto(orig, relmap)| == |orig|
    decreases |orig|
  {
    if orig == {} {
      assert Onto(orig, relmap) == {};
    } else {
      var m :| m in orig;
      var rest := orig - {m};
      var p := Position(relmap, m);
      OntoWeight(rest, relmap);
      forall n | n in Onto(orig, relmap)
        ensures n in Onto(rest, relmap) + {p}
      {
        if CountBelow(relmap, n) == m {
          NthUnique(relmap, n, p);
        }
      }
      assert Onto(orig, relmap) == Onto(rest, relmap) + {p};
      assert p !in Onto(rest, relmap);
    }
  }

  // Folding first loses no bit to positions beyond relmap
  lemma FoldThenOnto(orig: set<nat>, relmap: set<nat>)
    requires relmap != {}
    ensures |Onto(Folded(orig, |relmap|), relmap)| == |Folded(orig, |relmap|)|
    ensures Onto(Folded(orig, |relmap|), relmap) == {} <==> orig == {}
  {
    var folded := Folded(orig, |relmap|);
    OntoWeight(folded, relmap);
    if orig != {} {
      var b :| b in orig;
      assert b % |relmap| in folded;
    }
  }
}
