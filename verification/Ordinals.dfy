/**
  Sets of bit numbers: how many elements lie below a position, and which position
  an ordinal has. These are what the ordinal functions of bitmap.c compute.
 */
module Ordinals {

  // The number of elements of s below p
  ghost function CountBelow(s: set<nat>, p: nat): nat {
    if p == 0 then 0 else CountBelow(s, p - 1) + (if p - 1 in s then 1 else 0)
  }

  ghost predicate Below(s: set<nat>, n: nat) {
    forall i | i in s :: i < n
  }

  // The elements of s below n
  function Prefix(s: set<nat>, n: nat): set<nat> {
    set i | i in s && i < n
  }

  lemma {:induction false} CountMonotone(s: set<nat>, p: nat, q: nat)
    requires p <= q
    ensures CountBelow(s, p) <= CountBelow(s, q)
    ensures p < q && p in s ==> CountBelow(s, p) < CountBelow(s, q)
  {
    if p >= q {
    } else {
      CountMonotone(s, p, q - 1);
    }
  }

  // Counting all of s gives its cardinality
  lemma {:induction false} CountIsCardinality(s: set<nat>, n: nat)
    requires Below(s, n)
    ensures CountBelow(s, n) == |s|
  {
    if n == 0 {
      assert s == {};
    } else {
      var t := s - {n - 1};
      CountIsCardinality(t, n - 1);
      CountAgrees(s, t, n - 1);
    }
  }

  lemma {:induction false} CountAgrees(s: set<nat>, t: set<nat>, p: nat)
    requires forall i: nat | i < p :: i in s <==> i in t
    ensures CountBelow(s, p) == CountBelow(t, p)
  {
    if p == 0 {
    } else {
      CountAgrees(s, t, p - 1);
    }
  }

  // An interval without elements does not change the count
  lemma {:induction false} CountSkips(s: set<nat>, p: nat, q: nat)
    requires p <= q && forall i | p <= i < q :: i !in s
    ensures CountBelow(s, p) == CountBelow(s, q)
  {
    if p >= q {
    } else {
      CountSkips(s, p, q - 1);
    }
  }

  lemma {:induction false} CountBound(s: set<nat>, p: nat)
    ensures CountBelow(s, p) <= p
  {
    if p == 0 {
    } else {
      CountBound(s, p - 1);
    }
  }

  // Every ordinal below the count is the ordinal of an element
  lemma {:induction false} NthExists(s: set<nat>, n: nat, k: nat) returns (p: nat)
    requires k < CountBelow(s, n)
    ensures p < n && p in s && CountBelow(s, p) == k
  {
    if n - 1 in s && CountBelow(s, n - 1) == k {
      p := n - 1;
    } else {
      p := NthExists(s, n - 1, k);
    }
  }

  lemma NthUnique(s: set<nat>, p: nat, q: nat)
    requires p in s && q in s && CountBelow(s, p) == CountBelow(s, q)
    ensures p == q
  {
    if p < q {
      CountMonotone(s, p, q);
    } else if q < p {
      CountMonotone(s, q, p);
    }
  }

  // The ordinal of pos in s, or -1 (bitmap_pos_to_ord)
  ghost function Ordinal(s: set<nat>, pos: int): int {
    if pos >= 0 && pos in s then CountBelow(s, pos) else -1
  }

  // The element of s with ordinal ord, or 0 (bitmap_ord_to_pos)
  ghost function Position(s: set<nat>, ord: int): (p: nat)
    ensures 0 <= ord < |s| ==> p in s && CountBelow(s, p) == ord
    ensures !(0 <= ord < |s|) ==> p == 0
  {
    if 0 <= ord < |s| then
      NthOfSet(s, ord);
      var p :| p in s && CountBelow(s, p) == ord;
      p
    else 0
  }

  lemma NthOfSet(s: set<nat>, ord: nat)
    requires ord < |s|
    ensures exists p :: p in s && CountBelow(s, p) == ord
  {
    var n := Bound(s);
    CountIsCardinality(s, n);
    var p := NthExists(s, n, ord);
  }

  lemma {:induction false} Bound(s: set<nat>) returns (n: nat)
    ensures Below(s, n)
  {
    if s == {} {
      n := 0;
    } else {
      var i :| i in s;
      var m := Bound(s - {i});
      n := if m > i then m else i + 1;
      forall j | j in s
        ensures j < n
      {
        assert j == i || j in s - {i};
      }
    }
  }

  // ---------- positions and ordinals ----------

  // Ordinal maps s onto 0..|s| and Position is its inverse
  lemma PositionOfOrdinal(s: set<nat>, pos: nat)
    requires pos in s
    ensures 0 <= Ordinal(s, pos) < |s| && Position(s, Ordinal(s, pos)) == pos
  {
    var n := Bound(s);
    CountIsCardinality(s, n);
    CountMonotone(s, pos, n);
    NthUnique(s, pos, Position(s, Ordinal(s, pos)));
  }

  // Exactly the members of s have an ordinal
  lemma OrdinalOutside(s: set<nat>, pos: int)
    ensures Ordinal(s, pos) == -1 <==> pos < 0 || pos !in s
  {
    hide CountBelow;
  }

  lemma OrdinalOfPosition(s: set<nat>, ord: int)
    requires 0 <= ord < |s|
    ensures Position(s, ord) in s && Ordinal(s, Position(s, ord)) == ord
  {
  }

  lemma OrdinalIncreasing(s: set<nat>, p: nat, q: nat)
    requires p in s && q in s
    ensures p < q <==> Ordinal(s, p) < Ordinal(s, q)
  {
    if p < q {
      CountMonotone(s, p, q);
    } else {
      CountMonotone(s, q, p);
    }
  }

  lemma PositionIncreasing(s: set<nat>, j: int, k: int)
    requires 0 <= j < |s| && 0 <= k < |s|
    ensures j < k <==> Position(s, j) < Position(s, k)
  {
    OrdinalIncreasing(s, Position(s, j), Position(s, k));
  }
}
