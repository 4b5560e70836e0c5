/**
  The three callers of __reg_op, and every run of them from an empty bitmap.
 */
module RegionAllocator {
  import opened Errors
  import opened Words
  import opened Bitops
  import opened Powers
  import opened Regions

  datatype Region = Region(pos: nat, order: nat)

  ghost function Span(r: Region): set<nat> {
    set i: nat | i < r.pos + Size(r.order) && Within(r.pos, r.order, i)
  }

  ghost predicate Fits(n: nat, r: Region) {
    Aligned(r.pos, r.order) && r.pos + Size(r.order) <= n
  }

  ghost predicate Free(n: nat, used: set<nat>, r: Region) {
    Fits(n, r) && Span(r) !! used
  }

  // ---------- one call ----------

  // ret is the start of the lowest free region of this order, now in use, or -ENOMEM if there is none
  ghost predicate FindStep(n: nat, used: set<nat>, order: nat, ret: int, used': set<nat>) {
    if ret >= 0 then
      && Free(n, used, Region(ret, order))
      && (forall p: nat | p < ret :: !Free(n, used, Region(p, order)))
      && used' == used + Span(Region(ret, order))
    else
      && ret == -ENOMEM
      && (forall p: nat :: !Free(n, used, Region(p, order)))
      && used' == used
  }

  ghost predicate AllocateStep(n: nat, used: set<nat>, r: Region, ret: int, used': set<nat>) {
    if Free(n, used, r) then ret == 0 && used' == used + Span(r)
    else ret == -EBUSY && used' == used
  }

  ghost predicate ReleaseStep(used: set<nat>, r: Region, used': set<nat>) {
    used' == used - Span(r)
  }

  // From the words to the sets
  lemma FreeMeansRegionFree(s: seq<Word>, n: nat, r: Region)
    requires Fits(n, r)
    ensures RegionFree(s, r.pos, r.order) <==> Free(n, Bits(s, n), r)
  {
    hide At, Size, Aligned, Touched, Straight;
    AlignedIsStraight(r.pos, r.order);
    ActsOnRegion(r.pos, r.order);
    if RegionFree(s, r.pos, r.order) {
      forall i | i in Span(r)
        ensures i !in Bits(s, n)
      {
        assert Touched(r.pos, r.order, i);
      }
    } else {
      var i: nat :| Touched(r.pos, r.order, i) && At(s, i);
      assert i in Span(r) && i in Bits(s, n);
    }
  }

  lemma FilledSpan(s: seq<Word>, t: seq<Word>, n: nat, r: Region)
    requires Fits(n, r) && forall i: nat :: At(t, i) == (At(s, i) || Touched(r.pos, r.order, i))
    ensures Bits(t, n) == Bits(s, n) + Span(r)
  {
    hide At, Size, Aligned, Touched, Straight;
    AlignedIsStraight(r.pos, r.order);
    ActsOnRegion(r.pos, r.order);
  }

  lemma ClearedSpan(s: seq<Word>, t: seq<Word>, n: nat, r: Region)
    requires Fits(n, r) && forall i: nat :: At(t, i) == (At(s, i) && !Touched(r.pos, r.order, i))
    ensures Bits(t, n) == Bits(s, n) - Span(r)
  {
    hide At, Size, Aligned, Touched, Straight;
    AlignedIsStraight(r.pos, r.order);
    ActsOnRegion(r.pos, r.order);
  }

  lemma NextMultiple(p: nat, pos: nat, order: nat)
    requires Aligned(p, order) && Aligned(pos, order) && p < pos + Size(order)
    ensures p <= pos
  {
    hide Size;
    var d := Size(order);
    MultiplesApart(d, p / d, pos / d);
  }

  lemma MultiplesApart(d: nat, j: nat, k: nat)
    requires d * j < d * k + d
    ensures d * j <= d * k
  {
    if j > k {
      MulMonotone(d, k + 1, j);
    }
    MulMonotone(d, j, if j <= k then k else j);
  }

  lemma AlignedStep(pos: nat, order: nat)
    requires Aligned(pos, order)
    ensures Aligned(pos + Size(order), order)
  {
    hide Size;
    var d := Size(order);
    assert pos + d == d * (pos / d + 1);
    QuotientAndRemainder(pos + d, d, pos / d + 1, 0);
  }

  // bitmap_find_free_region
  method FindFreeRegion(bitmap: array<Word>, bits: nat, order: nat) returns (ret: int)
    requires Longs(bits) <= bitmap.Length
    modifies bitmap
    ensures FindStep(bits, Bits(old(bitmap[..]), bits), order, ret, Bits(bitmap[..], bits))
    ensures ret < 0 ==> bitmap[..] == old(bitmap[..])
  {
    hide At, Size, Aligned, Touched, RegionFree;
    ghost var s := bitmap[..];
    var pos := 0;
    AlignedZero(order);
    while pos + Size(order) <= bits
      invariant Aligned(pos, order) && bitmap[..] == s
      invariant forall p: nat | p < pos :: !Free(bits, Bits(s, bits), Region(p, order))
      decreases bits - pos
    {
      RegionInArray(bits, Region(pos, order));
      FreeMeansRegionFree(s, bits, Region(pos, order));
      var free := ApplyRegOp(bitmap, pos, order, IsFree);
      if free == 0 {
        SkipRegion(bits, Bits(s, bits), pos, order);
        AlignedStep(pos, order);
        pos := pos + Size(order);
      } else {
        var _ := ApplyRegOp(bitmap, pos, order, Alloc);
        FilledSpan(s, bitmap[..], bits, Region(pos, order));
        return pos;
      }
    }
    NoRegionLeft(bits, Bits(s, bits), pos, order);
    ret := -ENOMEM;
  }

  lemma AlignedZero(order: nat)
    ensures Aligned(0, order)
  {
    hide Size;
  }

  lemma RegionInArray(n: nat, r: Region)
    requires Fits(n, r)
    ensures r.pos / 64 + Longs(Size(r.order)) <= Longs(n)
  {
    hide Size;
    Shape(r.pos, r.order);
  }

  lemma SkipRegion(n: nat, used: set<nat>, pos: nat, order: nat)
    requires Aligned(pos, order) && !Free(n, used, Region(pos, order))
    requires forall p: nat | p < pos :: !Free(n, used, Region(p, order))
    ensures forall p: nat | p < pos + Size(order) :: !Free(n, used, Region(p, order))
  {
    hide Size, Aligned;
    forall p: nat | p < pos + Size(order) && Free(n, used, Region(p, order))
      ensures false
    {
      NextMultiple(p, pos, order);
    }
  }

  lemma NoRegionLeft(n: nat, used: set<nat>, pos: nat, order: nat)
    requires pos + Size(order) > n
    requires forall p: nat | p < pos :: !Free(n, used, Region(p, order))
    ensures forall p: nat :: !Free(n, used, Region(p, order))
  {
    hide Size, Aligned;
  }

  // bitmap_allocate_region, for any position; on an aligned region within n bits it is the step on the sets
  method AllocateRegion(bitmap: array<Word>, ghost n: nat, pos: nat, order: nat) returns (ret: int)
    requires pos / 64 + Longs(Size(order)) <= bitmap.Length
    modifies bitmap
    ensures ret == if RegionFree(old(bitmap[..]), pos, order) then 0 else -EBUSY
    ensures forall i: nat :: At(bitmap[..], i) == (old(At(bitmap[..], i)) || (ret == 0 && Touched(pos, order, i)))
    ensures Fits(n, Region(pos, order)) ==>
              AllocateStep(n, Bits(old(bitmap[..]), n), Region(pos, order), ret, Bits(bitmap[..], n))
  {
    hide At, Size, Aligned, Touched, RegionFree;
    ghost var s := bitmap[..];
    if Fits(n, Region(pos, order)) {
      FreeMeansRegionFree(s, n, Region(pos, order));
    }
    var free := ApplyRegOp(bitmap, pos, order, IsFree);
    if free == 0 {
      return -EBUSY;
    }
    var _ := ApplyRegOp(bitmap, pos, order, Alloc);
    if Fits(n, Region(pos, order)) {
      FilledSpan(s, bitmap[..], n, Region(pos, order));
    }
    ret := 0;
  }

  // bitmap_release_region
  method ReleaseRegion(bitmap: array<Word>, ghost n: nat, pos: nat, order: nat)
    requires pos / 64 + Longs(Size(order)) <= bitmap.Length
    modifies bitmap
    ensures forall i: nat :: At(bitmap[..], i) == (old(At(bitmap[..], i)) && !Touched(pos, order, i))
    ensures Fits(n, Region(pos, order)) ==>
              ReleaseStep(Bits(old(bitmap[..]), n), Region(pos, order), Bits(bitmap[..], n))
  {
    hide At, Size, Aligned, Touched, RegionFree;
    ghost var s := bitmap[..];
    var _ := ApplyRegOp(bitmap, pos, order, RegOp.Release);
    if Fits(n, Region(pos, order)) {
      ClearedSpan(s, bitmap[..], n, Region(pos, order));
    }
  }

  // ---------- runs ----------

  // The bits in use, and the regions handed out and not yet released
  datatype State = State(used: set<nat>, live: set<Region>)

  datatype Call =
    | Find(order: nat, ret: int)
    | Allocate(region: Region, ret: int)
    | Release(region: Region)

  ghost predicate Next(n: nat, s: State, c: Call, t: State) {
    match c
    case Find(order, ret) =>
      && FindStep(n, s.used, order, ret, t.used)
      && t.live == (if ret >= 0 then s.live + {Region(ret, order)} else s.live)
    case Allocate(r, ret) =>
      && Fits(n, r) && AllocateStep(n, s.used, r, ret, t.used)
      && t.live == (if ret == 0 then s.live + {r} else s.live)
    case Release(r) =>
      && r in s.live && ReleaseStep(s.used, r, t.used)
      && t.live == s.live - {r}
  }

  ghost predicate Run(n: nat, states: seq<State>, calls: seq<Call>) {
    && |states| == |calls| + 1
    && states[0] == State({}, {})
    && forall i | 0 <= i < |calls| :: Next(n, states[i], calls[i], states[i + 1])
  }

  // The bits in use are exactly those of the live regions, which do not overlap
  ghost predicate Consistent(n: nat, s: State) {
    && (forall r | r in s.live :: Fits(n, r) && Span(r) <= s.used)
    && (forall i | i in s.used :: exists r :: r in s.live && i in Span(r))
    && (forall q, r | q in s.live && r in s.live && q != r :: Span(q) !! Span(r))
  }

  lemma NextConsistent(n: nat, s: State, c: Call, t: State)
    requires Consistent(n, s) && Next(n, s, c, t)
    ensures Consistent(n, t)
  {
    hide Size, Aligned, Span;
    match c {
      case Find(order, ret) =>
        if ret >= 0 {
          Taken(n, s, Region(ret, order), t);
        }
      case Allocate(r, ret) =>
        if ret == 0 {
          Taken(n, s, r, t);
        }
      case Release(r) =>
        forall i | i in t.used
          ensures exists q :: q in t.live && i in Span(q)
        {
          var q :| q in s.live && i in Span(q);
          assert q in t.live;
        }
    }
  }

  lemma Taken(n: nat, s: State, r: Region, t: State)
    requires Consistent(n, s) && Free(n, s.used, r)
    requires t == State(s.used + Span(r), s.live + {r})
    ensures Consistent(n, t)
  {
    hide Size, Aligned, Span;
    forall i | i in t.used
      ensures exists q :: q in t.live && i in Span(q)
    {
      if i in s.used {
        var q :| q in s.live && i in Span(q);
        assert q in t.live;
      } else {
        assert r in t.live;
      }
    }
  }

  // Live regions never overlap, over any run
  lemma {:induction false} RunConsistent(n: nat, states: seq<State>, calls: seq<Call>, k: nat)
    requires Run(n, states, calls) && k < |states|
    ensures Consistent(n, states[k])
  {
    hide Size, Span, Next;
    if k == 0 {
    } else {
      RunConsistent(n, states, calls, k - 1);
      NextConsistent(n, states[k - 1], calls[k - 1], states[k]);
    }
  }

  // Releasing the region a call has just taken undoes the call
  lemma ReleaseUndoesFind(n: nat, s: State, order: nat, ret: int, t: State, u: State)
    requires Consistent(n, s) && ret >= 0
    requires Next(n, s, Find(order, ret), t) && Next(n, t, Call.Release(Region(ret, order)), u)
    ensures u == s
  {
    hide Size, Aligned;
    var r := Region(ret, order);
    SpanNotEmpty(r);
    assert u.used == s.used;
    assert u.live == s.live;
  }

  lemma SpanNotEmpty(r: Region)
    ensures r.pos in Span(r)
  {
  }
}
