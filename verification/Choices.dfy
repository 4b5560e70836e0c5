/**
  What the partitioner chooses, case by case and in the order of choosing, without
  the functions that compute it.
 */
module Choices {
  import opened Partition

  // ---------- the entry of a CPU ----------

  // Entry i is the first one for the CPU
  ghost predicate FirstEntry(topo: Topology, cpu: Cpu, i: nat) {
    i < |topo| && topo[i].cpuId == cpu && forall j | 0 <= j < i :: topo[j].cpuId != cpu
  }

  // The entry looked up is the first one of the CPU, and there is none only if no entry has its number
  lemma {:induction false} LookupIsFirst(topo: Topology, cpu: Cpu)
    ensures
      match Lookup(topo, cpu)
      case Some(t) => exists i: nat :: FirstEntry(topo, cpu, i) && topo[i] == t
      case None => forall t | t in topo :: t.cpuId != cpu
  {
    if topo == [] {
    } else if topo[0].cpuId == cpu {
      assert FirstEntry(topo, cpu, 0);
    } else {
      var rest := topo[1..];
      LookupIsFirst(rest, cpu);
      match Lookup(rest, cpu) {
        case Some(t) =>
          var i: nat :| FirstEntry(rest, cpu, i) && rest[i] == t;
          LaterEntry(topo, cpu, i);
        case None =>
          forall t | t in topo
            ensures t.cpuId != cpu
          {
            assert t == topo[0] || t in rest;
          }
      }
    }
  }

  lemma LaterEntry(topo: Topology, cpu: Cpu, i: nat)
    requires topo != [] && topo[0].cpuId != cpu && FirstEntry(topo[1..], cpu, i)
    ensures FirstEntry(topo, cpu, i + 1) && topo[i + 1] == topo[1..][i]
  {
    forall j | 0 <= j < i + 1
      ensures topo[j].cpuId != cpu
    {
      if j > 0 {
        assert topo[j] == topo[1..][j - 1];
      }
    }
  }

  // ---------- the CPU after another one ----------

  ghost predicate CacheHasFree(caches: seq<CpuSet>, nprocs: nat, avail: CpuSet) {
    exists k: nat, c :: k < |caches| && c in caches[k] && c in avail && c < nprocs
  }

  // c is free, and every free CPU before it has an entry on another node
  ghost predicate NoneBefore(topo: Topology, avail: CpuSet, node: int, c: Cpu) {
    forall d | d in avail && d < c :: Lookup(topo, d).Some? && !OnNode(topo, d, node)
  }

  // c is the first free CPU on the node
  ghost predicate FirstOnNode(topo: Topology, nprocs: nat, avail: CpuSet, node: int, c: Cpu) {
    c in avail && c < nprocs && OnNode(topo, c, node) && NoneBefore(topo, avail, node, c)
  }

  // c is the first free CPU that is not known to be on another node, and has no entry
  ghost predicate FirstUnknown(topo: Topology, nprocs: nat, avail: CpuSet, node: int, c: Cpu) {
    c in avail && c < nprocs && Lookup(topo, c).None? && NoneBefore(topo, avail, node, c)
  }

  // No free CPU below nprocs is on the node, and all have entries
  ghost predicate NodeExhausted(topo: Topology, nprocs: nat, avail: CpuSet, node: int) {
    forall d | d in avail && d < nprocs :: Lookup(topo, d).Some? && !OnNode(topo, d, node)
  }

  // The least free CPU, or the one past the end of the sets
  ghost predicate LeastFree(avail: CpuSet, c: Cpu) {
    (forall d | d in avail :: c <= d || d >= CPU_SETSIZE) && ((c in avail && c < CPU_SETSIZE) || c == CPU_SETSIZE)
  }

  // What the source takes after prev: a CPU of the innermost cache with a free one, else one of
  // the node, else any; nothing if an entry it needs is missing
  ghost predicate ComesAfter(topo: Topology, nprocs: nat, avail: CpuSet, t: CpuTopology, c: Cpu) {
    if CacheHasFree(t.caches, nprocs, avail) then FromCaches(t.caches, nprocs, avail, c)
    else if NodeExhausted(topo, nprocs, avail, t.nodeId) then LeastFree(avail, c)
    else FirstOnNode(topo, nprocs, avail, t.nodeId, c)
  }

  // It takes nothing exactly if prev has no entry, or no cache helps and the search of the node
  // comes to a CPU without an entry first
  ghost predicate Unknowable(topo: Topology, nprocs: nat, avail: CpuSet, prev: Cpu) {
    match Lookup(topo, prev)
    case None => true
    case Some(t) =>
      !CacheHasFree(t.caches, nprocs, avail) && exists c :: FirstUnknown(topo, nprocs, avail, t.nodeId, c)
  }

  lemma ChoiceCases(topo: Topology, nprocs: nat, avail: CpuSet, prev: Cpu)
    requires nprocs <= CPU_SETSIZE
    ensures
      match Choice(topo, nprocs, avail, prev)
      case None => Unknowable(topo, nprocs, avail, prev)
      case Some(c) =>
        && !Unknowable(topo, nprocs, avail, prev)
        && Lookup(topo, prev).Some? && ComesAfter(topo, nprocs, avail, Lookup(topo, prev).value, c)
  {
    hide NextCpu, Lookup, CacheChoice, NodeChoice, FromCaches, FirstCpu;
    match Lookup(topo, prev) {
      case None =>
      case Some(t) =>
        CacheCases(t.caches, nprocs, avail);
        NodeCases(topo, nprocs, avail, t.nodeId);
        FirstCpuIsLeast(avail);
    }
  }

  lemma CacheCases(caches: seq<CpuSet>, nprocs: nat, avail: CpuSet)
    requires nprocs <= CPU_SETSIZE
    ensures
      match CacheChoice(caches, nprocs, avail)
      case Some(c) => CacheHasFree(caches, nprocs, avail) && FromCaches(caches, nprocs, avail, c)
      case None => !CacheHasFree(caches, nprocs, avail)
  {
    hide CacheChoice;
    CacheChoiceFree(caches, nprocs, avail);
    match CacheChoice(caches, nprocs, avail) {
      case Some(c) =>
        var k: nat :| InnermostFree(caches, nprocs, avail, k, c);
      case None =>
        forall k: nat, c | k < |caches| && c in caches[k] && c < nprocs
          ensures c !in avail
        {
          assert NoneFree(caches[k], nprocs, avail);
        }
    }
  }

  lemma NodeCases(topo: Topology, nprocs: nat, avail: CpuSet, node: int)
    requires nprocs <= CPU_SETSIZE
    ensures
      match NodeChoice(topo, nprocs, avail, node, 0)
      case Unknown => exists c :: FirstUnknown(topo, nprocs, avail, node, c)
      case Found(c) =>
        && FirstOnNode(topo, nprocs, avail, node, c) && !NodeExhausted(topo, nprocs, avail, node)
        && forall d :: !FirstUnknown(topo, nprocs, avail, node, d)
      case NotFound =>
        && NodeExhausted(topo, nprocs, avail, node)
        && forall d :: !FirstUnknown(topo, nprocs, avail, node, d)
  {
    hide Lookup, NodeChoice;
    NodeChoiceFree(topo, nprocs, avail, node, 0);
    match NodeChoice(topo, nprocs, avail, node, 0) {
      case Unknown =>
        var c :| c in avail && c < nprocs && Lookup(topo, c).None?
          && forall d | d in avail && d < c :: Lookup(topo, d).Some? && !OnNode(topo, d, node);
        assert FirstUnknown(topo, nprocs, avail, node, c);
      case Found(c) =>
      case NotFound =>
    }
  }

  lemma FirstCpuIsLeast(avail: CpuSet)
    ensures LeastFree(avail, FirstCpu(avail))
  {
    hide NextCpu;
  }

  // There is only one such CPU
  lemma OneComesAfter(topo: Topology, nprocs: nat, avail: CpuSet, t: CpuTopology, c: Cpu, d: Cpu)
    requires ComesAfter(topo, nprocs, avail, t, c) && ComesAfter(topo, nprocs, avail, t, d)
    ensures c == d
  {
    hide Lookup;
    if CacheHasFree(t.caches, nprocs, avail) {
      OneFromCaches(t.caches, nprocs, avail, c, d);
    }
  }

  lemma OneFromCaches(caches: seq<CpuSet>, nprocs: nat, avail: CpuSet, c: Cpu, d: Cpu)
    requires FromCaches(caches, nprocs, avail, c) && FromCaches(caches, nprocs, avail, d)
    ensures c == d
  {
    var j: nat :| InnermostFree(caches, nprocs, avail, j, c);
    var k: nat :| InnermostFree(caches, nprocs, avail, k, d);
    NotFurtherOut(caches, nprocs, avail, j, c, k, d);
    NotFurtherOut(caches, nprocs, avail, k, d, j, c);
  }

  lemma NotFurtherOut(caches: seq<CpuSet>, nprocs: nat, avail: CpuSet, j: nat, c: Cpu, k: nat, d: Cpu)
    requires InnermostFree(caches, nprocs, avail, j, c) && InnermostFree(caches, nprocs, avail, k, d)
    ensures k <= j
  {
  }

  // ---------- the CPUs of a share, in the order they are taken ----------

  ghost function Taken(order: seq<Cpu>): CpuSet {
    set c | c in order
  }

  // The next CPU after those in order
  ghost predicate NextTaken(topo: Topology, nprocs: nat, avail: CpuSet, order: seq<Cpu>, c: Cpu) {
    if order == [] then LeastFree(avail, c)
    else
      var prev := order[|order| - 1];
      Lookup(topo, prev).Some? && ComesAfter(topo, nprocs, avail - Taken(order), Lookup(topo, prev).value, c)
  }

  ghost predicate TakenInOrder(topo: Topology, nprocs: nat, avail: CpuSet, order: seq<Cpu>) {
    forall i | 0 <= i < |order| :: NextTaken(topo, nprocs, avail, order[..i], order[i])
  }

  lemma TakenOneMore(topo: Topology, nprocs: nat, avail: CpuSet, order: seq<Cpu>, c: Cpu)
    requires TakenInOrder(topo, nprocs, avail, order) && NextTaken(topo, nprocs, avail, order, c)
    ensures TakenInOrder(topo, nprocs, avail, order + [c]) && Taken(order + [c]) == Taken(order) + {c}
  {
    hide NextTaken;
    var more := order + [c];
    forall i | 0 <= i < |more|
      ensures NextTaken(topo, nprocs, avail, more[..i], more[i])
    {
      if i < |order| {
        assert more[..i] == order[..i];
      } else {
        assert more[..i] == order;
      }
    }
  }

  // Two such orders agree as far as they go
  lemma {:induction false} OneOrder(topo: Topology, nprocs: nat, avail: CpuSet, p: seq<Cpu>, q: seq<Cpu>)
    requires TakenInOrder(topo, nprocs, avail, p) && TakenInOrder(topo, nprocs, avail, q) && |p| <= |q|
    ensures p == q[..|p|]
    decreases |p|
  {
    if p == [] {
    } else {
      var n := |p| - 1;
      hide NextTaken;
      Shorter(topo, nprocs, avail, p, n);
      OneOrder(topo, nprocs, avail, p[..n], q);
      OneNext(topo, nprocs, avail, p[..n], p[n], q[n]);
      assert p == p[..n] + [p[n]] && q[..n + 1] == q[..n] + [q[n]];
    }
  }

  lemma Shorter(topo: Topology, nprocs: nat, avail: CpuSet, order: seq<Cpu>, n: nat)
    requires TakenInOrder(topo, nprocs, avail, order) && n <= |order|
    ensures TakenInOrder(topo, nprocs, avail, order[..n])
  {
    hide NextTaken;
    forall i | 0 <= i < n
      ensures NextTaken(topo, nprocs, avail, order[..n][..i], order[..n][i])
    {
      assert order[..n][..i] == order[..i];
    }
  }

  lemma OneNext(topo: Topology, nprocs: nat, avail: CpuSet, order: seq<Cpu>, c: Cpu, d: Cpu)
    requires NextTaken(topo, nprocs, avail, order, c) && NextTaken(topo, nprocs, avail, order, d)
    ensures c == d
  {
    hide ComesAfter, Lookup;
    if order == [] {
    } else {
      var prev := order[|order| - 1];
      OneComesAfter(topo, nprocs, avail - Taken(order), Lookup(topo, prev).value, c, d);
    }
  }

  // After the first CPU and n more
  ghost predicate IsTaking(topo: Topology, nprocs: nat, avail: CpuSet, n: nat, order: seq<Cpu>, s: Taking) {
    && |order| == n + 1 && TakenInOrder(topo, nprocs, avail, order) && s.prev == order[n]
    && s.use == avail * Taken(order) && s.avail == avail - Taken(order)
  }

  lemma {:induction false} TakenSoFar(topo: Topology, nprocs: nat, avail: CpuSet, n: nat) returns (order: seq<Cpu>)
    requires nprocs <= CPU_SETSIZE && IsCpuSet(avail) && TakeMore(topo, nprocs, avail, n).Some?
    ensures IsTaking(topo, nprocs, avail, n, order, TakeMore(topo, nprocs, avail, n).value)
  {
    if n == 0 {
      FirstTaken(topo, nprocs, avail);
      order := [FirstCpu(avail)];
    } else {
      order := TakenSoFar(topo, nprocs, avail, n - 1);
      var s := TakeMore(topo, nprocs, avail, n - 1).value;
      var c := Choice(topo, nprocs, s.avail, s.prev).value;
      hide Choice, IsTaking, Take;
      MoreTaken(topo, nprocs, avail, n, order, s, c);
      order := order + [c];
    }
  }

  lemma FirstTaken(topo: Topology, nprocs: nat, avail: CpuSet)
    requires nprocs <= CPU_SETSIZE && IsCpuSet(avail)
    ensures IsTaking(topo, nprocs, avail, 0, [FirstCpu(avail)], Take(Taking(avail, {}, 0), FirstCpu(avail)))
  {
    FirstCpuIsLeast(avail);
    hide FirstCpu;
    var order := [FirstCpu(avail)];
    assert order[..0] == [] && Taken(order) == {FirstCpu(avail)};
  }

  lemma MoreTaken(topo: Topology, nprocs: nat, avail: CpuSet, n: nat, order: seq<Cpu>, s: Taking, c: Cpu)
    requires n > 0 && nprocs <= CPU_SETSIZE && IsCpuSet(avail) && IsTaking(topo, nprocs, avail, n - 1, order, s)
    requires Choice(topo, nprocs, s.avail, s.prev) == Some(c)
    ensures IsTaking(topo, nprocs, avail, n, order + [c], Take(s, c))
  {
    hide Choice, Lookup, ComesAfter, TakenInOrder, Unknowable;
    ChoiceCases(topo, nprocs, s.avail, s.prev);
    ChoiceIsFree(topo, nprocs, s.avail, s.prev);
    TakenOneMore(topo, nprocs, avail, order, c);
  }

  // The share of a process, in the order of choosing
  lemma ShareInOrder(topo: Topology, nprocs: nat, avail: CpuSet, q: int) returns (order: seq<Cpu>)
    requires nprocs <= CPU_SETSIZE && IsCpuSet(avail) && ShareOf(topo, nprocs, avail, q).Some?
    ensures |order| == (if q < 1 then 1 else q) && TakenInOrder(topo, nprocs, avail, order)
    ensures ShareOf(topo, nprocs, avail, q).value.use == avail * Taken(order)
    ensures ShareOf(topo, nprocs, avail, q).value.avail == avail - Taken(order)
  {
    order := TakenSoFar(topo, nprocs, avail, Quota(q) - 1);
  }

  // A process gets no share exactly if the next CPU becomes unknowable on the way
  lemma {:induction false} TakeFails(topo: Topology, nprocs: nat, avail: CpuSet, n: nat) returns (order: seq<Cpu>)
    requires nprocs <= CPU_SETSIZE && IsCpuSet(avail) && TakeMore(topo, nprocs, avail, n).None?
    ensures 0 < |order| <= n && TakenInOrder(topo, nprocs, avail, order)
    ensures Unknowable(topo, nprocs, avail - Taken(order), order[|order| - 1])
  {
    if n == 0 {
      order := [];
    } else if TakeMore(topo, nprocs, avail, n - 1).None? {
      order := TakeFails(topo, nprocs, avail, n - 1);
    } else {
      order := TakenSoFar(topo, nprocs, avail, n - 1);
      var s := TakeMore(topo, nprocs, avail, n - 1).value;
      hide Choice, Unknowable, TakenInOrder;
      ChoiceCases(topo, nprocs, s.avail, s.prev);
    }
  }

  lemma ShareFails(topo: Topology, nprocs: nat, avail: CpuSet, q: int) returns (order: seq<Cpu>)
    requires nprocs <= CPU_SETSIZE && IsCpuSet(avail) && ShareOf(topo, nprocs, avail, q).None?
    ensures 0 < |order| < q && TakenInOrder(topo, nprocs, avail, order)
    ensures Unknowable(topo, nprocs, avail - Taken(order), order[|order| - 1])
  {
    order := TakeFails(topo, nprocs, avail, Quota(q) - 1);
  }

  // ---------- the shares of the ranks ----------

  // Each rank in turn takes its share from what the ranks before it have left
  lemma {:induction false} SharesInTurn(topo: Topology, nprocs: nat, avail: CpuSet, q: int, n: nat, r: nat)
    requires nprocs <= CPU_SETSIZE && IsCpuSet(avail) && r < |Divide(topo, nprocs, avail, q, n).shares|
    ensures
      var shares := Divide(topo, nprocs, avail, q, n).shares;
      var s := ShareOf(topo, nprocs, avail - UnionOf(shares[..r]), q);
      s.Some? && shares[r] == s.value.use
  {
    hide ShareOf;
    if n == 0 {
    } else {
      var d := Divide(topo, nprocs, avail, q, n - 1);
      var all := Divide(topo, nprocs, avail, q, n).shares;
      if r < |d.shares| {
        SharesInTurn(topo, nprocs, avail, q, n - 1, r);
        assert all[..r] == d.shares[..r];
      } else {
        DivideConserves(topo, nprocs, avail, q, n - 1);
        assert all[..r] == d.shares;
      }
    }
  }

  // The same without the functions: each share is what is taken in order from what is left
  lemma ShareOfRank(topo: Topology, nprocs: nat, avail: CpuSet, q: int, n: nat, r: nat) returns (order: seq<Cpu>)
    requires nprocs <= CPU_SETSIZE && IsCpuSet(avail) && r < |Divide(topo, nprocs, avail, q, n).shares|
    ensures
      var shares := Divide(topo, nprocs, avail, q, n).shares;
      var left := avail - UnionOf(shares[..r]);
      && |order| == (if q < 1 then 1 else q) && TakenInOrder(topo, nprocs, left, order)
      && shares[r] == left * Taken(order)
  {
    hide ShareOf, Divide, TakenInOrder, UnionOf;
    SharesInTurn(topo, nprocs, avail, q, n, r);
    var left := avail - UnionOf(Divide(topo, nprocs, avail, q, n).shares[..r]);
    order := ShareInOrder(topo, nprocs, left, q);
  }

  lemma {:induction false} DivisionStops(topo: Topology, nprocs: nat, avail: CpuSet, q: int, n: nat)
    requires nprocs <= CPU_SETSIZE && IsCpuSet(avail) && !Divide(topo, nprocs, avail, q, n).ok
    ensures ShareOf(topo, nprocs, avail - UnionOf(Divide(topo, nprocs, avail, q, n).shares), q).None?
  {
    hide ShareOf, UnionOf;
    if !Divide(topo, nprocs, avail, q, n - 1).ok {
      DivisionStops(topo, nprocs, avail, q, n - 1);
    } else {
      DivideConserves(topo, nprocs, avail, q, n - 1);
    }
  }

  // The division fails at the first rank whose share ends at a CPU that nothing can be taken after
  lemma DivisionFails(topo: Topology, nprocs: nat, avail: CpuSet, q: int, n: nat) returns (order: seq<Cpu>)
    requires nprocs <= CPU_SETSIZE && IsCpuSet(avail) && !Divide(topo, nprocs, avail, q, n).ok
    ensures
      var left := avail - UnionOf(Divide(topo, nprocs, avail, q, n).shares);
      && 0 < |order| < q && TakenInOrder(topo, nprocs, left, order)
      && Unknowable(topo, nprocs, left - Taken(order), order[|order| - 1])
  {
    hide ShareOf, Divide, TakenInOrder, UnionOf, Unknowable;
    DivisionStops(topo, nprocs, avail, q, n);
    order := ShareFails(topo, nprocs, avail - UnionOf(Divide(topo, nprocs, avail, q, n).shares), q);
  }
}
