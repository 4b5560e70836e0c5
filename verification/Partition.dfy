/**
  The greedy CPU partitioner of mpipin: which CPUs each rank gets.

  A CPU set is a set of naturals below CPU_SETSIZE. The functions say what is
  chosen; the methods are the nested loops that choose it.
 */
module Partition {
  import opened Words
  import opened Bitops
  import opened Powers

  const CPU_SETSIZE: nat := 1024

  type Cpu = nat
  type CpuSet = set<Cpu>

  datatype Option<+T> = None | Some(value: T)

  // A CPU with its NUMA node and its caches, innermost first
  datatype CpuTopology = CpuTopology(cpuId: Cpu, nodeId: int, caches: seq<CpuSet>)

  type Topology = seq<CpuTopology>

  ghost predicate IsCpuSet(s: CpuSet) {
    forall c | c in s :: c < CPU_SETSIZE
  }

  // ---------- walking a CPU set ----------

  // cpuset_next(from - 1, s): the least CPU of s from there on, or CPU_SETSIZE
  function NextCpu(s: CpuSet, from: nat): (c: Cpu)
    ensures c < CPU_SETSIZE ==> c in s && from <= c
    ensures c >= CPU_SETSIZE ==> c == CPU_SETSIZE
    ensures forall d | from <= d < c :: d !in s
    decreases CPU_SETSIZE - from
  {
    if from >= CPU_SETSIZE then CPU_SETSIZE else if from in s then from else NextCpu(s, from + 1)
  }

  // cpuset_first
  function FirstCpu(s: CpuSet): Cpu {
    NextCpu(s, 0)
  }

  // On the words of a cpu_set_t this is the search of find_next_bit
  lemma NextCpuIsFindNextBit(words: seq<Word>, from: nat)
    ensures FirstFrom(words, true, CPU_SETSIZE, from, NextCpu(Bits(words, CPU_SETSIZE), from))
  {
    hide At;
    var s := Bits(words, CPU_SETSIZE);
    var c := NextCpu(s, from);
    if from < CPU_SETSIZE {
      forall i: nat | from <= i < c
        ensures !At(words, i)
      {
        assert i !in s;
      }
      if c < CPU_SETSIZE {
        assert c in s;
      }
    }
  }

  // CPU_CLR and CPU_SET ignore a CPU beyond the set
  function Clear(s: CpuSet, c: Cpu): CpuSet {
    if c < CPU_SETSIZE then s - {c} else s
  }

  function Set(s: CpuSet, c: Cpu): CpuSet {
    if c < CPU_SETSIZE then s + {c} else s
  }

  // ---------- the next CPU of a process ----------

  // The first entry for this CPU
  function Lookup(topo: Topology, cpu: Cpu): (t: Option<CpuTopology>)
    ensures t.Some? ==> t.value in topo && t.value.cpuId == cpu
  {
    if topo == [] then None
    else if topo[0].cpuId == cpu then Some(topo[0])
    else Lookup(topo[1..], cpu)
  }

  // The least free CPU below nprocs in the innermost cache that has one
  function CacheChoice(caches: seq<CpuSet>, nprocs: nat, avail: CpuSet): Option<Cpu> {
    if caches == [] then None
    else
      var c := FirstCpu(caches[0] * avail);
      if c < nprocs && c < CPU_SETSIZE then Some(c) else CacheChoice(caches[1..], nprocs, avail)
  }

  datatype NodeSearch = Unknown | Found(cpu: Cpu) | NotFound

  // The least free CPU of the node from there on, unless a CPU without a topology entry comes first
  function NodeChoice(topo: Topology, nprocs: nat, avail: CpuSet, node: int, from: nat): NodeSearch
    requires nprocs <= CPU_SETSIZE
    decreases CPU_SETSIZE - from
  {
    var c := NextCpu(avail, from);
    if c >= nprocs then NotFound
    else
      match Lookup(topo, c)
      case None => Unknown
      case Some(t) => if t.nodeId == node then Found(c) else NodeChoice(topo, nprocs, avail, node, c + 1)
  }

  // The CPU to add after prev, or None if the topology does not tell
  function Choice(topo: Topology, nprocs: nat, avail: CpuSet, prev: Cpu): Option<Cpu>
    requires nprocs <= CPU_SETSIZE
  {
    match Lookup(topo, prev)
    case None => None
    case Some(t) =>
      match CacheChoice(t.caches, nprocs, avail)
      case Some(c) => Some(c)
      case None =>
        match NodeChoice(topo, nprocs, avail, t.nodeId, 0)
        case Unknown => None
        case Found(c) => Some(c)
        case NotFound => Some(FirstCpu(avail))
  }

  method FindTopology(topo: Topology, cpu: Cpu) returns (t: Option<CpuTopology>)
    ensures t == Lookup(topo, cpu)
  {
    var i := 0;
    assert topo[0..] == topo;
    while i < |topo|
      invariant 0 <= i <= |topo| && Lookup(topo, cpu) == Lookup(topo[i..], cpu)
    {
      if topo[i].cpuId == cpu {
        return Some(topo[i]);
      }
      assert topo[i..][1..] == topo[i + 1..];
      i := i + 1;
    }
    t := None;
  }

  // for_each_cpu over one cache, up to the first free CPU
  method FindInCache(cache: CpuSet, nprocs: nat, avail: CpuSet) returns (r: Option<Cpu>)
    requires nprocs <= CPU_SETSIZE
    ensures r == var c := FirstCpu(cache * avail); if c < nprocs then Some(c) else None
  {
    hide NextCpu;
    var cpu := NextCpu(cache, 0);
    ghost var first := FirstCpu(cache * avail);
    while cpu < nprocs
      invariant cpu <= CPU_SETSIZE && (cpu < CPU_SETSIZE ==> cpu in cache)
      invariant forall d | 0 <= d < cpu :: d !in cache || d !in avail
      decreases CPU_SETSIZE - cpu
    {
      if cpu in avail {
        assert cpu in cache * avail;
        assert first == cpu;
        return Some(cpu);
      }
      cpu := NextCpu(cache, cpu + 1);
    }
    r := None;
  }

  method FindInCaches(caches: seq<CpuSet>, nprocs: nat, avail: CpuSet) returns (r: Option<Cpu>)
    requires nprocs <= CPU_SETSIZE
    ensures r == CacheChoice(caches, nprocs, avail)
  {
    hide FirstCpu;
    assert caches[0..] == caches;
    var i := 0;
    while i < |caches|
      invariant 0 <= i <= |caches| && CacheChoice(caches, nprocs, avail) == CacheChoice(caches[i..], nprocs, avail)
    {
      r := FindInCache(caches[i], nprocs, avail);
      if r.Some? {
        return;
      }
      assert caches[i..][1..] == caches[i + 1..];
      i := i + 1;
    }
    r := None;
  }

  method FindOnNode(topo: Topology, nprocs: nat, avail: CpuSet, node: int) returns (r: NodeSearch)
    requires nprocs <= CPU_SETSIZE
    ensures r == NodeChoice(topo, nprocs, avail, node, 0)
  {
    hide NextCpu, Lookup;
    var from, cpu := 0, NextCpu(avail, 0);
    while cpu < nprocs
      invariant 0 <= from && cpu == NextCpu(avail, from)
      invariant NodeChoice(topo, nprocs, avail, node, 0) == NodeChoice(topo, nprocs, avail, node, from)
      decreases CPU_SETSIZE - cpu
    {
      var t := FindTopology(topo, cpu);
      if t.None? {
        return Unknown;
      }
      if node == t.value.nodeId {
        return Found(cpu);
      }
      from, cpu := cpu + 1, NextCpu(avail, cpu + 1);
    }
    r := NotFound;
  }

  // The body of the loop that adds one CPU
  method ChooseNext(topo: Topology, nprocs: nat, avail: CpuSet, prev: Cpu) returns (r: Option<Cpu>)
    requires nprocs <= CPU_SETSIZE
    ensures r == Choice(topo, nprocs, avail, prev)
  {
    var top := FindTopology(topo, prev);
    if top.None? {
      return None;
    }
    var cached := FindInCaches(top.value.caches, nprocs, avail);
    if cached.Some? {
      return cached;
    }
    var onNode := FindOnNode(topo, nprocs, avail, top.value.nodeId);
    match onNode {
      case Unknown => r := None;
      case Found(c) => r := Some(c);
      case NotFound => r := Some(FirstCpu(avail));
    }
  }

  // ---------- the share of one process ----------

  datatype Taking = Taking(avail: CpuSet, use: CpuSet, prev: Cpu)

  function Take(s: Taking, c: Cpu): Taking {
    Taking(Clear(s.avail, c), Set(s.use, c), c)
  }

  // After the first CPU and n more
  function TakeMore(topo: Topology, nprocs: nat, avail: CpuSet, n: nat): Option<Taking>
    requires nprocs <= CPU_SETSIZE
  {
    if n == 0 then Some(Take(Taking(avail, {}, 0), FirstCpu(avail)))
    else
      match TakeMore(topo, nprocs, avail, n - 1)
      case None => None
      case Some(s) =>
        match Choice(topo, nprocs, s.avail, s.prev)
        case None => None
        case Some(c) => Some(Take(s, c))
  }

  // The source always assigns a first CPU, so a quota of 0 acts like 1
  function Quota(q: int): (n: nat)
    ensures n >= 1
  {
    if q < 1 then 1 else q
  }

  function ShareOf(topo: Topology, nprocs: nat, avail: CpuSet, q: int): Option<Taking>
    requires nprocs <= CPU_SETSIZE
  {
    TakeMore(topo, nprocs, avail, Quota(q) - 1)
  }

  method AssignShare(topo: Topology, nprocs: nat, available: CpuSet, q: int) returns (r: Option<Taking>)
    requires nprocs <= CPU_SETSIZE
    ensures r == ShareOf(topo, nprocs, available, q)
  {
    hide NextCpu, FirstCpu, Choice;
    var avail, use := available, {};
    var cpu := FirstCpu(avail);
    avail, use := Clear(avail, cpu), Set(use, cpu);
    var prev := cpu;
    var taken := 1;
    while taken < q
      invariant 1 <= taken && (taken <= q || (q < 1 && taken == 1))
      invariant TakeMore(topo, nprocs, available, taken - 1) == Some(Taking(avail, use, prev))
      decreases q - taken
    {
      var next := ChooseNext(topo, nprocs, avail, prev);
      if next.None? {
        StaysNone(topo, nprocs, available, taken, Quota(q) - 1);
        return None;
      }
      avail, use := Clear(avail, next.value), Set(use, next.value);
      prev := next.value;
      taken := taken + 1;
    }
    r := Some(Taking(avail, use, prev));
  }

  lemma {:induction false} StaysNone(topo: Topology, nprocs: nat, avail: CpuSet, m: nat, n: nat)
    requires nprocs <= CPU_SETSIZE && m <= n && TakeMore(topo, nprocs, avail, m).None?
    ensures TakeMore(topo, nprocs, avail, n).None?
  {
    if m >= n {
    } else {
      StaysNone(topo, nprocs, avail, m, n - 1);
    }
  }

  // ---------- the shares of all processes ----------

  // The shares of the first ranks, what is left, and whether the topology sufficed
  datatype Division = Division(shares: seq<CpuSet>, avail: CpuSet, ok: bool)

  function Divide(topo: Topology, nprocs: nat, avail: CpuSet, q: int, n: nat): (d: Division)
    requires nprocs <= CPU_SETSIZE
    ensures |d.shares| <= n && (d.ok <==> |d.shares| == n)
  {
    if n == 0 then Division([], avail, true)
    else
      var d := Divide(topo, nprocs, avail, q, n - 1);
      if !d.ok then d
      else
        match ShareOf(topo, nprocs, d.avail, q)
        case None => d.(ok := false)
        case Some(s) => Division(d.shares + [s.use], s.avail, true)
  }

  // ---------- what is chosen ----------

  ghost predicate NoneFree(cache: CpuSet, nprocs: nat, avail: CpuSet) {
    forall c: Cpu | c in cache && c < nprocs :: c !in avail
  }

  // c is the least free CPU of cache k, and no cache further in has a free one
  ghost predicate InnermostFree(caches: seq<CpuSet>, nprocs: nat, avail: CpuSet, k: nat, c: Cpu) {
    && k < |caches| && c in caches[k] && c in avail && c < nprocs
    && (forall d | d in caches[k] && d < c :: d !in avail)
    && forall j | 0 <= j < k :: NoneFree(caches[j], nprocs, avail)
  }

  ghost predicate FromCaches(caches: seq<CpuSet>, nprocs: nat, avail: CpuSet, c: Cpu) {
    exists k: nat :: InnermostFree(caches, nprocs, avail, k, c)
  }

  lemma AtCache(caches: seq<CpuSet>, nprocs: nat, avail: CpuSet, k: nat, c: Cpu)
    requires InnermostFree(caches, nprocs, avail, k, c)
    ensures FromCaches(caches, nprocs, avail, c)
  {
    hide InnermostFree;
  }

  lemma {:induction false} CacheChoiceFree(caches: seq<CpuSet>, nprocs: nat, avail: CpuSet)
    requires nprocs <= CPU_SETSIZE
    ensures
      match CacheChoice(caches, nprocs, avail)
      case Some(c) => FromCaches(caches, nprocs, avail, c)
      case None => forall j | 0 <= j < |caches| :: NoneFree(caches[j], nprocs, avail)
  {
    hide NextCpu;
    if caches == [] {
    } else {
      var c := FirstCpu(caches[0] * avail);
      if c < nprocs {
        assert c in caches[0] * avail && CacheChoice(caches, nprocs, avail) == Some(c);
        FirstIsLeast(caches[0], avail);
        AtCache(caches, nprocs, avail, 0, c);
      } else {
        FirstCpuNone(caches[0], nprocs, avail);
        CacheChoiceFree(caches[1..], nprocs, avail);
        assert CacheChoice(caches, nprocs, avail) == CacheChoice(caches[1..], nprocs, avail);
        match CacheChoice(caches[1..], nprocs, avail) {
          case Some(d) =>
            var k: nat :| InnermostFree(caches[1..], nprocs, avail, k, d);
            OuterCaches(caches, k, nprocs, avail);
            AtCache(caches, nprocs, avail, k + 1, d);
          case None =>
            OuterCaches(caches, |caches| - 1, nprocs, avail);
        }
      }
    }
  }

  lemma FirstIsLeast(cache: CpuSet, avail: CpuSet)
    ensures forall d | d in cache && d < FirstCpu(cache * avail) :: d !in avail
  {
    hide NextCpu;
    forall d | d in cache && d < FirstCpu(cache * avail)
      ensures d !in avail
    {
      assert d !in cache * avail;
    }
  }

  lemma FirstCpuNone(cache: CpuSet, nprocs: nat, avail: CpuSet)
    requires FirstCpu(cache * avail) >= nprocs
    ensures NoneFree(cache, nprocs, avail)
  {
    hide NextCpu;
    forall c: Cpu | c in cache && c < nprocs
      ensures c !in avail
    {
      assert c !in cache * avail;
    }
  }

  lemma OuterCaches(caches: seq<CpuSet>, k: nat, nprocs: nat, avail: CpuSet)
    requires k < |caches| && NoneFree(caches[0], nprocs, avail)
    requires forall j | 0 <= j < k :: NoneFree(caches[1..][j], nprocs, avail)
    ensures forall j | 0 <= j <= k :: NoneFree(caches[j], nprocs, avail)
  {
    forall j | 0 <= j <= k
      ensures NoneFree(caches[j], nprocs, avail)
    {
      if j > 0 {
        assert caches[j] == caches[1..][j - 1];
      }
    }
  }

  lemma {:induction false} NodeChoiceFree(topo: Topology, nprocs: nat, avail: CpuSet, node: int, from: nat)
    requires nprocs <= CPU_SETSIZE
    ensures
      match NodeChoice(topo, nprocs, avail, node, from)
      case Unknown =>
        exists c :: c in avail && from <= c < nprocs && Lookup(topo, c).None?
          && forall d | d in avail && from <= d < c :: Lookup(topo, d).Some? && !OnNode(topo, d, node)
      case Found(c) =>
        c in avail && from <= c < nprocs && OnNode(topo, c, node)
        && forall d | d in avail && from <= d < c :: Lookup(topo, d).Some? && !OnNode(topo, d, node)
      case NotFound =>
        forall c | c in avail && from <= c < nprocs :: Lookup(topo, c).Some? && !OnNode(topo, c, node)
    decreases CPU_SETSIZE - from
  {
    hide NextCpu, Lookup;
    var c := NextCpu(avail, from);
    if c < nprocs && Lookup(topo, c).Some? && Lookup(topo, c).value.nodeId != node {
      NodeChoiceFree(topo, nprocs, avail, node, c + 1);
    }
  }

  ghost predicate OnNode(topo: Topology, c: Cpu, node: int) {
    Lookup(topo, c).Some? && Lookup(topo, c).value.nodeId == node
  }

  // Whatever is chosen is a free CPU, if there is one
  lemma ChoiceIsFree(topo: Topology, nprocs: nat, avail: CpuSet, prev: Cpu)
    requires nprocs <= CPU_SETSIZE && Choice(topo, nprocs, avail, prev).Some?
    ensures Choice(topo, nprocs, avail, prev).value in avail || Choice(topo, nprocs, avail, prev).value == CPU_SETSIZE
    ensures IsCpuSet(avail) && avail != {} ==> Choice(topo, nprocs, avail, prev).value in avail
  {
    hide NextCpu, Lookup;
    var t := Lookup(topo, prev).value;
    if CacheChoice(t.caches, nprocs, avail).Some? {
      CacheChoiceFree(t.caches, nprocs, avail);
    } else {
      NodeChoiceFree(topo, nprocs, avail, t.nodeId, 0);
      FirstCpuFree(avail);
    }
  }

  lemma FirstCpuFree(avail: CpuSet)
    ensures IsCpuSet(avail) && avail != {} ==> FirstCpu(avail) in avail
  {
    hide NextCpu;
    if IsCpuSet(avail) && avail != {} {
      var c :| c in avail;
      assert c < CPU_SETSIZE;
    }
  }

  // ---------- conservation ----------

  // CPUs only ever move from the available set to the share
  lemma {:induction false} TakeMoves(topo: Topology, nprocs: nat, avail: CpuSet, n: nat)
    requires nprocs <= CPU_SETSIZE && IsCpuSet(avail) && TakeMore(topo, nprocs, avail, n).Some?
    ensures
      var s := TakeMore(topo, nprocs, avail, n).value;
      s.use !! s.avail && s.use + s.avail == avail
  {
    hide NextCpu, Choice;
    if n == 0 {
    } else {
      TakeMoves(topo, nprocs, avail, n - 1);
      var s := TakeMore(topo, nprocs, avail, n - 1).value;
      ChoiceIsFree(topo, nprocs, s.avail, s.prev);
    }
  }

  // A share has its quota of CPUs as long as there are enough, and otherwise takes what there is
  lemma {:induction false} TakeCounts(topo: Topology, nprocs: nat, avail: CpuSet, n: nat)
    requires nprocs <= CPU_SETSIZE && IsCpuSet(avail) && TakeMore(topo, nprocs, avail, n).Some?
    ensures |TakeMore(topo, nprocs, avail, n).value.use| == if n < |avail| then n + 1 else |avail|
    ensures n < |avail| ==> TakeMore(topo, nprocs, avail, n).value.prev in avail
  {
    hide NextCpu, Choice, FirstCpu;
    if n == 0 {
      FirstCpuFree(avail);
      FirstCpuBound(avail);
    } else {
      TakeCounts(topo, nprocs, avail, n - 1);
      TakeMoves(topo, nprocs, avail, n - 1);
      var s := TakeMore(topo, nprocs, avail, n - 1).value;
      assert |avail| == |s.use| + |s.avail|;
      ChoiceIsFree(topo, nprocs, s.avail, s.prev);
    }
  }

  lemma FirstCpuBound(avail: CpuSet)
    ensures avail == {} ==> FirstCpu(avail) == CPU_SETSIZE
    ensures FirstCpu(avail) in avail || FirstCpu(avail) == CPU_SETSIZE
  {
    hide NextCpu;
  }

  ghost function UnionOf(shares: seq<CpuSet>): CpuSet {
    if shares == [] then {} else UnionOf(shares[..|shares| - 1]) + shares[|shares| - 1]
  }

  lemma {:induction false} InUnion(shares: seq<CpuSet>, r: nat)
    requires r < |shares|
    ensures shares[r] <= UnionOf(shares)
  {
    if r == |shares| - 1 {
    } else {
      InUnion(shares[..|shares| - 1], r);
    }
  }

  ghost predicate Disjoint(shares: seq<CpuSet>) {
    forall q, r | 0 <= q < r < |shares| :: shares[q] !! shares[r]
  }

  // The shares never overlap, and what is left is what was there minus the shares
  lemma {:induction false} DivideConserves(topo: Topology, nprocs: nat, avail: CpuSet, q: int, n: nat)
    requires nprocs <= CPU_SETSIZE && IsCpuSet(avail)
    ensures
      var d := Divide(topo, nprocs, avail, q, n);
      Disjoint(d.shares) && UnionOf(d.shares) <= avail && d.avail == avail - UnionOf(d.shares)
  {
    hide TakeMore;
    if n == 0 {
    } else {
      DivideConserves(topo, nprocs, avail, q, n - 1);
      var d := Divide(topo, nprocs, avail, q, n - 1);
      if d.ok && ShareOf(topo, nprocs, d.avail, q).Some? {
        var s := ShareOf(topo, nprocs, d.avail, q).value;
        TakeMoves(topo, nprocs, d.avail, Quota(q) - 1);
        var all := d.shares + [s.use];
        assert all[..|all| - 1] == d.shares;
        forall k | 0 <= k < |d.shares|
          ensures d.shares[k] !! s.use
        {
          InUnion(d.shares, k);
        }
      }
    }
  }

  // With enough CPUs every share has exactly its quota
  lemma {:induction false} DivideCounts(topo: Topology, nprocs: nat, avail: CpuSet, q: int, n: nat)
    requires nprocs <= CPU_SETSIZE && IsCpuSet(avail) && n * Quota(q) <= |avail|
    ensures
      var d := Divide(topo, nprocs, avail, q, n);
      (forall r | 0 <= r < |d.shares| :: |d.shares[r]| == Quota(q)) && |d.avail| == |avail| - |d.shares| * Quota(q)
  {
    hide TakeMore;
    if n == 0 {
    } else {
      OneLess(n, Quota(q));
      DivideCounts(topo, nprocs, avail, q, n - 1);
      DivideConserves(topo, nprocs, avail, q, n - 1);
      var d := Divide(topo, nprocs, avail, q, n - 1);
      if d.ok && ShareOf(topo, nprocs, d.avail, q).Some? {
        TakeCounts(topo, nprocs, d.avail, Quota(q) - 1);
        TakeMoves(topo, nprocs, d.avail, Quota(q) - 1);
      }
    }
  }

  lemma OneLess(n: nat, q: nat)
    requires n > 0
    ensures (n - 1) * q == n * q - q
  {
  }

  // With a quota of 0 or 1, each rank gets one CPU while there are any, and the others none
  lemma {:induction false} DivideSingles(topo: Topology, nprocs: nat, avail: CpuSet, q: int, n: nat)
    requires nprocs <= CPU_SETSIZE && IsCpuSet(avail) && q <= 1
    ensures
      var d := Divide(topo, nprocs, avail, q, n);
      && d.ok && (forall r | 0 <= r < n :: |d.shares[r]| == if r < |avail| then 1 else 0)
      && |d.avail| == if n <= |avail| then |avail| - n else 0
  {
    hide ShareOf, UnionOf, Disjoint;
    if n == 0 {
    } else {
      DivideSingles(topo, nprocs, avail, q, n - 1);
      DivideConserves(topo, nprocs, avail, q, n - 1);
      OneShare(topo, nprocs, Divide(topo, nprocs, avail, q, n - 1).avail, q);
    }
  }

  lemma OneShare(topo: Topology, nprocs: nat, avail: CpuSet, q: int)
    requires nprocs <= CPU_SETSIZE && IsCpuSet(avail) && q <= 1
    ensures ShareOf(topo, nprocs, avail, q).Some?
    ensures
      var s := ShareOf(topo, nprocs, avail, q).value;
      |s.use| == (if avail == {} then 0 else 1) && |s.avail| == |avail| - |s.use|
  {
    TakeCounts(topo, nprocs, avail, 0);
    TakeMoves(topo, nprocs, avail, 0);
    var s := ShareOf(topo, nprocs, avail, q).value;
    assert |avail| == |s.use| + |s.avail|;
  }

  // ---------- when the topology suffices ----------

  ghost predicate Known(topo: Topology, avail: CpuSet) {
    forall c | c in avail :: Lookup(topo, c).Some?
  }

  lemma {:induction false} TakeSucceeds(topo: Topology, nprocs: nat, avail: CpuSet, n: nat)
    requires nprocs <= CPU_SETSIZE && IsCpuSet(avail) && Known(topo, avail) && n < |avail|
    ensures TakeMore(topo, nprocs, avail, n).Some?
  {
    hide NextCpu, Lookup, Choice, Take;
    if n == 0 {
    } else {
      TakeSucceeds(topo, nprocs, avail, n - 1);
      TakeCounts(topo, nprocs, avail, n - 1);
      TakeMoves(topo, nprocs, avail, n - 1);
      var s := TakeMore(topo, nprocs, avail, n - 1).value;
      ChoiceSucceeds(topo, nprocs, s.avail, s.prev);
    }
  }

  lemma ChoiceSucceeds(topo: Topology, nprocs: nat, avail: CpuSet, prev: Cpu)
    requires nprocs <= CPU_SETSIZE && Known(topo, avail) && Lookup(topo, prev).Some?
    ensures Choice(topo, nprocs, avail, prev).Some?
  {
    hide NextCpu, Lookup, CacheChoice;
    NodeChoiceFree(topo, nprocs, avail, Lookup(topo, prev).value.nodeId, 0);
  }

  // If every available CPU has a topology entry and there are enough, partitioning completes
  lemma {:induction false} DivideSucceeds(topo: Topology, nprocs: nat, avail: CpuSet, q: int, n: nat)
    requires nprocs <= CPU_SETSIZE && IsCpuSet(avail) && Known(topo, avail) && n * Quota(q) <= |avail|
    ensures Divide(topo, nprocs, avail, q, n).ok
  {
    hide TakeMore, Lookup;
    if n == 0 {
    } else {
      OneLess(n, Quota(q));
      DivideSucceeds(topo, nprocs, avail, q, n - 1);
      DivideCounts(topo, nprocs, avail, q, n - 1);
      DivideConserves(topo, nprocs, avail, q, n - 1);
      TakeSucceeds(topo, nprocs, Divide(topo, nprocs, avail, q, n - 1).avail, Quota(q) - 1);
    }
  }

  // ---------- locality ----------

  ghost function FreeOn(topo: Topology, avail: CpuSet, node: int): CpuSet {
    set c | c in avail && OnNode(topo, c, node)
  }

  // No cache of an entry reaches beyond the node of the entry
  ghost predicate CachesWithinNodes(topo: Topology, avail: CpuSet) {
    forall t, cache, c | t in topo && cache in t.caches && c in cache && c in avail :: OnNode(topo, c, t.nodeId)
  }

  // A process leaves a node only when it has no free CPU left
  lemma ChoiceStaysOnNode(topo: Topology, nprocs: nat, avail: CpuSet, prev: Cpu, node: int)
    requires nprocs <= CPU_SETSIZE && Choice(topo, nprocs, avail, prev).Some?
    requires CachesWithinNodes(topo, avail) && OnNode(topo, prev, node)
    ensures
      || OnNode(topo, Choice(topo, nprocs, avail, prev).value, node)
      || forall c | c in FreeOn(topo, avail, node) :: c >= nprocs
  {
    hide NextCpu, Lookup;
    var t := Lookup(topo, prev).value;
    assert t in topo;
    CacheChoiceFree(t.caches, nprocs, avail);
    match CacheChoice(t.caches, nprocs, avail) {
      case Some(c) =>
        var k: nat :| InnermostFree(t.caches, nprocs, avail, k, c);
        assert t.caches[k] in t.caches;
      case None =>
        NodeChoiceFree(topo, nprocs, avail, t.nodeId, 0);
    }
  }

  ghost predicate LocalInput(topo: Topology, nprocs: nat, avail: CpuSet) {
    && nprocs <= CPU_SETSIZE && Known(topo, avail) && CachesWithinNodes(topo, avail)
    && forall c | c in avail :: c < nprocs
  }

  // After the first CPU and n more, all of one node, that node has n + 1 fewer free CPUs
  ghost predicate Local(topo: Topology, avail: CpuSet, s: Taking, node: int, n: nat) {
    && OnNode(topo, s.prev, node)
    && s.use <= FreeOn(topo, avail, node)
    && |FreeOn(topo, s.avail, node)| == |FreeOn(topo, avail, node)| - (n + 1)
    && forall m | m != node :: FreeOn(topo, s.avail, m) == FreeOn(topo, avail, m)
  }

  lemma TakeLocal(topo: Topology, avail: CpuSet, s: Taking, c: Cpu, node: int)
    requires c in s.avail && c < CPU_SETSIZE && OnNode(topo, c, node)
    ensures FreeOn(topo, s.avail, node) == FreeOn(topo, Take(s, c).avail, node) + {c}
    ensures c !in FreeOn(topo, Take(s, c).avail, node)
    ensures forall m | m != node :: FreeOn(topo, Take(s, c).avail, m) == FreeOn(topo, s.avail, m)
  {
    hide Lookup;
  }

  lemma {:induction false} ShareLocal(topo: Topology, nprocs: nat, avail: CpuSet, n: nat, node: int)
    requires LocalInput(topo, nprocs, avail) && TakeMore(topo, nprocs, avail, n).Some?
    requires avail != {} && OnNode(topo, FirstCpu(avail), node) && n < |FreeOn(topo, avail, node)|
    ensures Local(topo, avail, TakeMore(topo, nprocs, avail, n).value, node, n)
  {
    hide NextCpu, Lookup, OnNode, Choice, Local, Known, CachesWithinNodes, Take;
    if n == 0 {
      FirstLocal(topo, nprocs, avail, node);
    } else {
      ShareLocal(topo, nprocs, avail, n - 1, node);
      TakeMoves(topo, nprocs, avail, n - 1);
      NextLocal(topo, nprocs, avail, TakeMore(topo, nprocs, avail, n - 1).value, node, n);
    }
  }

  lemma FirstLocal(topo: Topology, nprocs: nat, avail: CpuSet, node: int)
    requires LocalInput(topo, nprocs, avail) && avail != {} && OnNode(topo, FirstCpu(avail), node)
    ensures Local(topo, avail, Take(Taking(avail, {}, 0), FirstCpu(avail)), node, 0)
  {
    hide NextCpu, Lookup, OnNode;
    FirstCpuFree(avail);
    TakeLocal(topo, avail, Taking(avail, {}, 0), FirstCpu(avail), node);
  }

  lemma NextLocal(topo: Topology, nprocs: nat, avail: CpuSet, s: Taking, node: int, n: nat)
    requires LocalInput(topo, nprocs, avail) && n > 0 && Local(topo, avail, s, node, n - 1)
    requires s.avail <= avail && n < |FreeOn(topo, avail, node)|
    requires nprocs <= CPU_SETSIZE && Choice(topo, nprocs, s.avail, s.prev).Some?
    ensures Local(topo, avail, Take(s, Choice(topo, nprocs, s.avail, s.prev).value), node, n)
  {
    hide NextCpu, Lookup, OnNode, Choice;
    var c := Choice(topo, nprocs, s.avail, s.prev).value;
    var free :| free in FreeOn(topo, s.avail, node);
    assert free < nprocs;
    ChoiceIsFree(topo, nprocs, s.avail, s.prev);
    ChoiceStaysOnNode(topo, nprocs, s.avail, s.prev, node);
    TakeLocal(topo, avail, s, c, node);
  }

  ghost predicate Divisible(topo: Topology, avail: CpuSet, q: nat)
    requires q > 0
  {
    forall node :: |FreeOn(topo, avail, node)| % q == 0
  }

  ghost predicate OnOneNode(topo: Topology, avail: CpuSet, share: CpuSet) {
    exists node :: share <= FreeOn(topo, avail, node)
  }

  // If each node has a multiple of the quota, every process stays on one node
  lemma {:induction false} DivideLocal(topo: Topology, nprocs: nat, avail: CpuSet, q: nat, n: nat)
    requires LocalInput(topo, nprocs, avail) && q >= 1 && n * q <= |avail| && Divisible(topo, avail, q)
    ensures
      var d := Divide(topo, nprocs, avail, q, n);
      Divisible(topo, d.avail, q) && forall r | 0 <= r < |d.shares| :: OnOneNode(topo, avail, d.shares[r])
  {
    hide ShareOf, Lookup, OnOneNode, Divisible, FreeOn, CachesWithinNodes, Known;
    if n == 0 {
    } else {
      OneLess(n, q);
      DivideLocal(topo, nprocs, avail, q, n - 1);
      DivideCounts(topo, nprocs, avail, q, n - 1);
      DivideConserves(topo, nprocs, avail, q, n - 1);
      var d := Divide(topo, nprocs, avail, q, n - 1);
      if d.ok && ShareOf(topo, nprocs, d.avail, q).Some? {
        LocalInputShrinks(topo, nprocs, avail, d.avail);
        OneLocalShare(topo, nprocs, avail, d.avail, q);
      }
    }
  }

  lemma LocalInputShrinks(topo: Topology, nprocs: nat, avail: CpuSet, rest: CpuSet)
    requires LocalInput(topo, nprocs, avail) && rest <= avail
    ensures LocalInput(topo, nprocs, rest)
  {
    hide Lookup, OnNode;
  }

  lemma OneLocalShare(topo: Topology, nprocs: nat, all: CpuSet, avail: CpuSet, q: nat)
    requires nprocs <= CPU_SETSIZE && LocalInput(topo, nprocs, avail) && avail <= all
    requires 1 <= q <= |avail| && Divisible(topo, avail, q)
    requires ShareOf(topo, nprocs, avail, q).Some?
    ensures Divisible(topo, ShareOf(topo, nprocs, avail, q).value.avail, q)
    ensures OnOneNode(topo, all, ShareOf(topo, nprocs, avail, q).value.use)
  {
    hide Lookup, OnNode, TakeMore, Divisible, LocalInput;
    var s := ShareOf(topo, nprocs, avail, q).value;
    var node := FirstNode(topo, nprocs, avail, q);
    ShareLocal(topo, nprocs, avail, q - 1, node);
    LessOneShare(topo, avail, s.avail, node, q);
    assert s.use <= FreeOn(topo, all, node);
  }

  // The node of the first free CPU has at least a quota of free CPUs
  lemma FirstNode(topo: Topology, nprocs: nat, avail: CpuSet, q: nat) returns (node: int)
    requires LocalInput(topo, nprocs, avail) && q >= 1 && |avail| >= q && Divisible(topo, avail, q)
    ensures OnNode(topo, FirstCpu(avail), node) && |FreeOn(topo, avail, node)| >= q
  {
    hide NextCpu, Lookup;
    FirstCpuFree(avail);
    var c := FirstCpu(avail);
    node := Lookup(topo, c).value.nodeId;
    assert c in FreeOn(topo, avail, node);
    SmallMultiple(|FreeOn(topo, avail, node)|, q);
  }

  lemma SmallMultiple(m: nat, q: nat)
    requires q > 0 && m % q == 0 && m > 0
    ensures m >= q
  {
  }

  lemma LessOneShare(topo: Topology, avail: CpuSet, rest: CpuSet, node: int, q: nat)
    requires q > 0 && Divisible(topo, avail, q)
    requires |FreeOn(topo, rest, node)| == |FreeOn(topo, avail, node)| - q
    requires forall m | m != node :: FreeOn(topo, rest, m) == FreeOn(topo, avail, m)
    ensures Divisible(topo, rest, q)
  {
    hide FreeOn;
    StillMultiple(|FreeOn(topo, avail, node)|, q);
  }

  lemma StillMultiple(m: nat, q: nat)
    requires q > 0 && m % q == 0 && m >= q
    ensures (m - q) % q == 0
  {
    var k := m / q;
    assert m == q * k;
    assert m - q == q * (k - 1);
    QuotientAndRemainder(m - q, q, k - 1, 0);
  }
}
