/**
  The rendezvous of mpipin, as a state machine whose steps are the intervals in
  which one process holds the lock. The waiting list is a sequence of process ids.

  Processes attach to the shared region (main), arrive in pin_process, and either
  go on at once or wait; a waiter resumes when it is woken, or times out.
 */
module Rendezvous {
  import opened Errors
  import opened Ordinals
  import opened Partition

  const MAX_PROCESSES: nat := 1024

  type Pid = nat

  // What is fixed during a run; topo is None if collecting the topology fails
  datatype Config = Config(ppn: nat, nprocs: nat, topo: Option<Topology>)

  ghost predicate ValidConfig(c: Config) {
    2 <= c.ppn <= MAX_PROCESSES && c.nprocs <= CPU_SETSIZE
  }

  // What has become of a process that called pin_process
  datatype Fate = Waiting(ready: bool, timeout: bool) | Done(ret: int)

  datatype Phase = Gathering | Releasing(running: Pid) | Finished | Stuck | Aborted

  datatype State = State(
    // the fields of part_exec
    nrProcesses: int, nrLeft: int, nrLeftInInit: int, rank: int, avail: CpuSet, quota: int,
    queue: seq<Pid>, shares: seq<CpuSet>,
    // the processes: attached to the region, counted in by pin_process, and their CPUs
    attached: set<Pid>, joined: set<Pid>, fates: map<Pid, Fate>, bound: map<Pid, CpuSet>,
    // history: the phase, what the attachers brought, and the set the quota was computed from
    phase: Phase, offered: CpuSet, discovered: CpuSet, excluded: CpuSet, initial: CpuSet)

  const START := State(-1, -1, 0, 0, {}, 0, [], [], {}, {}, map[], map[], Gathering, {}, {}, {}, {})

  datatype Event =
    | Attach(pid: Pid, allowed: CpuSet, exclude: CpuSet, movable: CpuSet)
    | Arrive(pid: Pid, ppn: nat)
    | Resume(pid: Pid)
    | TimeOut(pid: Pid)

  // ---------- main: joining the shared region ----------

  // The CPUs the last process finds it can move to
  function Discover(nprocs: nat, avail: CpuSet, exclude: CpuSet, movable: CpuSet): CpuSet {
    Prefix(movable, nprocs) - exclude - avail
  }

  function AttachStep(c: Config, s: State, pid: Pid, allowed: CpuSet, exclude: CpuSet, movable: CpuSet): State
    requires c.ppn > 0
  {
    if s.attached == {} then
      s.(attached := {pid}, nrProcesses := -1, nrLeft := -1, queue := [], nrLeftInInit := c.ppn - 1,
      avail := allowed, offered := allowed)
    else
      var more := Prefix(allowed, c.nprocs);
      var t := s.(attached := s.attached + {pid}, avail := s.avail + more, nrLeftInInit := s.nrLeftInInit - 1,
                  offered := s.offered + more);
      if t.nrLeftInInit != 0 then t
      else
        var found := Discover(c.nprocs, t.avail, exclude, movable);
        var avail := (t.avail + found) - Prefix(exclude, c.nprocs);
        t.(avail := avail, quota := |avail| / c.ppn, discovered := found, excluded := exclude, initial := avail)
  }

  // ---------- pin_process ----------

  // Insertion in the order of process ids, after an equal one
  function Insert(queue: seq<Pid>, pid: Pid): seq<Pid> {
    if queue == [] then [pid]
    else if queue[0] > pid then [pid] + queue
    else [queue[0]] + Insert(queue[1..], pid)
  }

  // Wake the first waiter, which becomes the running process
  function WakeFirst(s: State): State {
    if s.queue == [] then s
    else
      var next := s.queue[0];
      s.(queue := s.queue[1..], fates := s.fates[next := Waiting(true, false)], phase := Releasing(next))
  }

  // abort_all: every listed process but this one is woken and told of the timeout
  function AbortAll(s: State, pid: Pid): State {
    var told := map p | p in s.fates :: if p in s.queue then Waiting(true, true) else s.fates[p];
    s.(fates := told[pid := Done(-ETIMEDOUT)], queue := [], nrProcesses := -1, phase := Aborted)
  }

  // Take the next rank, after passing the token on
  function TakeRank(s: State, pid: Pid): State {
    var t := if s.nrLeft == 0 then s.(nrProcesses := -1, avail := {}, phase := Finished) else WakeFirst(s);
    var cpus := if 0 <= s.rank < |s.shares| then s.shares[s.rank] else {};
    t.(fates := t.fates[pid := Done(s.rank)], bound := t.bound[pid := cpus], rank := s.rank + 1)
  }

  // What a released process does; the first one partitions the CPUs
  function Proceed(c: Config, s: State, pid: Pid): State
    requires c.nprocs <= CPU_SETSIZE
  {
    var t := s.(nrLeft := s.nrLeft - 1);
    if t.rank != 0 then TakeRank(t, pid)
    else if c.topo.None? then AbortAll(t, pid)
    else
      var n := if t.nrProcesses >= 0 then t.nrProcesses else 0;
      var d := Divide(c.topo.value, c.nprocs, t.avail, t.quota, n);
      var u := t.(avail := d.avail, shares := d.shares);
      if d.ok then TakeRank(u, pid)
      else u.(rank := |d.shares|, fates := u.fates[pid := Done(-EINVAL)], phase := Stuck)
  }

  function ArriveStep(c: Config, s: State, pid: Pid, ppn: nat): State
    requires c.nprocs <= CPU_SETSIZE
  {
    var t := if s.nrProcesses == -1 then s.(nrProcesses := ppn, nrLeft := ppn) else s;
    if t.nrProcesses != ppn then t.(fates := t.fates[pid := Done(-EINVAL)])
    else
      var u := t.(nrLeft := t.nrLeft - 1, queue := Insert(t.queue, pid), joined := t.joined + {pid},
                  fates := t.fates[pid := Waiting(false, false)]);
      if u.nrLeft != 0 then u
      else
        var v := WakeFirst(u).(nrLeft := u.nrProcesses, rank := 0);
        if u.queue != [] && u.queue[0] == pid then Proceed(c, v, pid) else v
  }

  function ResumeStep(c: Config, s: State, pid: Pid): State
    requires c.nprocs <= CPU_SETSIZE && pid in s.fates && s.fates[pid].Waiting?
  {
    if s.fates[pid].timeout then s.(fates := s.fates[pid := Done(-ETIMEDOUT)])
    else if !s.fates[pid].ready then s.(fates := s.fates[pid := Done(-EINVAL)])
    else Proceed(c, s, pid)
  }

  // ---------- runs ----------

  // What may happen next: at most ppn processes, no spurious wake-up, and
  // no timeout while a process has been released but has not yet returned
  ghost predicate Enabled(c: Config, s: State, e: Event) {
    match e
    case Attach(pid, allowed, exclude, movable) =>
      pid > 0 && pid !in s.attached && |s.attached| < c.ppn && IsCpuSet(allowed)
    case Arrive(pid, ppn) =>
      pid in s.attached && pid !in s.fates && (s.nrProcesses == -1 ==> ppn == c.ppn)
    case Resume(pid) =>
      pid in s.fates && s.fates[pid].Waiting? && s.fates[pid].ready
    case TimeOut(pid) =>
      pid in s.fates && s.fates[pid].Waiting? && !s.phase.Releasing?
  }

  function Next(c: Config, s: State, e: Event): State
    requires c.ppn > 0 && c.nprocs <= CPU_SETSIZE
    requires e.Resume? ==> e.pid in s.fates && s.fates[e.pid].Waiting?
  {
    match e
    case Attach(pid, allowed, exclude, movable) => AttachStep(c, s, pid, allowed, exclude, movable)
    case Arrive(pid, ppn) => ArriveStep(c, s, pid, ppn)
    case Resume(pid) => ResumeStep(c, s, pid)
    case TimeOut(pid) => AbortAll(s, pid)
  }

  ghost predicate Run(c: Config, states: seq<State>, events: seq<Event>) {
    && ValidConfig(c) && |states| == |events| + 1 && states[0] == START
    && forall i | 0 <= i < |events| ::
         Enabled(c, states[i], events[i]) && states[i + 1] == Next(c, states[i], events[i])
  }

  // ---------- what every step keeps ----------

  ghost predicate Sorted(queue: seq<Pid>) {
    forall i, j | 0 <= i < j < |queue| :: queue[i] < queue[j]
  }

  ghost predicate AllWaiting(s: State) {
    forall p | p in s.queue :: p in s.fates && s.fates[p] == Waiting(false, false)
  }

  ghost predicate NoRank(s: State) {
    forall p | p in s.fates && s.fates[p].Done? :: s.fates[p].ret < 0
  }

  // The sets of processes and the waiting list
  ghost predicate Membership(c: Config, s: State) {
    && s.joined <= s.fates.Keys <= s.attached && |s.attached| <= c.ppn
    && (forall p | p in s.attached :: p > 0)
    && Sorted(s.queue) && (forall p | p in s.queue :: p in s.joined) && AllWaiting(s)
    && (forall p | p in s.fates && p !in s.joined :: s.fates[p] == Done(-EINVAL))
  }

  // The CPU sets before partitioning
  ghost predicate Gathered(c: Config, s: State)
    requires c.ppn > 0
  {
    && IsCpuSet(s.offered) && (s.attached != {} ==> s.nrLeftInInit == c.ppn - |s.attached|)
    && (|s.attached| < c.ppn ==> s.avail == s.offered)
    && (|s.attached| == c.ppn ==>
          && s.initial == (s.offered + s.discovered) - Prefix(s.excluded, c.nprocs)
          && s.quota == |s.initial| / c.ppn
          && s.discovered == Prefix(s.discovered, c.nprocs))
  }

  // The ranks already returned, and the CPUs that go with them
  ghost predicate RanksGiven(c: Config, s: State) {
    && (forall p | p in s.fates && s.fates[p].Done? && s.fates[p].ret >= 0 ::
          p in s.joined && s.fates[p].ret == CountBelow(s.joined, p) < |s.shares|
          && p in s.bound && s.bound[p] == s.shares[s.fates[p].ret])
    && (c.topo.Some? && c.nprocs <= CPU_SETSIZE && s.shares != [] ==>
          var d := Divide(c.topo.value, c.nprocs, s.initial, s.quota, c.ppn);
          d.ok && s.shares == d.shares)
  }

  ghost predicate PhaseInv(c: Config, s: State)
    requires s.joined <= s.fates.Keys
  {
    match s.phase
    case Gathering =>
      && (forall p | p in s.joined :: p in s.queue) && |s.queue| == |s.joined| < c.ppn
      && (if s.queue == [] then s.nrProcesses == -1 else s.nrProcesses == c.ppn && s.nrLeft == c.ppn - |s.queue|)
      && NoRank(s) && s.shares == []
      && (|s.attached| == c.ppn ==> s.avail == s.initial)
    case Releasing(running) =>
      && |s.joined| == c.ppn && s.nrProcesses == c.ppn
      && s.nrLeft == |s.queue| + 1 && s.rank == c.ppn - s.nrLeft >= 0
      && running in s.joined && s.fates[running] == Waiting(true, false)
      && CountBelow(s.joined, running) == s.rank
      && (forall p | p in s.queue :: running < p)
      && (forall p | p in s.joined && p != running && p !in s.queue ::
            p < running && s.fates[p].Done? && s.fates[p].ret >= 0)
      && RanksGiven(c, s)
      && (if s.rank == 0 then s.avail == s.initial && s.shares == []
          else |s.shares| == c.ppn && c.topo.Some? && s.avail == s.initial - UnionOf(s.shares))
    case Finished =>
      && |s.joined| == c.ppn && s.queue == [] && s.nrProcesses == -1
      && (forall p | p in s.joined :: s.fates[p].Done? && s.fates[p].ret >= 0)
      && RanksGiven(c, s) && |s.shares| == c.ppn && c.topo.Some? && s.avail == {}
    case Stuck =>
      && |s.joined| == c.ppn && NoRank(s) && c.topo.Some?
      && (forall p | p in s.joined && p !in s.queue :: s.fates[p] == Done(-EINVAL))
    case Aborted =>
      && NoRank(s) && |s.queue| < |s.joined|
      && (forall p | p in s.fates && s.fates[p].Waiting? && s.fates[p].ready :: s.fates[p].timeout)
      && (forall p | p in s.joined && p !in s.queue && s.fates[p].Waiting? :: s.fates[p].ready)
      && (if s.nrProcesses == -1 then s.queue == [] else s.nrProcesses == c.ppn && s.nrLeft == c.ppn - |s.queue|)
  }

  ghost predicate Inv(c: Config, s: State) {
    ValidConfig(c) && Membership(c, s) && Gathered(c, s) && PhaseInv(c, s)
  }

  lemma {:induction false} InsertSorted(queue: seq<Pid>, pid: Pid)
    requires Sorted(queue) && pid !in queue
    ensures Sorted(Insert(queue, pid)) && |Insert(queue, pid)| == |queue| + 1
    ensures forall p :: p in Insert(queue, pid) <==> p == pid || p in queue
  {
    if queue == [] {
    } else if queue[0] > pid {
      var all := [pid] + queue;
      assert forall p :: p in all <==> p == pid || p in queue;
    } else {
      var rest := queue[1..];
      InsertSorted(rest, pid);
      var inner := Insert(rest, pid);
      var all := [queue[0]] + inner;
      assert forall p :: p in queue <==> p == queue[0] || p in rest;
      assert forall p :: p in all <==> p == queue[0] || p in inner;
      forall j | 0 <= j < |inner|
        ensures queue[0] < inner[j]
      {
        assert inner[j] in inner;
        if inner[j] in rest {
          var k :| 0 <= k < |rest| && rest[k] == inner[j];
          assert queue[k + 1] == inner[j];
        }
      }
    }
  }

  lemma SubsetOfSameSize(s: set<Pid>, t: set<Pid>)
    requires s <= t && |t| <= |s|
    ensures s == t
  {
    if !(t <= s) {
      var p :| p in t && p !in s;
      Larger(s + {p}, t);
    }
  }

  lemma Larger(s: set<Pid>, t: set<Pid>)
    requires s <= t
    ensures |s| <= |t|
  {
    assert |t| == |s| + |t - s|;
  }

  lemma TailSorted(queue: seq<Pid>)
    requires Sorted(queue) && queue != []
    ensures Sorted(queue[1..])
    ensures forall p | p in queue[1..] :: queue[0] < p && p in queue
    ensures forall p | p in queue :: p == queue[0] || p in queue[1..]
  {
    var rest := queue[1..];
    forall p | p in rest
      ensures queue[0] < p && p in queue
    {
      var k :| 0 <= k < |rest| && rest[k] == p;
      assert queue[k + 1] == p;
    }
  }

  // ---------- keeping the membership ----------

  lemma WakeMembership(c: Config, s: State)
    requires Membership(c, s) && s.queue != []
    ensures Membership(c, WakeFirst(s)) && s.queue[0] in s.joined
    ensures WakeFirst(s).fates.Keys == s.fates.Keys
  {
    TailSorted(s.queue);
    assert s.queue[0] in s.queue;
    var t := WakeFirst(s);
    assert t.fates.Keys == s.fates.Keys;
    forall p | p in t.queue
      ensures p in t.joined && p in t.fates && t.fates[p] == Waiting(false, false)
    {
      assert p in s.queue;
    }
  }

  lemma FateMembership(c: Config, s: State, t: State, pid: Pid)
    requires Membership(c, s) && pid in s.joined && pid !in s.queue
    requires t.joined == s.joined && t.attached == s.attached && t.queue == s.queue
    requires pid in t.fates && t.fates == s.fates[pid := t.fates[pid]]
    ensures Membership(c, t) && t.fates.Keys == s.fates.Keys
  {
    assert t.fates.Keys == s.fates.Keys;
  }

  lemma SameMembership(c: Config, s: State, t: State)
    requires Membership(c, s)
    requires t.joined == s.joined && t.attached == s.attached && t.queue == s.queue && t.fates == s.fates
    ensures Membership(c, t)
  {
  }

  // ---------- attaching ----------

  lemma AttachKeepsInv(c: Config, s: State, e: Event)
    requires Inv(c, s) && e.Attach? && Enabled(c, s, e)
    ensures Inv(c, Next(c, s, e))
  {
    hide Membership, Gathered, PhaseInv, Next;
    AttachMembership(c, s, e);
    AttachGathered(c, s, e);
    AttachPhase(c, s, e);
  }

  lemma HasElement(queue: seq<Pid>)
    requires queue != []
    ensures exists p :: p in queue
  {
    assert queue[0] in queue;
  }

  lemma NobodyAttached(c: Config, s: State)
    requires Membership(c, s) && s.attached == {}
    ensures s.joined == {} && s.fates == map[] && s.queue == []
  {
    assert s.fates.Keys == {};
    assert s.joined == {};
    if s.queue != [] {
      HasElement(s.queue);
    }
  }

  lemma AttachMembership(c: Config, s: State, e: Event)
    requires Inv(c, s) && e.Attach? && Enabled(c, s, e)
    ensures Membership(c, Next(c, s, e))
  {
    hide Gathered, PhaseInv;
    var t := Next(c, s, e);
    assert t.attached == s.attached + {e.pid};
    if s.attached == {} {
      NobodyAttached(c, s);
    }
  }

  lemma AttachGathered(c: Config, s: State, e: Event)
    requires Inv(c, s) && e.Attach? && Enabled(c, s, e)
    ensures Gathered(c, Next(c, s, e))
  {
    hide PhaseInv, Membership;
    assert |s.attached + {e.pid}| == |s.attached| + 1;
  }

  lemma AttachPhase(c: Config, s: State, e: Event)
    requires Inv(c, s) && e.Attach? && Enabled(c, s, e)
    ensures s.joined <= Next(c, s, e).fates.Keys && PhaseInv(c, Next(c, s, e))
  {
    hide RanksGiven, CountBelow;
    Larger(s.joined, s.attached);
    assert s.phase.Gathering? || s.phase.Aborted?;
    AttachKeeps(c, s, e);
    hide Gathered, Next, Membership;
  }

  // Attaching changes nothing that the phases before partitioning speak of, but the available set
  lemma AttachKeeps(c: Config, s: State, e: Event)
    requires Inv(c, s) && e.Attach? && Enabled(c, s, e) && (s.phase.Gathering? || s.phase.Aborted?)
    ensures
      var t := Next(c, s, e);
      && t.queue == s.queue && t.fates == s.fates && t.joined == s.joined && t.phase == s.phase
      && t.shares == s.shares && t.nrProcesses == s.nrProcesses && (t.nrProcesses != -1 ==> t.nrLeft == s.nrLeft)
      && (|t.attached| == c.ppn ==> t.avail == t.initial)
  {
    hide RanksGiven, CountBelow;
    assert |s.attached + {e.pid}| == |s.attached| + 1;
    if s.attached == {} {
      NobodyAttached(c, s);
    }
  }

  // ---------- timing out ----------

  // No process is left with a rank or about to get one
  ghost predicate Abortable(c: Config, s: State, pid: Pid) {
    && ValidConfig(c) && Membership(c, s) && Gathered(c, s) && NoRank(s)
    && pid in s.joined
    && (forall p | p in s.fates && p != pid && s.fates[p].Waiting? && s.fates[p].ready :: s.fates[p].timeout)
    && (forall p | p in s.joined && p !in s.queue && p != pid && s.fates[p].Waiting? :: s.fates[p].ready)
  }

  lemma AbortKeepsInv(c: Config, s: State, pid: Pid)
    requires Abortable(c, s, pid)
    ensures Inv(c, AbortAll(s, pid))
  {
    hide RanksGiven, Gathered;
    var t := AbortAll(s, pid);
    GatheredSame(c, s, t);
    assert |t.joined| > 0;
    forall p | p in t.fates && t.fates[p].Done?
      ensures t.fates[p].ret < 0
    {
    }
  }

  // Gathered speaks only of what main leaves behind
  lemma GatheredSame(c: Config, s: State, t: State)
    requires c.ppn > 0 && Gathered(c, s)
    requires t.attached == s.attached && t.offered == s.offered && t.discovered == s.discovered
    requires t.excluded == s.excluded && t.initial == s.initial && t.quota == s.quota
    requires t.nrLeftInInit == s.nrLeftInInit && (t.avail == s.avail || |s.attached| >= c.ppn)
    ensures Gathered(c, t)
  {
  }

  lemma TimeOutKeepsInv(c: Config, s: State, e: Event)
    requires Inv(c, s) && e.TimeOut? && Enabled(c, s, e)
    ensures Inv(c, Next(c, s, e))
    ensures Next(c, s, e).phase.Aborted?
  {
    hide RanksGiven, Gathered;
    AbortKeepsInv(c, s, e.pid);
  }

  // ---------- taking a rank ----------

  // The released process has partitioned, or found the shares, and is next in order
  ghost predicate AboutToTake(c: Config, s: State, pid: Pid) {
    && ValidConfig(c) && Membership(c, s) && Gathered(c, s)
    && |s.joined| == c.ppn && s.nrProcesses == c.ppn
    && s.nrLeft == |s.queue| && s.rank == c.ppn - s.nrLeft - 1 >= 0
    && pid in s.joined && pid !in s.queue && CountBelow(s.joined, pid) == s.rank
    && (forall p | p in s.queue :: pid < p)
    && (forall p | p in s.joined && p != pid && p !in s.queue ::
          p < pid && s.fates[p].Done? && s.fates[p].ret >= 0)
    && RanksGiven(c, s) && |s.shares| == c.ppn && c.topo.Some? && s.avail == s.initial - UnionOf(s.shares)
  }

  lemma TakeRankKeepsInv(c: Config, s: State, pid: Pid)
    requires AboutToTake(c, s, pid)
    ensures Inv(c, TakeRank(s, pid))
  {
    hide Membership, PhaseInv, Gathered, TakeRank, CountBelow, RanksGiven;
    TakeRankMembership(c, s, pid);
    TakeRankPhase(c, s, pid);
  }

  lemma TakeRankMembership(c: Config, s: State, pid: Pid)
    requires AboutToTake(c, s, pid)
    ensures Membership(c, TakeRank(s, pid)) && Gathered(c, TakeRank(s, pid))
  {
    hide Gathered, CountBelow, RanksGiven, Membership, WakeFirst;
    var t := TakeRank(s, pid);
    AllAttached(c, s);
    if s.nrLeft == 0 {
      FateMembership(c, s, t, pid);
      GatheredSame(c, s, t);
    } else {
      WakeMembership(c, s);
      var w := WakeFirst(s);
      WakeShape(s);
      TailSubset(s.queue);
      FateMembership(c, w, t, pid);
      WakeGathered(c, s);
      GatheredSame(c, w, t);
    }
  }

  lemma WakeShape(s: State)
    requires s.queue != []
    ensures
      var w := WakeFirst(s);
      && w.queue == s.queue[1..] && w.joined == s.joined && w.attached == s.attached
      && w.phase == Releasing(s.queue[0])
  {
  }

  lemma TailSubset(queue: seq<Pid>)
    requires queue != []
    ensures forall p | p in queue[1..] :: p in queue
  {
  }

  lemma WakeGathered(c: Config, s: State)
    requires c.ppn > 0 && Gathered(c, s)
    ensures Gathered(c, WakeFirst(s))
  {
    hide Gathered;
    GatheredSame(c, s, WakeFirst(s));
  }

  lemma AllAttached(c: Config, s: State)
    requires Membership(c, s) && |s.joined| == c.ppn
    ensures s.joined == s.attached
  {
    SubsetOfSameSize(s.joined, s.attached);
  }

  lemma TakeRankPhase(c: Config, s: State, pid: Pid)
    requires AboutToTake(c, s, pid)
    ensures s.joined <= TakeRank(s, pid).fates.Keys && PhaseInv(c, TakeRank(s, pid))
  {
    hide Gathered, CountBelow, RanksGiven;
    RanksStillGiven(c, s, pid);
    if s.nrLeft == 0 {
      assert s.queue == [];
    } else {
      TailSorted(s.queue);
      NextInOrder(s.joined, pid, s.queue[0]);
    }
  }

  // The next waiter is the next process in the order of ids
  lemma NextInOrder(joined: set<Pid>, pid: Pid, next: Pid)
    requires pid in joined && next in joined && pid < next
    requires forall p | p in joined :: p <= pid || next <= p
    ensures CountBelow(joined, next) == CountBelow(joined, pid) + 1
  {
    CountSkips(joined, pid + 1, next);
  }

  lemma RanksStillGiven(c: Config, s: State, pid: Pid)
    requires AboutToTake(c, s, pid)
    ensures RanksGiven(c, TakeRank(s, pid))
  {
    hide Gathered, CountBelow;
    PositionOfOrdinal(s.joined, pid);
    var t := TakeRank(s, pid);
    forall p | p in t.fates && t.fates[p].Done? && t.fates[p].ret >= 0
      ensures p in t.joined && t.fates[p].ret == CountBelow(t.joined, p) < |t.shares|
        && p in t.bound && t.bound[p] == t.shares[t.fates[p].ret]
    {
      if p != pid {
        assert s.fates[p] == t.fates[p];
      }
    }
  }

  // ---------- proceeding ----------

  ghost predicate Released(c: Config, s: State, pid: Pid) {
    ValidConfig(c) && Membership(c, s) && Gathered(c, s) && s.phase == Releasing(pid) && PhaseInv(c, s)
  }

  // After the first process, the shares are known
  lemma LaterTakes(c: Config, s: State, pid: Pid)
    requires Released(c, s, pid) && s.rank != 0
    ensures AboutToTake(c, s.(nrLeft := s.nrLeft - 1), pid)
  {
    hide Gathered, CountBelow;
    GatheredSame(c, s, s.(nrLeft := s.nrLeft - 1));
  }

  lemma ProceedKeepsInv(c: Config, s: State, pid: Pid)
    requires Released(c, s, pid)
    ensures Inv(c, Proceed(c, s, pid))
  {
    hide Gathered, CountBelow;
    SubsetOfSameSize(s.joined, s.attached);
    var t := s.(nrLeft := s.nrLeft - 1);
    if t.rank != 0 {
      LaterTakes(c, s, pid);
      TakeRankKeepsInv(c, t, pid);
    } else {
      FirstReleased(c, s, pid);
      if c.topo.None? {
        GatheredSame(c, s, t);
        AbortKeepsInv(c, t, pid);
      } else {
        PartitionKeepsInv(c, s, pid);
      }
    }
  }

  // When no rank has been returned yet, everyone else is still listed
  lemma FirstReleased(c: Config, s: State, pid: Pid)
    requires Released(c, s, pid) && s.rank == 0
    ensures NoRank(s) && forall p | p in s.joined && p != pid :: p in s.queue
  {
    hide Gathered, CountBelow;
    forall p | p in s.joined && p != pid
      ensures p in s.queue
    {
      if p !in s.queue {
        CountMonotone(s.joined, p, pid);
      }
    }
  }

  // After partitioning, the first process takes the first rank
  lemma PartitionedTakes(c: Config, s: State, u: State, pid: Pid)
    requires Released(c, s, pid) && s.rank == 0 && c.topo.Some?
    requires
      var d := Divide(c.topo.value, c.nprocs, s.avail, s.quota, c.ppn);
      d.ok && u == s.(nrLeft := s.nrLeft - 1, avail := d.avail, shares := d.shares)
    ensures AboutToTake(c, u, pid)
  {
    hide Gathered, CountBelow, Divide, UnionOf;
    FirstReleased(c, s, pid);
    SubsetOfSameSize(s.joined, s.attached);
    GatheredSame(c, s, u);
    QuotaKnown(c, s);
    InitialIsCpuSet(c, s);
    DivideConserves(c.topo.value, c.nprocs, s.avail, s.quota, c.ppn);
  }

  lemma PartitionKeepsInv(c: Config, s: State, pid: Pid)
    requires Released(c, s, pid) && s.rank == 0 && c.topo.Some?
    ensures Inv(c, Proceed(c, s, pid))
  {
    hide Gathered, CountBelow, Divide;
    FirstReleased(c, s, pid);
    SubsetOfSameSize(s.joined, s.attached);
    var d := Divide(c.topo.value, c.nprocs, s.avail, s.quota, c.ppn);
    var u := s.(nrLeft := s.nrLeft - 1, avail := d.avail, shares := d.shares);
    if d.ok {
      PartitionedTakes(c, s, u, pid);
      TakeRankKeepsInv(c, u, pid);
    } else {
      GatheredSame(c, s, u);
      var v := u.(rank := |d.shares|, fates := u.fates[pid := Done(-EINVAL)], phase := Stuck);
      assert v == Proceed(c, s, pid);
      GatheredSame(c, u, v);
    }
  }

  lemma InitialIsCpuSet(c: Config, s: State)
    requires c.ppn > 0 && c.nprocs <= CPU_SETSIZE && Gathered(c, s) && |s.attached| == c.ppn
    ensures IsCpuSet(s.initial)
  {
    forall i | i in s.discovered
      ensures i < CPU_SETSIZE
    {
      assert i in Prefix(s.discovered, c.nprocs);
    }
  }

  lemma QuotaKnown(c: Config, s: State)
    requires c.ppn > 0 && Gathered(c, s) && |s.attached| == c.ppn
    ensures s.quota == |s.initial| / c.ppn
  {
  }

  lemma ResumeKeepsInv(c: Config, s: State, e: Event)
    requires Inv(c, s) && e.Resume? && Enabled(c, s, e)
    ensures Inv(c, Next(c, s, e))
  {
    hide Gathered, CountBelow;
    var pid := e.pid;
    if s.fates[pid].timeout {
      var t := Next(c, s, e);
      GatheredSame(c, s, t);
    } else {
      assert s.phase == Releasing(pid);
      ProceedKeepsInv(c, s, pid);
    }
  }

  // ---------- arriving ----------

  // s after pid has counted itself in and entered the list
  ghost predicate CountedIn(c: Config, s: State, u: State, pid: Pid) {
    && Inv(c, s) && (s.phase.Gathering? || s.phase.Aborted?) && pid in s.attached && pid !in s.fates
    && u == s.(nrProcesses := c.ppn, nrLeft := u.nrLeft, queue := Insert(s.queue, pid),
               joined := s.joined + {pid}, fates := s.fates[pid := Waiting(false, false)])
    && u.nrLeft == (if s.nrProcesses == -1 then c.ppn else s.nrLeft) - 1
  }

  lemma ArriveKeepsInv(c: Config, s: State, e: Event)
    requires Inv(c, s) && e.Arrive? && Enabled(c, s, e)
    ensures Inv(c, Next(c, s, e))
  {
    hide Gathered, CountBelow, RanksGiven, Proceed, WakeFirst, Insert;
    var pid := e.pid;
    NotYetReleased(c, s, pid);
    if s.nrProcesses != -1 && s.nrProcesses != e.ppn {
      Mismatched(c, s, e);
    } else {
      var u := s.(nrProcesses := c.ppn, nrLeft := (if s.nrProcesses == -1 then c.ppn else s.nrLeft) - 1,
                  queue := Insert(s.queue, pid), joined := s.joined + {pid},
                  fates := s.fates[pid := Waiting(false, false)]);
      assert e.ppn == c.ppn;
      hide Membership, PhaseInv, Inv;
      CountedNotEmpty(c, s, u, pid);
      if u.nrLeft != 0 {
        Counted(c, s, u, pid);
      } else {
        LastArrival(c, s, u, pid);
      }
    }
  }

  lemma CountedNotEmpty(c: Config, s: State, u: State, pid: Pid)
    requires CountedIn(c, s, u, pid)
    ensures u.queue != []
  {
    hide Inv;
  }

  // A process that has not called yet leaves room, so the last arrival is still to come
  lemma NotYetReleased(c: Config, s: State, pid: Pid)
    requires Inv(c, s) && pid in s.attached && pid !in s.fates
    ensures |s.joined| < c.ppn && (s.phase.Gathering? || s.phase.Aborted?)
    ensures s.nrProcesses == -1 || s.nrProcesses == c.ppn
  {
    hide Gathered, CountBelow, RanksGiven;
    Larger(s.joined + {pid}, s.attached);
  }

  lemma Mismatched(c: Config, s: State, e: Event)
    requires Inv(c, s) && e.Arrive? && Enabled(c, s, e) && s.nrProcesses != -1 && s.nrProcesses != e.ppn
    requires s.phase.Gathering? || s.phase.Aborted?
    ensures Inv(c, Next(c, s, e))
  {
    hide CountBelow, RanksGiven, Proceed, WakeFirst, Insert, Gathered;
    GatheredSame(c, s, Next(c, s, e));
  }

  lemma CountedMembership(c: Config, s: State, u: State, pid: Pid)
    requires CountedIn(c, s, u, pid)
    ensures Membership(c, u) && Gathered(c, u)
    ensures |u.queue| == |s.queue| + 1 && |u.joined| == |s.joined| + 1 <= c.ppn && u.queue != []
    ensures forall p :: p in u.queue <==> p == pid || p in s.queue
  {
    hide Gathered, PhaseInv, Insert, CountBelow, Membership;
    NotYetReleased(c, s, pid);
    GatheredSame(c, s, u);
    NewMembership(c, s, u, pid);
  }

  lemma NewMembership(c: Config, s: State, u: State, pid: Pid)
    requires Membership(c, s) && pid in s.attached && pid !in s.fates
    requires u.queue == Insert(s.queue, pid) && u.joined == s.joined + {pid} && u.attached == s.attached
    requires u.fates == s.fates[pid := Waiting(false, false)]
    ensures Membership(c, u) && |u.queue| == |s.queue| + 1 && |u.joined| == |s.joined| + 1
    ensures forall p :: p in u.queue <==> p == pid || p in s.queue
  {
    hide Insert;
    assert pid !in s.joined && pid !in s.queue;
    InsertSorted(s.queue, pid);
    assert u.fates.Keys == s.fates.Keys + {pid};
    forall p | p in u.queue
      ensures p in u.joined && p in u.fates && u.fates[p] == Waiting(false, false)
    {
      assert p == pid || p in s.queue;
    }
  }

  lemma CountedPhase(c: Config, s: State, u: State, pid: Pid)
    requires CountedIn(c, s, u, pid) && u.nrLeft != 0
    requires |u.queue| == |s.queue| + 1 && |u.joined| == |s.joined| + 1 <= c.ppn && u.queue != []
    requires forall p :: p in u.queue <==> p == pid || p in s.queue
    ensures u.joined <= u.fates.Keys && PhaseInv(c, u)
  {
    hide Gathered, RanksGiven, Insert, CountBelow;
  }

  lemma Counted(c: Config, s: State, u: State, pid: Pid)
    requires CountedIn(c, s, u, pid) && u.nrLeft != 0
    ensures Inv(c, u)
  {
    CountedMembership(c, s, u, pid);
    CountedPhase(c, s, u, pid);
    hide Membership, Gathered, PhaseInv;
  }

  // Everyone has arrived and is in the list
  ghost predicate AllIn(c: Config, u: State) {
    && ValidConfig(c) && Membership(c, u) && Gathered(c, u)
    && |u.queue| == |u.joined| == c.ppn && (forall p | p in u.joined :: p in u.queue) && u.nrProcesses == c.ppn
    && NoRank(u) && u.shares == [] && u.avail == u.initial
  }

  lemma LastIsGathering(c: Config, s: State, u: State, pid: Pid)
    requires CountedIn(c, s, u, pid) && u.nrLeft == 0
    ensures s.phase.Gathering?
  {
    hide Membership, Gathered, RanksGiven, Insert, CountBelow;
    NotYetReleased(c, s, pid);
  }

  lemma GatheringFacts(c: Config, s: State)
    requires Inv(c, s) && s.phase.Gathering?
    ensures (forall p | p in s.joined :: p in s.queue) && |s.queue| == |s.joined| && NoRank(s) && s.shares == []
    ensures s.nrProcesses == (if s.queue == [] then -1 else c.ppn)
    ensures s.queue != [] ==> s.nrLeft == c.ppn - |s.queue|
    ensures |s.attached| == c.ppn ==> s.avail == s.initial
  {
    hide Membership, Gathered;
  }

  lemma LastIsAllIn(c: Config, s: State, u: State, pid: Pid)
    requires CountedIn(c, s, u, pid) && u.nrLeft == 0
    ensures AllIn(c, u)
  {
    CountedMembership(c, s, u, pid);
    LastIsGathering(c, s, u, pid);
    AllAttached(c, u);
    GatheringFacts(c, s);
    hide Membership, Gathered, PhaseInv, Inv, Insert;
  }

  // The last arrival releases the first process in the list
  lemma LastArrival(c: Config, s: State, u: State, pid: Pid)
    requires CountedIn(c, s, u, pid) && u.nrLeft == 0
    ensures
      var v := WakeFirst(u).(nrLeft := u.nrProcesses, rank := 0);
      u.queue != [] && (u.queue[0] != pid ==> Inv(c, v)) && (u.queue[0] == pid ==> Inv(c, Proceed(c, v, pid)))
  {
    LastIsAllIn(c, s, u, pid);
    FirstOfAll(c, u);
    var v := WakeFirst(u).(nrLeft := u.nrProcesses, rank := 0);
    hide Membership, Gathered, PhaseInv, WakeFirst, Proceed;
    if u.queue[0] == pid {
      ProceedKeepsInv(c, v, pid);
    }
  }

  // What the arrival of a process with the right count does
  lemma Admitted(c: Config, s: State, e: Event) returns (u: State)
    requires Inv(c, s) && e.Arrive? && Enabled(c, s, e) && (s.nrProcesses == -1 || s.nrProcesses == e.ppn)
    ensures CountedIn(c, s, u, e.pid) && u.queue != []
    ensures u.nrLeft != 0 ==> Next(c, s, e) == u
    ensures u.nrLeft == 0 ==>
      var v := WakeFirst(u).(nrLeft := u.nrProcesses, rank := 0);
      Next(c, s, e) == if u.queue[0] == e.pid then Proceed(c, v, e.pid) else v
  {
    hide Gathered, CountBelow, RanksGiven, Proceed, WakeFirst, Insert;
    var pid := e.pid;
    NotYetReleased(c, s, pid);
    u := s.(nrProcesses := c.ppn, nrLeft := (if s.nrProcesses == -1 then c.ppn else s.nrLeft) - 1,
            queue := Insert(s.queue, pid), joined := s.joined + {pid},
            fates := s.fates[pid := Waiting(false, false)]);
    hide Membership, PhaseInv, Inv;
    CountedNotEmpty(c, s, u, pid);
  }

  // The last arrival makes the first process in the list the released one
  lemma LastReleases(c: Config, s: State, u: State, pid: Pid)
    requires CountedIn(c, s, u, pid) && u.nrLeft == 0
    ensures u.queue != [] && AllWaiting(u) && s.phase.Gathering?
    ensures
      var v := WakeFirst(u).(nrLeft := u.nrProcesses, rank := 0);
      Released(c, v, u.queue[0]) && v.joined == u.joined && v.phase == Releasing(u.queue[0])
  {
    LastIsAllIn(c, s, u, pid);
    LastIsGathering(c, s, u, pid);
    FirstOfAll(c, u);
    WakeShape(u);
    hide Gathered, CountedIn, Released, WakeFirst;
  }

  lemma FirstOfAll(c: Config, u: State)
    requires AllIn(c, u)
    ensures u.queue != [] && Released(c, WakeFirst(u).(nrLeft := u.nrProcesses, rank := 0), u.queue[0])
  {
    hide CountBelow, Gathered, RanksGiven, Membership, WakeFirst, PhaseInv;
    var v := WakeFirst(u).(nrLeft := u.nrProcesses, rank := 0);
    AllAttached(c, u);
    WakeMembership(c, u);
    SameMembership(c, WakeFirst(u), v);
    WakeGathered(c, u);
    GatheredSame(c, WakeFirst(u), v);
    FirstPhase(c, u);
    WakeShape(u);
  }

  lemma FirstPhase(c: Config, u: State)
    requires AllIn(c, u)
    ensures
      var v := WakeFirst(u).(nrLeft := u.nrProcesses, rank := 0);
      v.joined <= v.fates.Keys && PhaseInv(c, v)
  {
    hide CountBelow, Gathered, RanksGiven;
    var first := u.queue[0];
    var v := WakeFirst(u).(nrLeft := u.nrProcesses, rank := 0);
    TailSorted(u.queue);
    FirstCount(u.joined, first);
    NoRanksYet(c, v);
  }

  lemma NoRanksYet(c: Config, s: State)
    requires NoRank(s) && s.shares == []
    ensures RanksGiven(c, s)
  {
  }

  lemma FirstCount(joined: set<Pid>, first: Pid)
    requires forall p | p in joined :: first <= p
    ensures CountBelow(joined, first) == 0
  {
    CountSkips(joined, 0, first);
  }

  // ---------- every reachable state ----------

  lemma StepKeepsInv(c: Config, s: State, e: Event)
    requires Inv(c, s) && Enabled(c, s, e)
    ensures Inv(c, Next(c, s, e))
  {
    hide Inv, Next, Enabled;
    match e {
      case Attach(_, _, _, _) => AttachKeepsInv(c, s, e);
      case Arrive(_, _) => ArriveKeepsInv(c, s, e);
      case Resume(_) => ResumeKeepsInv(c, s, e);
      case TimeOut(_) => TimeOutKeepsInv(c, s, e);
    }
  }

  lemma {:induction false} RunKeepsInv(c: Config, states: seq<State>, events: seq<Event>, k: nat)
    requires Run(c, states, events) && k < |states|
    ensures Inv(c, states[k])
  {
    hide Next, Enabled;
    if k == 0 {
      StartInv(c);
    } else {
      RunKeepsInv(c, states, events, k - 1);
      StepKeepsInv(c, states[k - 1], events[k - 1]);
    }
  }

  lemma StartInv(c: Config)
    requires ValidConfig(c)
    ensures Inv(c, START)
  {
  }
}
