/**
  What holds over every run of the rendezvous: who gets which rank and which CPUs,
  and that failures leave everyone without a rank.
 */
module RendezvousRuns {
  import opened Ordinals
  import opened Partition
  import opened Rendezvous

  ghost predicate HasRank(s: State, p: Pid) {
    p in s.fates && s.fates[p].Done? && s.fates[p].ret >= 0
  }

  // ---------- ranks ----------

  // A process returns the number of participants with a smaller process id
  lemma RankIsPidOrder(c: Config, states: seq<State>, events: seq<Event>, k: nat, p: Pid)
    requires Run(c, states, events) && k < |states| && HasRank(states[k], p)
    ensures |states[k].joined| == c.ppn && p in states[k].joined
    ensures states[k].fates[p].ret == CountBelow(states[k].joined, p)
  {
    hide Run, CountBelow, Membership, Gathered;
    RunKeepsInv(c, states, events, k);
  }

  // When the last process has its rank, the ranks are a bijection onto 0..ppn-1
  lemma RanksAreABijection(c: Config, states: seq<State>, events: seq<Event>, k: nat, r: nat) returns (p: Pid)
    requires Run(c, states, events) && k < |states| && states[k].phase.Finished? && r < c.ppn
    ensures HasRank(states[k], p) && states[k].fates[p].ret == r
    ensures forall q | HasRank(states[k], q) && states[k].fates[q].ret == r :: q == p
    ensures forall q | q in states[k].joined :: HasRank(states[k], q)
  {
    hide Run, Gathered, RanksGiven;
    RunKeepsInv(c, states, events, k);
    var joined := states[k].joined;
    p := Position(joined, r);
    forall q | q in joined
      ensures states[k].fates[q].ret == CountBelow(joined, q)
    {
      RankIsPidOrder(c, states, events, k, q);
    }
    forall q | HasRank(states[k], q) && states[k].fates[q].ret == r
      ensures q == p
    {
      NthUnique(joined, p, q);
    }
  }

  // At most one process is released but has not returned
  lemma OneReleased(c: Config, states: seq<State>, events: seq<Event>, k: nat, p: Pid, q: Pid)
    requires Run(c, states, events) && k < |states|
    requires p in states[k].fates && states[k].fates[p] == Waiting(true, false)
    requires q in states[k].fates && states[k].fates[q] == Waiting(true, false)
    ensures p == q
  {
    hide Run, CountBelow, Gathered, RanksGiven;
    RunKeepsInv(c, states, events, k);
  }

  // The list is never empty when a process wakes the next one
  lemma TokenHasSuccessor(c: Config, states: seq<State>, events: seq<Event>, k: nat)
    requires Run(c, states, events) && k < |states| && states[k].phase.Releasing?
    ensures
      var s := states[k];
      s.nrLeft - 1 != 0 ==> s.queue != [] && s.phase.running < s.queue[0]
  {
    hide Run, CountBelow, Membership, Gathered, RanksGiven;
    RunKeepsInv(c, states, events, k);
    if states[k].queue != [] {
      assert states[k].queue[0] in states[k].queue;
    }
  }

  // ---------- runs without faults ----------

  // Partitioning these CPUs completes
  ghost predicate PartitionOk(c: Config, s: State)
    requires c.nprocs <= CPU_SETSIZE
  {
    c.topo.Some? && Divide(c.topo.value, c.nprocs, s.initial, s.quota, c.ppn).ok
  }

  // It does if every CPU there is has a topology entry, whatever the quota
  lemma KnownPartitions(c: Config, s: State)
    requires Inv(c, s) && |s.attached| == c.ppn && c.topo.Some? && Known(c.topo.value, s.initial)
    ensures PartitionOk(c, s)
  {
    SettledIsCpuSet(c, s);
    QuotaKnown(c, s);
    hide Inv, Known, Divide, Gathered;
    if s.quota >= 1 {
      QuotaFits(|s.initial|, c.ppn, s.quota);
      DivideSucceeds(c.topo.value, c.nprocs, s.initial, s.quota, c.ppn);
    } else {
      DivideSingles(c.topo.value, c.nprocs, s.initial, s.quota, c.ppn);
    }
  }

  // Nobody times out, and the topology is collected and has an entry for every CPU that was settled
  ghost predicate FaultFree(c: Config, states: seq<State>, events: seq<Event>) {
    && c.topo.Some?
    && (forall i | 0 <= i < |events| :: !events[i].TimeOut?)
    && (forall i | 0 <= i < |states| && |states[i].attached| == c.ppn :: Known(c.topo.value, states[i].initial))
  }

  ghost predicate OnTrack(s: State) {
    s.phase.Gathering? || s.phase.Releasing? || s.phase.Finished?
  }

  lemma StepOnTrack(c: Config, s: State, e: Event)
    requires Inv(c, s) && Enabled(c, s, e) && OnTrack(s) && !e.TimeOut?
    requires |s.attached| == c.ppn ==> PartitionOk(c, s)
    requires |Next(c, s, e).attached| == c.ppn ==> PartitionOk(c, Next(c, s, e))
    ensures OnTrack(Next(c, s, e))
  {
    hide CountBelow, Gathered, RanksGiven, Divide, Insert;
    match e {
      case Attach(_, _, _, _) =>
      case Arrive(pid, ppn) =>
        NotYetReleased(c, s, pid);
        if s.nrProcesses == -1 || s.nrProcesses == ppn {
          ArriveOnTrack(c, s, e);
        }
      case Resume(pid) =>
        if !s.fates[pid].timeout {
          assert s.phase == Releasing(pid);
          AllAttached(c, s);
          ProceedOnTrack(c, s, pid);
        }
    }
  }

  lemma ArriveOnTrack(c: Config, s: State, e: Event)
    requires Inv(c, s) && e.Arrive? && Enabled(c, s, e) && s.phase.Gathering?
    requires s.nrProcesses == -1 || s.nrProcesses == e.ppn
    requires |Next(c, s, e).attached| == c.ppn ==> PartitionOk(c, Next(c, s, e))
    ensures OnTrack(Next(c, s, e))
  {
    hide CountBelow, RanksGiven, Divide, Insert, Gathered, Proceed, WakeFirst, PartitionOk, Membership, PhaseInv;
    hide Next, CountedIn, Released;
    var pid := e.pid;
    var u := Admitted(c, s, e);
    if u.nrLeft == 0 {
      var v := WakeFirst(u).(nrLeft := u.nrProcesses, rank := 0);
      LastReleases(c, s, u, pid);
      if u.queue[0] == pid {
        ProceedSets(c, v, pid);
        AllAttachedReleased(c, v, pid);
        SamePartition(c, v, Proceed(c, v, pid));
        ProceedOnTrack(c, v, pid);
      }
    } else {
      CountedPhaseKept(c, s, u, pid);
    }
  }

  lemma CountedPhaseKept(c: Config, s: State, u: State, pid: Pid)
    requires CountedIn(c, s, u, pid)
    ensures u.phase == s.phase && u.joined == s.joined + {pid} && pid !in s.joined
  {
    hide Gathered, CountBelow, RanksGiven, PhaseInv;
  }

  lemma AllAttachedReleased(c: Config, s: State, pid: Pid)
    requires Released(c, s, pid)
    ensures |s.attached| == c.ppn
  {
    hide CountBelow, RanksGiven, Gathered;
    AllAttached(c, s);
  }

  lemma SamePartition(c: Config, s: State, t: State)
    requires c.nprocs <= CPU_SETSIZE && t.initial == s.initial && t.quota == s.quota
    ensures PartitionOk(c, s) == PartitionOk(c, t)
  {
    hide Divide;
  }

  lemma ProceedOnTrack(c: Config, s: State, pid: Pid)
    requires Released(c, s, pid) && PartitionOk(c, s)
    ensures OnTrack(Proceed(c, s, pid))
  {
    hide CountBelow, RanksGiven, Gathered, Membership, Divide;
  }

  lemma {:induction false} FaultFreeOnTrack(c: Config, states: seq<State>, events: seq<Event>, k: nat)
    requires Run(c, states, events) && FaultFree(c, states, events) && k < |states|
    ensures OnTrack(states[k])
  {
    hide Inv, Next, PartitionOk, Known;
    if k == 0 {
    } else {
      FaultFreeOnTrack(c, states, events, k - 1);
      RunKeepsInv(c, states, events, k - 1);
      RunKeepsInv(c, states, events, k);
      assert states[k] == Next(c, states[k - 1], events[k - 1]);
      if |states[k - 1].attached| == c.ppn {
        FaultFreePartitions(c, states, events, k - 1);
      }
      if |states[k].attached| == c.ppn {
        FaultFreePartitions(c, states, events, k);
      }
      StepOnTrack(c, states[k - 1], events[k - 1]);
    }
  }

  lemma FaultFreePartitions(c: Config, states: seq<State>, events: seq<Event>, k: nat)
    requires Run(c, states, events) && FaultFree(c, states, events) && k < |states| && |states[k].attached| == c.ppn
    ensures PartitionOk(c, states[k])
  {
    RunKeepsInv(c, states, events, k);
    hide Run, Inv, Known, PartitionOk;
    KnownPartitions(c, states[k]);
  }

  // Everyone has joined, a process is released, and partitioning completes
  ghost predicate Rolling(c: Config, s: State) {
    Inv(c, s) && s.phase.Releasing? && PartitionOk(c, s)
  }

  // The released process can resume, and that ends the round or releases the next one
  lemma Rolls(c: Config, s: State)
    requires Rolling(c, s)
    ensures c.ppn > 0 && c.nprocs <= CPU_SETSIZE && s.phase.Releasing?
    ensures s.phase.running in s.fates && s.fates[s.phase.running].Waiting?
    ensures Enabled(c, s, Resume(s.phase.running)) && s.nrLeft > 0
    ensures
      var t := Next(c, s, Resume(s.phase.running));
      t.nrLeft == s.nrLeft - 1 && if t.nrLeft == 0 then t.phase.Finished? else Rolling(c, t)
  {
    var e := Resume(s.phase.running);
    assert Enabled(c, s, e) by {
      hide CountBelow, RanksGiven, Gathered, Divide;
    }
    StepKeepsInv(c, s, e);
    hide CountBelow, RanksGiven, Gathered, Divide, Membership;
    ProceedSets(c, s, e.pid);
  }

  // Nothing else can happen
  lemma OnlyResumption(c: Config, s: State, e: Event)
    requires Inv(c, s) && s.phase.Releasing? && Enabled(c, s, e)
    ensures e == Resume(s.phase.running)
  {
    hide CountBelow, RanksGiven, Gathered;
    AllAttached(c, s);
    Larger(s.joined, s.attached);
  }

  lemma AllJoined(c: Config, states: seq<State>, events: seq<Event>, k: nat)
    requires Run(c, states, events) && FaultFree(c, states, events) && k < |states| && |states[k].joined| == c.ppn
    ensures states[k].phase.Finished? || Rolling(c, states[k])
  {
    FaultFreeOnTrack(c, states, events, k);
    RunKeepsInv(c, states, events, k);
    AttachedToo(c, states[k]);
    FaultFreePartitions(c, states, events, k);
    hide Run, FaultFree, PartitionOk;
    GatheringIsEarlier(c, states[k]);
  }

  lemma AttachedToo(c: Config, s: State)
    requires Inv(c, s) && |s.joined| == c.ppn
    ensures |s.attached| == c.ppn
  {
    hide CountBelow, RanksGiven, Gathered, PhaseInv;
    AllAttached(c, s);
  }

  lemma GatheringIsEarlier(c: Config, s: State)
    requires Inv(c, s) && |s.joined| == c.ppn
    ensures !s.phase.Gathering?
  {
    hide CountBelow, RanksGiven, Gathered, Membership;
  }

  // In a run without faults, once all have joined, as many steps as processes are left end the round
  lemma RoundFinishes(c: Config, states: seq<State>, events: seq<Event>, k: nat)
    requires Run(c, states, events) && FaultFree(c, states, events) && k < |states|
    requires |states[k].joined| == c.ppn && !states[k].phase.Finished?
    ensures states[k].nrLeft > 0
    ensures k + states[k].nrLeft < |states| ==> states[k + states[k].nrLeft].phase.Finished?
  {
    hide *;
    AllJoined(c, states, events, k);
    Rolls(c, states[k]);
    if k + states[k].nrLeft < |states| {
      RollsToTheEnd(c, states, events, k, k + states[k].nrLeft);
    }
  }

  lemma {:induction false} RollsToTheEnd(c: Config, states: seq<State>, events: seq<Event>, k: nat, m: nat)
    requires Run(c, states, events) && k < m < |states| && Rolling(c, states[k]) && m - k == states[k].nrLeft
    ensures states[m].phase.Finished?
    decreases m - k
  {
    hide *;
    RollsOn(c, states, events, k);
    if k + 1 == m {
    } else {
      RollsToTheEnd(c, states, events, k + 1, m);
    }
  }

  lemma RollsOn(c: Config, states: seq<State>, events: seq<Event>, k: nat)
    requires Run(c, states, events) && k < |states| - 1 && Rolling(c, states[k])
    ensures states[k + 1].nrLeft == states[k].nrLeft - 1
    ensures if states[k + 1].nrLeft == 0 then states[k + 1].phase.Finished? else Rolling(c, states[k + 1])
  {
    Rolls(c, states[k]);
    OnlyResumption(c, states[k], events[k]);
    hide Inv, PartitionOk, Enabled;
  }

  lemma RollingJoined(c: Config, s: State)
    requires Rolling(c, s)
    ensures |s.joined| == c.ppn && !s.phase.Finished?
  {
    hide CountBelow, RanksGiven, Gathered, Membership;
  }

  lemma OneMore(c: Config, states: seq<State>, events: seq<Event>, e: Event)
    requires Run(c, states, events) && FaultFree(c, states, events) && !e.TimeOut?
    requires Enabled(c, states[|events|], e) && |states[|events|].attached| == c.ppn
    ensures Run(c, states + [Next(c, states[|events|], e)], events + [e])
    ensures FaultFree(c, states + [Next(c, states[|events|], e)], events + [e])
  {
    RunKeepsInv(c, states, events, |events|);
    hide Inv, Next, Enabled, Known;
    StepKeepsSets(c, states[|events|], e);
    hide SameSets;
    Extended(c, states, events, e, Next(c, states[|events|], e));
  }

  lemma Extended(c: Config, states: seq<State>, events: seq<Event>, e: Event, t: State)
    requires Run(c, states, events) && Enabled(c, states[|events|], e)
    requires e.Resume? ==> e.pid in states[|events|].fates && states[|events|].fates[e.pid].Waiting?
    requires t == Next(c, states[|events|], e)
    ensures Run(c, states + [t], events + [e])
  {
    hide Next, Enabled;
  }

  lemma RunStep(c: Config, states: seq<State>, events: seq<Event>, k: nat)
    requires Run(c, states, events) && k < |events|
    ensures c.ppn > 0 && c.nprocs <= CPU_SETSIZE && |states| == |events| + 1
    ensures Inv(c, states[k]) && Enabled(c, states[k], events[k])
    ensures events[k].Resume? ==> events[k].pid in states[k].fates && states[k].fates[events[k].pid].Waiting?
    ensures states[k + 1] == Next(c, states[k], events[k])
  {
    RunKeepsInv(c, states, events, k);
    hide Inv, Next;
  }

  lemma RunConfig(c: Config, states: seq<State>, events: seq<Event>)
    requires Run(c, states, events)
    ensures ValidConfig(c)
  {
  }

  lemma RunLength(c: Config, states: seq<State>, events: seq<Event>)
    requires Run(c, states, events)
    ensures |states| == |events| + 1
  {
  }

  // And there is such a run: from any state with everyone joined, the round can be completed
  lemma {:induction false} RoundCanFinish(c: Config, states: seq<State>, events: seq<Event>)
    returns (all: seq<State>, done: seq<Event>)
    requires Run(c, states, events) && FaultFree(c, states, events)
    requires |states[|events|].joined| == c.ppn && !states[|events|].phase.Finished?
    ensures states <= all && events <= done && Run(c, all, done) && FaultFree(c, all, done)
    ensures |done| == |events| + states[|events|].nrLeft && all[|done|].phase.Finished?
    decreases states[|events|].nrLeft
  {
    hide *;
    RunLength(c, states, events);
    var s := states[|events|];
    AllJoined(c, states, events, |events|);
    Rolls(c, s);
    var e := Resume(s.phase.running);
    var t := Next(c, s, e);
    all, done := states + [t], events + [e];
    RunKeepsInv(c, states, events, |events|);
    AttachedToo(c, s);
    OneMore(c, states, events, e);
    if t.nrLeft == 0 {
    } else {
      RollingJoined(c, t);
      var more, rest := RoundCanFinish(c, all, done);
      all, done := more, rest;
    }
  }

  // ---------- ranks and failures exclude each other ----------

  lemma DonePersists(c: Config, s: State, e: Event, p: Pid)
    requires Inv(c, s) && Enabled(c, s, e) && p in s.fates && s.fates[p].Done?
    ensures p in Next(c, s, e).fates && Next(c, s, e).fates[p] == s.fates[p]
  {
    hide CountBelow, RanksGiven, Gathered, Divide, Insert, PhaseInv;
    match e {
      case Attach(_, _, _, _) =>
      case Arrive(pid, ppn) =>
        ArriveDone(c, s, e, p);
      case Resume(pid) =>
        ProceedDone(c, s, pid, p);
      case TimeOut(pid) =>
    }
  }

  lemma ProceedDone(c: Config, s: State, pid: Pid, p: Pid)
    requires c.nprocs <= CPU_SETSIZE && p in s.fates && p != pid && p !in s.queue
    ensures p in Proceed(c, s, pid).fates && Proceed(c, s, pid).fates[p] == s.fates[p]
  {
    hide Divide;
    if s.queue != [] {
      assert s.queue[0] in s.queue;
    }
  }

  lemma ArriveDone(c: Config, s: State, e: Event, p: Pid)
    requires ValidConfig(c) && Membership(c, s) && e.Arrive? && Enabled(c, s, e) && p in s.fates && s.fates[p].Done?
    ensures p in Next(c, s, e).fates && Next(c, s, e).fates[p] == s.fates[p]
  {
    hide Proceed, Insert;
    var pid := e.pid;
    assert pid !in s.queue && p !in s.queue;
    InsertSorted(s.queue, pid);
    var queue := Insert(s.queue, pid);
    assert queue[0] in queue && p !in queue;
    var t := if s.nrProcesses == -1 then s.(nrProcesses := e.ppn, nrLeft := e.ppn) else s;
    var u := t.(nrLeft := t.nrLeft - 1, queue := queue, joined := t.joined + {pid},
                fates := t.fates[pid := Waiting(false, false)]);
    var v := WakeFirst(u).(nrLeft := u.nrProcesses, rank := 0);
    TailSubset(queue);
    ProceedDone(c, v, pid, p);
  }

  lemma {:induction false} RankPersists(c: Config, states: seq<State>, events: seq<Event>, j: nat, k: nat, p: Pid)
    requires Run(c, states, events) && j <= k < |states| && p in states[j].fates && states[j].fates[p].Done?
    ensures p in states[k].fates && states[k].fates[p] == states[j].fates[p]
    decreases k - j
  {
    hide Inv, Enabled, Next;
    if j >= k {
    } else {
      RunKeepsInv(c, states, events, k - 1);
      RankPersists(c, states, events, j, k - 1, p);
      DonePersists(c, states[k - 1], events[k - 1], p);
    }
  }

  // An aborted run stays aborted
  lemma AbortedStays(c: Config, s: State, e: Event)
    requires Inv(c, s) && Enabled(c, s, e) && s.phase.Aborted?
    ensures Next(c, s, e).phase.Aborted?
  {
    hide CountBelow, RanksGiven, Gathered, Divide, Insert, Proceed;
    match e {
      case Attach(_, _, _, _) =>
      case Arrive(pid, ppn) =>
        NotYetReleased(c, s, pid);
      case Resume(pid) =>
      case TimeOut(pid) =>
    }
  }

  lemma {:induction false} AbortedForGood(c: Config, states: seq<State>, events: seq<Event>, j: nat, k: nat)
    requires Run(c, states, events) && j <= k < |states| && states[j].phase.Aborted?
    ensures states[k].phase.Aborted?
    decreases k - j
  {
    hide Inv, Enabled, Next;
    if j >= k {
    } else {
      AbortedForGood(c, states, events, j, k - 1);
      RunKeepsInv(c, states, events, k - 1);
      AbortedStays(c, states[k - 1], events[k - 1]);
    }
  }

  lemma AbortedHasNoRank(c: Config, s: State)
    requires Inv(c, s) && s.phase.Aborted?
    ensures NoRank(s)
  {
    hide Membership, Gathered;
  }

  // If a process ever times out, no process of the run returns a rank, before or after
  lemma TimeOutLeavesNoRank(c: Config, states: seq<State>, events: seq<Event>, j: nat, k: nat)
    requires Run(c, states, events) && j < |events| && k < |states| && events[j].TimeOut?
    ensures NoRank(states[k])
  {
    hide Inv;
    var late := if k > j then k else j + 1;
    RunKeepsInv(c, states, events, j);
    TimeOutKeepsInv(c, states[j], events[j]);
    AbortedForGood(c, states, events, j + 1, late);
    RunKeepsInv(c, states, events, late);
    AbortedHasNoRank(c, states[late]);
    hide Run;
    forall p | p in states[k].fates && states[k].fates[p].Done?
      ensures states[k].fates[p].ret < 0
    {
      RankPersists(c, states, events, k, late, p);
    }
  }

  // If the topology cannot be collected, or does not suffice, no process returns a rank
  lemma NoTopologyNoRank(c: Config, states: seq<State>, events: seq<Event>, k: nat)
    requires Run(c, states, events) && k < |states|
    requires c.topo.None? || !PartitionOk(c, states[k])
    ensures NoRank(states[k])
  {
    hide Run, CountBelow, Membership, Gathered, Divide;
    RunKeepsInv(c, states, events, k);
  }

  // ---------- CPUs, from attaching to binding ----------

  // A process is bound to the share of its rank, all shares being cut from the set main left
  lemma BoundToShare(c: Config, states: seq<State>, events: seq<Event>, k: nat, p: Pid)
    requires Run(c, states, events) && k < |states| && HasRank(states[k], p)
    ensures
      var s := states[k];
      && |s.attached| == c.ppn && c.topo.Some? && s.quota == |s.initial| / c.ppn
      && s.initial == (s.offered + s.discovered) - Prefix(s.excluded, c.nprocs)
      && p in s.bound
      && var d := Divide(c.topo.value, c.nprocs, s.initial, s.quota, c.ppn);
         d.ok && s.fates[p].ret < |d.shares| && s.bound[p] == d.shares[s.fates[p].ret]
  {
    hide Run, CountBelow, Divide;
    RunKeepsInv(c, states, events, k);
    AllAttached(c, states[k]);
  }

  // A process is never bound to an excluded CPU, nor to one nobody may use
  lemma BoundWithinAllowed(c: Config, states: seq<State>, events: seq<Event>, k: nat, p: Pid)
    requires Run(c, states, events) && k < |states| && HasRank(states[k], p)
    ensures
      var s := states[k];
      && p in s.bound && s.bound[p] <= s.offered + s.discovered
      && s.bound[p] !! Prefix(s.excluded, c.nprocs)
  {
    hide Next, Enabled, Divide, Inv;
    var s := states[k];
    RunKeepsInv(c, states, events, k);
    BoundToShare(c, states, events, k, p);
    SettledIsCpuSet(c, s);
    DivideConserves(c.topo.value, c.nprocs, s.initial, s.quota, c.ppn);
    InUnion(Divide(c.topo.value, c.nprocs, s.initial, s.quota, c.ppn).shares, s.fates[p].ret);
  }

  lemma SettledIsCpuSet(c: Config, s: State)
    requires Inv(c, s) && |s.attached| == c.ppn
    ensures IsCpuSet(s.initial)
  {
    hide Membership, PhaseInv, Gathered;
    InitialIsCpuSet(c, s);
  }

  // What the ppn-th attacher excludes, nobody is ever bound to
  lemma BoundNotExcluded(c: Config, states: seq<State>, events: seq<Event>, j: nat, k: nat, p: Pid)
    requires Run(c, states, events) && j < |events| && k < |states| && HasRank(states[k], p)
    requires events[j].Attach? && |states[j].attached| == c.ppn - 1
    ensures p in states[k].bound && states[k].bound[p] !! Prefix(events[j].exclude, c.nprocs)
  {
    BoundWithinAllowed(c, states, events, k, p);
    BoundToShare(c, states, events, k, p);
    if k <= j {
      FewerBefore(c, states, events, k, j);
    } else {
      LastAttacherDecides(c, states, events, j, k);
    }
  }

  // Processes only ever attach
  lemma {:induction false} FewerBefore(c: Config, states: seq<State>, events: seq<Event>, k: nat, j: nat)
    requires Run(c, states, events) && k <= j < |states|
    ensures |states[k].attached| <= |states[j].attached|
    decreases j - k
  {
    hide *;
    RunLength(c, states, events);
    if k == j {
    } else {
      FewerBefore(c, states, events, k, j - 1);
      RunStep(c, states, events, j - 1);
      AttachedGrows(c, states[j - 1], events[j - 1]);
    }
  }

  lemma AttachedGrows(c: Config, s: State, e: Event)
    requires Inv(c, s) && Enabled(c, s, e)
    ensures |s.attached| <= |Next(c, s, e).attached|
  {
    hide Membership, Gathered, PhaseInv, Divide, Insert, WakeFirst, Proceed;
    match e {
      case Attach(pid, _, _, _) =>
        Larger(s.attached, s.attached + {pid});
      case Arrive(pid, ppn) =>
        ArriveSets(c, s, pid, ppn);
      case Resume(pid) =>
        ProceedSets(c, s, pid);
      case TimeOut(pid) =>
    }
  }

  // Different processes get different CPUs, and each its full quota
  lemma SharesAreExact(c: Config, states: seq<State>, events: seq<Event>, k: nat, p: Pid, q: Pid)
    requires Run(c, states, events) && k < |states| && HasRank(states[k], p) && HasRank(states[k], q)
    ensures
      var s := states[k];
      && p in s.bound && q in s.bound
      && (p != q ==> s.bound[p] !! s.bound[q])
      && (s.quota >= 1 ==> |s.bound[p]| == s.quota)
  {
    hide Next, Enabled, Divide, Inv, CountBelow;
    var s := states[k];
    RunKeepsInv(c, states, events, k);
    BoundToShare(c, states, events, k, p);
    BoundToShare(c, states, events, k, q);
    RankIsPidOrder(c, states, events, k, p);
    RankIsPidOrder(c, states, events, k, q);
    SettledIsCpuSet(c, s);
    DivideConserves(c.topo.value, c.nprocs, s.initial, s.quota, c.ppn);
    if p != q {
      DifferentRanks(s.joined, p, q);
    }
    if s.quota >= 1 {
      QuotaFits(|s.initial|, c.ppn, s.quota);
      DivideCounts(c.topo.value, c.nprocs, s.initial, s.quota, c.ppn);
    }
  }

  // With fewer CPUs than processes, the first ranks get one each, and the others an empty set
  lemma SharesWhenScarce(c: Config, states: seq<State>, events: seq<Event>, k: nat, p: Pid)
    requires Run(c, states, events) && k < |states| && HasRank(states[k], p)
    ensures p in states[k].bound
    ensures |states[k].initial| < c.ppn ==>
              |states[k].bound[p]| == if states[k].fates[p].ret < |states[k].initial| then 1 else 0
    ensures states[k].bound[p] == {} <==> states[k].fates[p].ret >= |states[k].initial|
  {
    RunConfig(c, states, events);
    hide Run, Next, Enabled, Divide, Inv, CountBelow;
    var s := states[k];
    RunKeepsInv(c, states, events, k);
    BoundToShare(c, states, events, k, p);
    RankIsPidOrder(c, states, events, k, p);
    RankBelow(s, p, c.ppn);
    QuotaSize(|s.initial|, c.ppn, s.quota);
    if s.quota >= 1 {
      SharesAreExact(c, states, events, k, p, p);
    } else {
      SettledIsCpuSet(c, s);
      OneEach(c, s, s.fates[p].ret);
    }
  }

  lemma QuotaSize(size: nat, ppn: nat, quota: int)
    requires ppn > 0 && quota == size / ppn
    ensures quota >= 1 <==> size >= ppn
    ensures quota >= 0
  {
  }

  lemma OneEach(c: Config, s: State, r: nat)
    requires c.topo.Some? && c.nprocs <= CPU_SETSIZE && IsCpuSet(s.initial) && s.quota == 0 && r < c.ppn
    ensures
      var d := Divide(c.topo.value, c.nprocs, s.initial, s.quota, c.ppn);
      r < |d.shares| && |d.shares[r]| == if r < |s.initial| then 1 else 0
  {
    hide Divide;
    DivideSingles(c.topo.value, c.nprocs, s.initial, s.quota, c.ppn);
  }

  lemma RankBelow(s: State, p: Pid, n: nat)
    requires p in s.joined && |s.joined| == n
    ensures CountBelow(s.joined, p) < n
  {
    PositionOfOrdinal(s.joined, p);
  }

  lemma DifferentRanks(joined: set<Pid>, p: Pid, q: Pid)
    requires p in joined && q in joined && p != q
    ensures CountBelow(joined, p) != CountBelow(joined, q)
  {
    if CountBelow(joined, p) == CountBelow(joined, q) {
      NthUnique(joined, p, q);
    }
  }

  lemma QuotaFits(size: nat, ppn: nat, quota: int)
    requires ppn > 0 && quota == size / ppn && quota >= 1
    ensures ppn * Quota(quota) <= size
  {
    assert size == ppn * (size / ppn) + size % ppn;
  }

  // With caches within nodes and a multiple of the quota on each node, every process stays on one node
  lemma SharesAreLocal(c: Config, states: seq<State>, events: seq<Event>, k: nat, p: Pid)
    requires Run(c, states, events) && k < |states| && HasRank(states[k], p) && states[k].quota >= 1
    requires c.topo.Some? && LocalInput(c.topo.value, c.nprocs, states[k].initial)
    requires Divisible(c.topo.value, states[k].initial, states[k].quota)
    ensures p in states[k].bound && OnOneNode(c.topo.value, states[k].initial, states[k].bound[p])
  {
    hide Run, Divide, OnOneNode, Divisible, LocalInput;
    var s := states[k];
    BoundToShare(c, states, events, k, p);
    QuotaFits(|s.initial|, c.ppn, s.quota);
    DivideLocal(c.topo.value, c.nprocs, s.initial, s.quota, c.ppn);
  }

  // What the last attacher found and excluded is what the run goes by
  ghost predicate SameSets(s: State, t: State) {
    && t.attached == s.attached && t.offered == s.offered && t.discovered == s.discovered
    && t.excluded == s.excluded && t.initial == s.initial && t.quota == s.quota
  }

  lemma StepKeepsSets(c: Config, s: State, e: Event)
    requires Inv(c, s) && Enabled(c, s, e) && |s.attached| == c.ppn
    ensures SameSets(s, Next(c, s, e))
  {
    hide Membership, Gathered, PhaseInv, Divide, Insert, WakeFirst, Proceed;
    match e {
      case Attach(_, _, _, _) =>
      case Arrive(pid, ppn) =>
        ArriveSets(c, s, pid, ppn);
      case Resume(pid) =>
        ProceedSets(c, s, pid);
      case TimeOut(pid) =>
    }
  }

  lemma WakeSets(s: State)
    ensures SameSets(s, WakeFirst(s))
  {
  }

  lemma ProceedSets(c: Config, s: State, pid: Pid)
    requires c.nprocs <= CPU_SETSIZE
    ensures SameSets(s, Proceed(c, s, pid))
  {
    hide Divide, Insert;
  }

  lemma ArriveSets(c: Config, s: State, pid: Pid, ppn: nat)
    requires c.nprocs <= CPU_SETSIZE
    ensures SameSets(s, ArriveStep(c, s, pid, ppn))
  {
    hide Divide, Insert, WakeFirst, Proceed;
    var t := if s.nrProcesses == -1 then s.(nrProcesses := ppn, nrLeft := ppn) else s;
    var u := t.(nrLeft := t.nrLeft - 1, queue := Insert(t.queue, pid), joined := t.joined + {pid},
                fates := t.fates[pid := Waiting(false, false)]);
    WakeSets(u);
    ProceedSets(c, WakeFirst(u).(nrLeft := u.nrProcesses, rank := 0), pid);
  }

  lemma {:induction false} LastAttacherDecides(c: Config, states: seq<State>, events: seq<Event>, j: nat, k: nat)
    requires Run(c, states, events) && j < k < |states|
    requires events[j].Attach? && |states[j].attached| == c.ppn - 1
    ensures |states[k].attached| == c.ppn && states[k].excluded == events[j].exclude
    ensures states[k].offered == states[j].offered + Prefix(events[j].allowed, c.nprocs)
    ensures states[k].discovered == Discover(c.nprocs, states[k].offered, events[j].exclude, events[j].movable)
    decreases k - j
  {
    RunKeepsInv(c, states, events, k - 1);
    if k == j + 1 {
      assert |states[j].attached + {events[j].pid}| == c.ppn;
      AttachLast(c, states[j], events[j]);
    } else {
      hide Inv, Enabled, Next, Discover, Prefix;
      LastAttacherDecides(c, states, events, j, k - 1);
      StepKeepsSets(c, states[k - 1], events[k - 1]);
    }
  }

  lemma AttachLast(c: Config, s: State, e: Event)
    requires Inv(c, s) && Enabled(c, s, e) && e.Attach? && |s.attached| == c.ppn - 1
    ensures
      var t := Next(c, s, e);
      && t.excluded == e.exclude && t.offered == s.offered + Prefix(e.allowed, c.nprocs)
      && t.discovered == Discover(c.nprocs, t.offered, e.exclude, e.movable)
  {
    hide PhaseInv, Membership;
  }
}
