/**
  How a run of the rendezvous fails: an abort fails every process it finds, and
  what goes wrong with the late timeouts and the spurious wake-ups that runs exclude.
 */
module RendezvousFailures {
  import opened Errors
  import opened Ordinals
  import opened Partition
  import opened Rendezvous
  import opened RendezvousRuns

  // ---------- an abort fails everyone ----------

  // p has failed with the timeout error, or has been told to
  ghost predicate Failing(s: State, p: Pid) {
    p in s.fates && p !in s.queue && (s.fates[p] == Waiting(true, true) || s.fates[p] == Done(-ETIMEDOUT))
  }

  lemma FailingStays(c: Config, s: State, e: Event, p: Pid)
    requires Inv(c, s) && Enabled(c, s, e) && s.phase.Aborted? && Failing(s, p)
    ensures Failing(Next(c, s, e), p)
  {
    hide CountBelow, RanksGiven, Gathered, Divide, Insert, Proceed;
    match e {
      case Attach(_, _, _, _) =>
      case Arrive(pid, ppn) =>
        LateArrival(c, s, pid, ppn);
        InsertSorted(s.queue, pid);
      case Resume(pid) =>
      case TimeOut(pid) =>
    }
  }

  // A process that arrives after an abort is not the last one
  lemma LateArrival(c: Config, s: State, pid: Pid, ppn: nat)
    requires Inv(c, s) && s.phase.Aborted? && pid in s.attached && pid !in s.fates
    requires Enabled(c, s, Event.Arrive(pid, ppn))
    ensures pid !in s.queue && (s.nrProcesses != -1 ==> s.nrProcesses == c.ppn && s.nrLeft > 1)
    ensures s.nrProcesses == -1 ==> ppn == c.ppn > 1
  {
    hide CountBelow, RanksGiven, Gathered;
    NotYetReleased(c, s, pid);
  }

  // Whoever fails in a state that is aborted fails in all later ones
  lemma {:induction false} FailingForGood(c: Config, states: seq<State>, events: seq<Event>, j: nat, k: nat, p: Pid)
    requires Run(c, states, events) && j <= k < |states| && states[j].phase.Aborted? && Failing(states[j], p)
    ensures Failing(states[k], p)
    decreases k - j
  {
    hide Inv, Enabled, Next, Failing;
    if j == k {
    } else {
      FailingForGood(c, states, events, j, k - 1, p);
      AbortedForGood(c, states, events, j, k - 1);
      RunKeepsInv(c, states, events, k - 1);
      FailingStays(c, states[k - 1], events[k - 1], p);
    }
  }

  // A timeout fails the process that times out and every process that waits in the list
  lemma TimeOutFailsAll(c: Config, states: seq<State>, events: seq<Event>, j: nat, k: nat, p: Pid)
    requires Run(c, states, events) && j < |events| && j < k < |states|
    requires events[j].TimeOut? && (p in states[j].queue || p == events[j].pid)
    ensures Failing(states[k], p)
  {
    RunKeepsInv(c, states, events, j);
    TimeOutKeepsInv(c, states[j], events[j]);
    hide CountBelow, RanksGiven, Gathered;
    assert Failing(states[j + 1], p);
    hide Run, Inv, Failing;
    FailingForGood(c, states, events, j + 1, k, p);
  }

  // The partitioning process aborts if it cannot collect the topology
  lemma ProceedWithoutTopology(c: Config, s: State, pid: Pid, p: Pid)
    requires Released(c, s, pid) && c.topo.None? && p in Proceed(c, s, pid).joined
    ensures Proceed(c, s, pid) == AbortAll(s.(nrLeft := s.nrLeft - 1), pid)
    ensures Proceed(c, s, pid).phase.Aborted? && Failing(Proceed(c, s, pid), p)
  {
    hide CountBelow, Gathered;
    FirstReleased(c, s, pid);
  }

  lemma ReleasedRunning(c: Config, s: State, pid: Pid)
    requires Inv(c, s) && s.phase.Releasing? && pid in s.fates && s.fates[pid].Waiting? && s.fates[pid].ready
    ensures pid == s.phase.running && s.fates[pid] == Waiting(true, false) && Released(c, s, pid)
  {
    hide CountBelow, RanksGiven, Gathered;
  }

  lemma LastWithoutTopology(c: Config, s: State, e: Event, p: Pid)
    requires Inv(c, s) && e.Arrive? && Enabled(c, s, e) && s.phase.Gathering? && c.topo.None?
    requires |Next(c, s, e).joined| == c.ppn && !Next(c, s, e).phase.Releasing? && p in Next(c, s, e).joined
    ensures Next(c, s, e).phase.Aborted? && Failing(Next(c, s, e), p)
  {
    hide CountBelow, RanksGiven, Divide, Insert, Gathered, Proceed, WakeFirst, Failing, Released, Membership, PhaseInv;
    var pid := e.pid;
    NotYetReleased(c, s, pid);
    if s.nrProcesses == -1 || s.nrProcesses == e.ppn {
      hide Next, CountedIn;
      var u := Admitted(c, s, e);
      CountedPhaseKept(c, s, u, pid);
      if u.nrLeft == 0 {
        LastReleases(c, s, u, pid);
        if u.queue[0] == pid {
          ProceedWithoutTopology(c, WakeFirst(u).(nrLeft := u.nrProcesses, rank := 0), pid, p);
        }
      } else {
        NotLast(c, s, u, pid);
      }
    }
  }

  lemma NotLast(c: Config, s: State, u: State, pid: Pid)
    requires CountedIn(c, s, u, pid) && s.phase.Gathering? && u.nrLeft != 0
    ensures |u.joined| != c.ppn
  {
    hide Gathered, CountBelow, RanksGiven;
    GatheringFacts(c, s);
    assert |u.joined| == |s.joined| + 1;
  }

  lemma NoTopologyFails(c: Config, s: State, e: Event, p: Pid)
    requires Inv(c, s) && Enabled(c, s, e) && c.topo.None? && !s.phase.Aborted?
    requires |Next(c, s, e).joined| == c.ppn && !Next(c, s, e).phase.Releasing? && p in Next(c, s, e).joined
    ensures Next(c, s, e).phase.Aborted? && Failing(Next(c, s, e), p)
  {
    hide CountBelow, RanksGiven, Gathered, Divide, Insert, Proceed, Failing;
    match e {
      case Attach(_, _, _, _) =>
        AttachKeeps(c, s, e);
      case Arrive(pid, ppn) =>
        NotYetReleased(c, s, pid);
        LastWithoutTopology(c, s, e, p);
      case Resume(pid) =>
        ReleasedRunning(c, s, pid);
        ProceedWithoutTopology(c, s, pid, p);
      case TimeOut(pid) =>
    }
  }

  // Without a topology, once everyone has joined, the partitioning process fails everyone
  lemma NoTopologyFailsAll(c: Config, states: seq<State>, events: seq<Event>, j: nat, k: nat, p: Pid)
    requires Run(c, states, events) && j < |events| && j < k < |states| && c.topo.None?
    requires !states[j].phase.Aborted? && |states[j + 1].joined| == c.ppn && !states[j + 1].phase.Releasing?
    requires p in states[j + 1].joined
    ensures Failing(states[k], p)
  {
    RunKeepsInv(c, states, events, j);
    RunKeepsInv(c, states, events, j + 1);
    assert Enabled(c, states[j], events[j]) && states[j + 1] == Next(c, states[j], events[j]);
    hide Run;
    NoTopologyFails(c, states[j], events[j], p);
    hide Inv, Failing;
    assert Run(c, states, events);
    FailingForGood(c, states, events, j + 1, k, p);
  }

  // Resuming is all the released process needs to fail everyone
  lemma HeadFailsAll(c: Config, states: seq<State>, events: seq<Event>, j: nat, k: nat, p: Pid)
    requires Run(c, states, events) && j < |events| && j < k < |states| && c.topo.None?
    requires states[j].phase.Releasing? && events[j] == Resume(states[j].phase.running) && p in states[j].joined
    ensures Failing(states[k], p)
  {
    RunKeepsInv(c, states, events, j);
    HeadAborts(c, states[j], events[j].pid);
    NoTopologyFailsAll(c, states, events, j, k, p);
  }

  lemma HeadAborts(c: Config, s: State, pid: Pid)
    requires Inv(c, s) && Enabled(c, s, Event.Resume(pid)) && s.phase == Releasing(pid) && c.topo.None?
    ensures
      var t := Next(c, s, Resume(pid));
      t.phase.Aborted? && t.joined == s.joined && |t.joined| == c.ppn
  {
    hide CountBelow, RanksGiven, Gathered, Divide;
  }

  // A process that has been told can resume, and returns the timeout error
  lemma ToldOfTimeout(c: Config, s: State, p: Pid)
    requires ValidConfig(c) && Failing(s, p) && s.fates[p].Waiting?
    ensures Enabled(c, s, Resume(p)) && Next(c, s, Resume(p)).fates[p] == Done(-ETIMEDOUT)
  {
    hide Divide;
  }

  // When the topology does not suffice, the waiters are not told: all that is left for them is to time out
  lemma StuckUntilTimeOut(c: Config, s: State, e: Event)
    requires Inv(c, s) && s.phase.Stuck? && Enabled(c, s, e)
    ensures e.TimeOut? && e.pid in s.queue
  {
    hide CountBelow, RanksGiven, Gathered;
    Larger(s.joined, s.attached);
    AllAttached(c, s);
  }

  // ---------- timing out while a process is released ----------

  // Resuming takes the process past the partitioning, to wake the next one of an empty list
  ghost predicate WakesNobody(c: Config, s: State, pid: Pid)
    requires c.nprocs <= CPU_SETSIZE
  {
    && pid in s.fates && s.fates[pid] == Waiting(true, false)
    && (s.rank != 0 ||
        (c.topo.Some? &&
         Divide(c.topo.value, c.nprocs, s.avail, s.quota, if s.nrProcesses >= 0 then s.nrProcesses else 0).ok))
    && s.nrLeft - 1 != 0 && s.queue == []
  }

  // If a waiter times out while another process is released, that process wakes the first of an
  // empty list exactly if the topology can be collected
  lemma LateTimeOut(c: Config, s: State, p: Pid)
    requires Inv(c, s) && s.phase.Releasing? && p in s.fates && s.fates[p].Waiting? && p != s.phase.running
    ensures WakesNobody(c, AbortAll(s, p), s.phase.running) <==> c.topo.Some?
  {
    hide CountBelow, Gathered;
    assert s.phase.running !in s.queue;
    assert p in s.queue;
  }

  // Otherwise it aborts as well
  lemma LateTimeOutWithoutTopology(c: Config, s: State, p: Pid)
    requires Inv(c, s) && s.phase.Releasing? && p in s.fates && s.fates[p].Waiting? && p != s.phase.running
    requires c.topo.None?
    ensures
      var running := s.phase.running;
      var t := AbortAll(s, p);
      Enabled(c, t, Resume(running)) && Next(c, t, Resume(running)) == AbortAll(t.(nrLeft := t.nrLeft - 1), running)
  {
    hide CountBelow, Gathered;
    assert s.phase.running !in s.queue;
  }

  // If the released process itself times out, nobody is left to wake anyone; whether nobody has a
  // rank depends on whether it was the first
  lemma RunningTimeOut(c: Config, s: State)
    requires Inv(c, s) && s.phase.Releasing?
    ensures
      var t := AbortAll(s, s.phase.running);
      && (forall p | p in s.joined :: t.fates[p].Done? || Failing(t, p))
      && (NoRank(t) <==> s.rank == 0)
  {
    hide Gathered, RanksGiven;
    var running := s.phase.running;
    var t := AbortAll(s, running);
    if s.rank == 0 {
      FirstReleased(c, s, running);
    } else {
      var p := Smaller(s.joined, running);
      assert t.fates[p] == s.fates[p];
    }
  }

  // Some element lies below, if any is counted
  lemma {:induction false} Smaller(joined: set<Pid>, p: Pid) returns (q: Pid)
    requires CountBelow(joined, p) > 0
    ensures q in joined && q < p
  {
    if p - 1 in joined {
      q := p - 1;
    } else {
      q := Smaller(joined, p - 1);
    }
  }

  // Two processes suffice: the first is released while the second waits
  lemma ReleasedWhileWaiting(c: Config, allowed: CpuSet, exclude: CpuSet, movable: CpuSet)
    returns (states: seq<State>, events: seq<Event>)
    requires ValidConfig(c) && c.ppn == 2 && IsCpuSet(allowed)
    ensures Run(c, states, events) && |events| == 4 && events[1] == Event.Attach(2, allowed, exclude, movable)
    ensures states[4].phase == Releasing(1) && states[4].queue == [2]
    ensures WakesNobody(c, AbortAll(states[4], 2), 1) <==> c.topo.Some?
  {
    var first, second := Event.Attach(1, allowed, exclude, movable), Event.Attach(2, allowed, exclude, movable);
    var a := Next(c, START, first);
    var b := Next(c, a, second);
    BothAttached(c, allowed, exclude, movable);
    hide AttachStep;
    BothArrived(c, b);
    var d := Next(c, b, Event.Arrive(1, 2));
    var e := Next(c, d, Event.Arrive(2, 2));
    states := [START, a, b, d, e];
    events := [first, second, Event.Arrive(1, 2), Event.Arrive(2, 2)];
    hide *;
    IsRun(c, states, events);
    RunKeepsInv(c, states, events, 4);
    LateTimeOut(c, e, 2);
  }

  lemma IsRun(c: Config, states: seq<State>, events: seq<Event>)
    requires ValidConfig(c) && |events| == 4 && |states| == 5 && states[0] == START
    requires Enabled(c, states[0], events[0]) && states[1] == Next(c, states[0], events[0])
    requires Enabled(c, states[1], events[1]) && states[2] == Next(c, states[1], events[1])
    requires Enabled(c, states[2], events[2]) && states[3] == Next(c, states[2], events[2])
    requires Enabled(c, states[3], events[3]) && states[4] == Next(c, states[3], events[3])
    ensures Run(c, states, events)
  {
    hide Next, Enabled;
  }

  lemma BothAttached(c: Config, allowed: CpuSet, exclude: CpuSet, movable: CpuSet)
    requires ValidConfig(c) && c.ppn == 2 && IsCpuSet(allowed)
    ensures
      var first, second := Event.Attach(1, allowed, exclude, movable), Event.Attach(2, allowed, exclude, movable);
      var a := Next(c, START, first);
      var b := Next(c, a, second);
      && Enabled(c, START, first) && Enabled(c, a, second)
      && b.attached == {1, 2} && b.fates == map[] && b.joined == {} && b.queue == [] && b.nrProcesses == -1
  {
    hide Discover, Prefix;
    assert Next(c, START, Event.Attach(1, allowed, exclude, movable)).attached == {1};
  }

  lemma BothArrived(c: Config, b: State)
    requires ValidConfig(c) && c.ppn == 2
    requires b.attached == {1, 2} && b.fates == map[] && b.joined == {} && b.queue == [] && b.nrProcesses == -1
    ensures
      var d := Next(c, b, Event.Arrive(1, 2));
      var e := Next(c, d, Event.Arrive(2, 2));
      && Enabled(c, b, Event.Arrive(1, 2)) && Enabled(c, d, Event.Arrive(2, 2))
      && e.phase == Releasing(1) && e.queue == [2] && 2 in e.fates && e.fates[2] == Waiting(false, false)
  {
    hide Proceed;
    var d := Next(c, b, Event.Arrive(1, 2));
    assert d.queue == [1] && d.nrLeft == 1 && d.nrProcesses == 2;
    InsertAfter();
  }

  lemma InsertAfter()
    ensures Insert([1], 2) == [1, 2]
  {
    assert Insert([], 2) == [2];
    assert [1][1..] == [];
  }

  // ---------- leaving without having been woken ----------

  // A waiter that leaves unwoken stays in the list
  lemma UnwokenStaysListed(c: Config, s: State, p: Pid)
    requires Inv(c, s) && p in s.fates && s.fates[p] == Waiting(false, false)
    ensures
      var t := Next(c, s, Resume(p));
      t.fates[p] == Done(-EINVAL) && t.queue == s.queue && p in t.queue
  {
    hide Gathered, CountBelow, RanksGiven;
  }

  // The waiter first in the list leaves unwoken: it stays listed, and when the released process
  // passes the token on, it passes it to the process that has left
  lemma SpuriousWakeUp(c: Config, s: State)
    requires Inv(c, s) && s.phase.Releasing? && s.queue != []
    ensures
      var p := s.queue[0];
      var t := Next(c, s, Resume(p));
      && t.fates[p] == Done(-EINVAL) && t.queue == s.queue
      && (Next(c, t, Resume(s.phase.running)).phase == Releasing(p) <==> PartitionOk(c, s))
  {
    hide Gathered, CountBelow, Divide;
    var p := s.queue[0];
    assert p in s.queue;
    AllAttached(c, s);
  }

  // ---------- arriving with another number of processes ----------

  // Whoever names another number than the first arrival did fails and changes nothing else
  lemma MismatchFails(c: Config, s: State, pid: Pid, ppn: nat)
    requires Inv(c, s) && Enabled(c, s, Event.Arrive(pid, ppn)) && ppn != c.ppn
    ensures Next(c, s, Event.Arrive(pid, ppn)) == s.(fates := s.fates[pid := Done(-EINVAL)])
  {
    hide Gathered, CountBelow, RanksGiven;
    NotYetReleased(c, s, pid);
  }

  // Only who names the right one is counted in
  lemma ArrivalCounts(c: Config, s: State, pid: Pid, ppn: nat)
    requires Inv(c, s) && Enabled(c, s, Event.Arrive(pid, ppn))
    ensures Next(c, s, Event.Arrive(pid, ppn)).joined == if ppn == c.ppn then s.joined + {pid} else s.joined
  {
    hide Gathered, CountBelow, RanksGiven, Divide, Insert, PhaseInv;
    NotYetReleased(c, s, pid);
  }

  lemma NotJoinedStays(c: Config, s: State, e: Event, p: Pid)
    requires Inv(c, s) && Enabled(c, s, e) && p in s.fates && p !in s.joined
    ensures p in Next(c, s, e).fates && p !in Next(c, s, e).joined
  {
    hide Gathered, CountBelow, RanksGiven, Divide, Insert, PhaseInv;
    DonePersists(c, s, e, p);
    if e.Arrive? {
      ArrivalCounts(c, s, e.pid, e.ppn);
    }
  }

  // It fails for good, and is never counted in
  lemma {:induction false} MismatchForGood(c: Config, states: seq<State>, events: seq<Event>, j: nat, k: nat)
    requires Run(c, states, events) && j < |events| && j < k < |states| && events[j].Arrive? && events[j].ppn != c.ppn
    ensures
      var p := events[j].pid;
      p in states[k].fates && states[k].fates[p] == Done(-EINVAL) && p !in states[k].joined
    decreases k - j
  {
    hide *;
    RunLength(c, states, events);
    RunStep(c, states, events, k - 1);
    if k == j + 1 {
      Mismatch(c, states[j], events[j]);
    } else {
      MismatchForGood(c, states, events, j, k - 1);
      DonePersists(c, states[k - 1], events[k - 1], events[j].pid);
      NotJoinedStays(c, states[k - 1], events[k - 1], events[j].pid);
    }
  }

  lemma Mismatch(c: Config, s: State, e: Event)
    requires Inv(c, s) && Enabled(c, s, e) && e.Arrive? && e.ppn != c.ppn
    ensures
      var t := Next(c, s, e);
      e.pid in t.fates && t.fates[e.pid] == Done(-EINVAL) && e.pid !in t.joined
  {
    hide Gathered, CountBelow, RanksGiven, PhaseInv;
    MismatchFails(c, s, e.pid, e.ppn);
  }

  // ---------- partitioning without enough of a topology ----------

  // The process that fails to partition returns the invalid-argument error, and no other returns
  lemma StuckHead(c: Config, states: seq<State>, events: seq<Event>, k: nat, p: Pid)
    requires Run(c, states, events) && k < |states| && states[k].phase.Stuck? && p in states[k].joined
    ensures p in states[k].fates
    ensures states[k].fates[p] == if p in states[k].queue then Waiting(false, false) else Done(-EINVAL)
  {
    RunKeepsInv(c, states, events, k);
    hide Run, Gathered;
  }
}
