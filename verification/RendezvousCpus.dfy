/**
  Which CPUs a run settles on and hands out, in terms of what the processes bring.
 */
module RendezvousCpus {
  import opened Choices
  import opened Errors
  import opened Ordinals
  import opened Partition
  import opened Rendezvous
  import opened RendezvousRuns

  // ---------- pooling the CPUs of all attachers ----------

  ghost predicate NoneAttached(events: seq<Event>, k: nat)
    requires k <= |events|
  {
    forall h | 0 <= h < k :: !events[h].Attach?
  }

  // Event i is an attachment that brings x: any allowed CPU if it is the first, else one below nprocs
  ghost predicate Brings(c: Config, events: seq<Event>, i: nat, x: Cpu) {
    i < |events| && events[i].Attach? && x in events[i].allowed && (NoneAttached(events, i) || x < c.nprocs)
  }

  ghost predicate Brought(c: Config, events: seq<Event>, k: nat, x: Cpu) {
    exists i: nat :: i < k && Brings(c, events, i, x)
  }

  // Only attaching changes the processes and the CPUs the run starts from
  lemma OthersKeepSets(c: Config, s: State, e: Event)
    requires Inv(c, s) && Enabled(c, s, e) && !e.Attach?
    ensures SameSets(s, Next(c, s, e))
  {
    hide Membership, Gathered, PhaseInv, Divide, Insert, WakeFirst, Proceed;
    match e {
      case Arrive(pid, ppn) =>
        ArriveSets(c, s, pid, ppn);
      case Resume(pid) =>
        ProceedSets(c, s, pid);
      case TimeOut(pid) =>
    }
  }

  lemma AttachOffers(c: Config, s: State, e: Event, x: Cpu)
    requires Inv(c, s) && Enabled(c, s, e) && e.Attach?
    ensures Next(c, s, e).attached == s.attached + {e.pid}
    ensures x in Next(c, s, e).offered <==>
              (x in s.offered && s.attached != {}) || (x in e.allowed && (s.attached == {} || x < c.nprocs))
  {
    hide Membership, Gathered, PhaseInv, Discover;
  }

  lemma {:induction false} AttachedMeans(c: Config, states: seq<State>, events: seq<Event>, k: nat)
    requires Run(c, states, events) && k < |states|
    ensures k <= |events| && (states[k].attached == {} <==> NoneAttached(events, k))
  {
    RunLength(c, states, events);
    if k == 0 {
    } else {
      AttachedMeans(c, states, events, k - 1);
      RunStep(c, states, events, k - 1);
      hide Run, Inv, Enabled, Next;
      if events[k - 1].Attach? {
        AttachOffers(c, states[k - 1], events[k - 1], 0);
        assert events[k - 1].pid in states[k].attached;
      } else {
        OthersKeepSets(c, states[k - 1], events[k - 1]);
      }
    }
  }

  lemma BroughtStep(c: Config, events: seq<Event>, k: nat, x: Cpu)
    requires 0 < k <= |events|
    ensures Brought(c, events, k, x) <==> Brought(c, events, k - 1, x) || Brings(c, events, k - 1, x)
  {
    hide Brings;
    if Brought(c, events, k, x) {
      var i: nat :| i < k && Brings(c, events, i, x);
      assert i == k - 1 || i < k - 1;
    }
  }

  // The CPUs on offer are exactly those that the attachers so far have brought
  lemma {:induction false} OfferedIsBrought(c: Config, states: seq<State>, events: seq<Event>, k: nat, x: Cpu)
    requires Run(c, states, events) && k < |states|
    ensures x in states[k].offered <==> Brought(c, events, k, x)
  {
    if k == 0 {
    } else {
      hide *;
      RunLength(c, states, events);
      OfferedIsBrought(c, states, events, k - 1, x);
      AttachedMeans(c, states, events, k - 1);
      RunStep(c, states, events, k - 1);
      BroughtStep(c, events, k, x);
      OfferedStep(c, states, events, k, x);
    }
  }

  lemma OfferedStep(c: Config, states: seq<State>, events: seq<Event>, k: nat, x: Cpu)
    requires 0 < k <= |events| < |states| && ValidConfig(c)
    requires Inv(c, states[k - 1]) && Enabled(c, states[k - 1], events[k - 1])
    requires events[k - 1].Resume? ==>
               events[k - 1].pid in states[k - 1].fates && states[k - 1].fates[events[k - 1].pid].Waiting?
    requires states[k] == Next(c, states[k - 1], events[k - 1])
    requires states[k - 1].attached == {} <==> NoneAttached(events, k - 1)
    requires x in states[k - 1].offered <==> Brought(c, events, k - 1, x)
    ensures x in states[k].offered <==> Brought(c, events, k - 1, x) || Brings(c, events, k - 1, x)
  {
    hide Inv, Enabled, Next, Brought;
    if events[k - 1].Attach? {
      AttachOffers(c, states[k - 1], events[k - 1], x);
      if states[k - 1].attached == {} {
        NothingBrought(c, events, k - 1, x);
      }
    } else {
      OthersKeepSets(c, states[k - 1], events[k - 1]);
    }
  }

  lemma NothingBrought(c: Config, events: seq<Event>, k: nat, x: Cpu)
    requires k <= |events| && NoneAttached(events, k)
    ensures !Brought(c, events, k, x)
  {
  }

  // ---------- settling ----------

  lemma DiscoverMembers(nprocs: nat, avail: CpuSet, exclude: CpuSet, movable: CpuSet, x: Cpu)
    ensures x in Discover(nprocs, avail, exclude, movable) <==>
              x < nprocs && x in movable && x !in exclude && x !in avail
  {
  }

  // Once the ppn-th process has attached, it is known which CPUs it discovered, and which
  // all processes start from: those brought or discovered, but for the ones it excludes
  lemma SettledSet(c: Config, states: seq<State>, events: seq<Event>, j: nat, k: nat, x: Cpu)
    requires Run(c, states, events) && j < k < |states|
    requires events[j].Attach? && |states[j].attached| == c.ppn - 1
    ensures
      var e := events[j];
      && (x in states[k].discovered <==>
            x < c.nprocs && x in e.movable && x !in e.exclude && !Brought(c, events, k, x))
      && (x in states[k].initial <==>
            (x in e.exclude ==> x >= c.nprocs)
            && (Brought(c, events, k, x) || (x < c.nprocs && x in e.movable)))
  {
    LastAttacherDecides(c, states, events, j, k);
    OfferedIsBrought(c, states, events, k, x);
    DiscoverMembers(c.nprocs, states[k].offered, events[j].exclude, events[j].movable, x);
    InitialSettled(c, states, events, k);
  }

  lemma InitialSettled(c: Config, states: seq<State>, events: seq<Event>, k: nat)
    requires Run(c, states, events) && k < |states| && |states[k].attached| == c.ppn
    ensures
      var s := states[k];
      && s.initial == (s.offered + s.discovered) - Prefix(s.excluded, c.nprocs)
      && s.quota == |s.initial| / c.ppn
  {
    RunKeepsInv(c, states, events, k);
    hide Run, Membership, PhaseInv;
  }

  // ---------- handing out ----------

  // Which CPUs are free in the course of a round: before the first rank all the settled ones, then
  // those in no share, and none at the end
  lemma FreeCpus(c: Config, states: seq<State>, events: seq<Event>, k: nat)
    requires Run(c, states, events) && k < |states|
    ensures
      var s := states[k];
      match s.phase
      case Gathering => |s.attached| == c.ppn ==> s.avail == s.initial
      case Releasing(_) => s.avail == if s.rank == 0 then s.initial else s.initial - UnionOf(s.shares)
      case Finished => s.avail == {} && s.queue == [] && s.nrProcesses == -1
      case Stuck => true
      case Aborted => true
  {
    RunKeepsInv(c, states, events, k);
    hide Run, Membership, Gathered, RanksGiven, UnionOf;
  }

  // The CPUs of a process are taken one after another from what the ranks before it leave
  lemma BoundInOrder(c: Config, states: seq<State>, events: seq<Event>, k: nat, p: Pid) returns (order: seq<Cpu>)
    requires Run(c, states, events) && k < |states| && HasRank(states[k], p)
    ensures c.topo.Some? && p in states[k].bound && states[k].fates[p].ret < |states[k].shares|
    ensures
      var s := states[k];
      var left := s.initial - UnionOf(s.shares[..s.fates[p].ret]);
      && |order| == (if s.quota < 1 then 1 else s.quota)
      && TakenInOrder(c.topo.value, c.nprocs, left, order)
      && s.bound[p] == left * Taken(order)
  {
    var s := states[k];
    RunConfig(c, states, events);
    BoundToShare(c, states, events, k, p);
    RunKeepsInv(c, states, events, k);
    SettledIsCpuSet(c, s);
    SharesDivide(c, s, p);
    hide *;
    order := ShareOfRank(c.topo.value, c.nprocs, s.initial, s.quota, c.ppn, s.fates[p].ret);
  }

  lemma SharesDivide(c: Config, s: State, p: Pid)
    requires Inv(c, s) && HasRank(s, p) && c.topo.Some?
    ensures s.shares == Divide(c.topo.value, c.nprocs, s.initial, s.quota, c.ppn).shares
  {
    hide Membership, Gathered, CountBelow, Divide;
  }
}
