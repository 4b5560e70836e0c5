/**
  The shared record of mpipin and the code of main and pin_process that updates it:
  counters, a slot per process, and the waiting list threaded through the slots.
  Every method is proved to be the corresponding step of the rendezvous.
 */
module PartExecs {
  import opened Errors
  import opened Ordinals
  import opened Partition
  import opened Rendezvous

  // struct process_list_item
  datatype Slot = Slot(ready: bool, timeout: bool, pid: Pid, next: int)

  // What a process gets out of one stay in the critical section
  datatype Outcome = Blocked(slot: nat) | Failed(ret: int) | Ranked(rank: int, cpus: CpuSet)

  // ---------- the list threaded through the slots ----------

  function LinkAfter(chain: seq<nat>, k: nat): int {
    if k + 1 < |chain| then chain[k + 1] else -1
  }

  // Following the links from first visits the slots of chain
  ghost predicate Linked(slots: seq<Slot>, first: int, chain: seq<nat>) {
    && first == (if chain == [] then -1 else chain[0])
    && (forall k | 0 <= k < |chain| :: chain[k] < |slots| && slots[chain[k]].next == LinkAfter(chain, k))
  }

  // The slots hold the processes that joined, in the order they came
  ghost predicate Occupied(slots: seq<Slot>, used: seq<Pid>) {
    && |slots| == MAX_PROCESSES && |used| <= MAX_PROCESSES
    && (forall i | 0 <= i < |used| :: slots[i].pid == used[i] && used[i] > 0)
    && (forall i | |used| <= i < |slots| :: slots[i].pid == 0)
    && (forall i, j | 0 <= i < j < |used| :: used[i] != used[j])
  }

  // The slots of chain hold the queue
  ghost predicate Holds(used: seq<Pid>, chain: seq<nat>, queue: seq<Pid>) {
    && |chain| == |queue|
    && (forall k | 0 <= k < |chain| :: chain[k] < |used| && used[chain[k]] == queue[k])
  }

  // The flags tell each waiter what has become of it
  ghost predicate Flagged(slots: seq<Slot>, used: seq<Pid>, fates: map<Pid, Fate>)
    requires |used| <= |slots|
  {
    forall i | 0 <= i < |used| && used[i] in fates && fates[used[i]].Waiting? ::
      slots[i].ready == fates[used[i]].ready && slots[i].timeout == fates[used[i]].timeout
  }

  ghost predicate Represents(slots: seq<Slot>, first: int, chain: seq<nat>, used: seq<Pid>, v: State) {
    && Occupied(slots, used) && Linked(slots, first, chain) && Holds(used, chain, v.queue)
    && Flagged(slots, used, v.fates)
    && |used| == |v.joined| && (forall p :: p in used <==> p in v.joined)
  }

  lemma FirstLink(slots: seq<Slot>, first: int, chain: seq<nat>)
    requires Linked(slots, first, chain)
    ensures first == if chain == [] then -1 else chain[0]
  {
  }

  lemma LinkAt(slots: seq<Slot>, first: int, chain: seq<nat>, k: nat)
    requires Linked(slots, first, chain) && k < |chain|
    ensures chain[k] < |slots| && slots[chain[k]].next == if k + 1 < |chain| then chain[k + 1] else -1
  {
  }

  // ---------- popping and inserting ----------

  lemma PoppedLinks(slots: seq<Slot>, first: int, chain: seq<nat>, after: seq<Slot>)
    requires Linked(slots, first, chain) && chain != [] && |after| == |slots|
    requires forall i | 0 <= i < |slots| :: after[i].next == slots[i].next
    ensures Linked(after, slots[first].next, chain[1..])
  {
    hide LinkAfter;
    forall k | 0 <= k < |chain[1..]|
      ensures chain[1..][k] < |after| && after[chain[1..][k]].next == LinkAfter(chain[1..], k)
    {
      assert chain[1..][k] == chain[k + 1];
      NextLink(chain, k);
    }
    NextLink(chain, -1);
  }

  lemma NextLink(chain: seq<nat>, k: int)
    requires -1 <= k && k + 1 < |chain|
    ensures k >= 0 ==> LinkAfter(chain[1..], k) == LinkAfter(chain, k + 1)
    ensures LinkAfter(chain, 0) == if |chain| > 1 then chain[1] else -1
  {
  }

  lemma PoppedHolds(used: seq<Pid>, chain: seq<nat>, queue: seq<Pid>)
    requires Holds(used, chain, queue) && chain != []
    ensures Holds(used, chain[1..], queue[1..])
  {
  }

  lemma PoppedFlags(slots: seq<Slot>, used: seq<Pid>, fates: map<Pid, Fate>, my: nat)
    requires Occupied(slots, used) && Flagged(slots, used, fates) && my < |used|
    requires used[my] in fates && fates[used[my]] == Waiting(false, false)
    ensures Flagged(slots[my := slots[my].(ready := true)], used, fates[used[my] := Waiting(true, false)])
  {
  }

  // Taking the first slot off the list and setting its ready flag
  lemma Popped(slots: seq<Slot>, first: int, chain: seq<nat>, used: seq<Pid>, v: State)
    requires Represents(slots, first, chain, used, v) && chain != [] && AllWaiting(v)
    ensures 0 <= first < |slots| && v.queue != []
    ensures Represents(slots[first := slots[first].(ready := true)], slots[first].next, chain[1..], used, WakeFirst(v))
  {
    hide Flagged, LinkAfter;
    assert v.queue[0] in v.queue;
    var after := slots[first := slots[first].(ready := true)];
    PoppedLinks(slots, first, chain, after);
    PoppedHolds(used, chain, v.queue);
    PoppedFlags(slots, used, v.fates, first);
  }

  // Where Insert puts a process
  lemma {:induction false} InsertAt(queue: seq<Pid>, pid: Pid, k: nat)
    requires k <= |queue| && (forall j | 0 <= j < k :: queue[j] <= pid) && (k < |queue| ==> queue[k] > pid)
    ensures Insert(queue, pid) == queue[..k] + [pid] + queue[k..]
  {
    if k == 0 {
    } else {
      InsertAt(queue[1..], pid, k - 1);
      assert queue[..k] == [queue[0]] + queue[1..][..k - 1];
      assert queue[k..] == queue[1..][k - 1..];
    }
  }

  ghost function Spliced<T>(s: seq<T>, k: nat, x: T): seq<T>
    requires k <= |s|
  {
    s[..k] + [x] + s[k..]
  }

  // The list with slot my linked in at position k
  lemma SplicedLinks(slots: seq<Slot>, first: int, chain: seq<nat>, k: nat, my: nat, after: seq<Slot>)
    requires Linked(slots, first, chain) && k <= |chain| && my < |slots| && my !in chain
    requires forall i, j | 0 <= i < j < |chain| :: chain[i] != chain[j]
    requires |after| == |slots|
    requires after[my].next == if k < |chain| then chain[k] else -1
    requires forall i | 0 <= i < |slots| && i != my && (k == 0 || i != chain[k - 1]) :: after[i].next == slots[i].next
    requires k > 0 ==> after[chain[k - 1]].next == my
    ensures Linked(after, if k == 0 then my else first, Spliced(chain, k, my))
  {
    var more := Spliced(chain, k, my);
    forall j | 0 <= j < |more|
      ensures more[j] < |after| && after[more[j]].next == LinkAfter(more, j)
    {
      if j < k {
        assert more[j] == chain[j] && chain[j] in chain;
        if j < k - 1 {
          assert more[j + 1] == chain[j + 1];
        }
      } else if j > k {
        assert more[j] == chain[j - 1] && chain[j - 1] in chain;
        if j < |chain| {
          assert more[j + 1] == chain[j];
        }
      }
    }
  }

  lemma DistinctChain(used: seq<Pid>, chain: seq<nat>, queue: seq<Pid>)
    requires Holds(used, chain, queue) && Sorted(queue)
    ensures forall i, j | 0 <= i < j < |chain| :: chain[i] != chain[j]
  {
  }

  // The slots once slot my belongs to pid and is linked in at position k
  ghost predicate LinkedIn(slots: seq<Slot>, after: seq<Slot>, my: nat, pid: Pid, chain: seq<nat>, k: nat) {
    && |after| == |slots| && my < |slots| && k <= |chain|
    && after[my] == Slot(false, false, pid, if k < |chain| then chain[k] else -1)
    && forall i | 0 <= i < |slots| && i != my ::
         after[i] == if k > 0 && i == chain[k - 1] then slots[i].(next := my) else slots[i]
  }

  lemma JoinedOccupied(slots: seq<Slot>, used: seq<Pid>, pid: Pid, chain: seq<nat>, k: nat, after: seq<Slot>)
    requires Occupied(slots, used) && |used| < MAX_PROCESSES && pid > 0 && pid !in used
    requires LinkedIn(slots, after, |used|, pid, chain, k)
    ensures Occupied(after, used + [pid])
  {
  }

  lemma JoinedHolds(used: seq<Pid>, chain: seq<nat>, queue: seq<Pid>, pid: Pid, k: nat)
    requires Holds(used, chain, queue) && k <= |chain|
    ensures Holds(used + [pid], Spliced(chain, k, |used|), Spliced(queue, k, pid))
  {
  }

  lemma JoinedFlags(slots: seq<Slot>, used: seq<Pid>, fates: map<Pid, Fate>, pid: Pid, chain: seq<nat>, k: nat,
                    after: seq<Slot>)
    requires |used| < |slots| && Flagged(slots, used, fates) && pid !in used
    requires LinkedIn(slots, after, |used|, pid, chain, k)
    ensures Flagged(after, used + [pid], fates[pid := Waiting(false, false)])
  {
    var more := used + [pid];
    var told := fates[pid := Waiting(false, false)];
    forall i | 0 <= i < |more| && more[i] in told && told[more[i]].Waiting?
      ensures after[i].ready == told[more[i]].ready && after[i].timeout == told[more[i]].timeout
    {
      if i < |used| {
        assert more[i] == used[i] && used[i] in used;
      }
    }
  }

  // Filling an empty slot leaves the list alone
  lemma Filled(slots: seq<Slot>, first: int, chain: seq<nat>, used: seq<Pid>, queue: seq<Pid>, slot: Slot)
    requires Occupied(slots, used) && Linked(slots, first, chain) && Holds(used, chain, queue)
    requires |used| < MAX_PROCESSES
    ensures |used| !in chain && |chain| == |queue|
    ensures
      var filled := slots[|used| := slot];
      Linked(filled, first, chain) && forall j | 0 <= j < |chain| :: filled[chain[j]].pid == queue[j]
  {
  }

  lemma FilledLinked(slots: seq<Slot>, filled: seq<Slot>, after: seq<Slot>, my: nat, pid: Pid, chain: seq<nat>, k: nat)
    requires my < |slots| && filled == slots[my := Slot(false, false, pid, -1)]
    requires LinkedIn(filled, after, my, pid, chain, k)
    ensures LinkedIn(slots, after, my, pid, chain, k)
  {
  }

  // The list with a new slot for pid
  lemma Joined(slots: seq<Slot>, first: int, chain: seq<nat>, used: seq<Pid>, v: State, u: State,
               pid: Pid, k: nat, after: seq<Slot>)
    requires Represents(slots, first, chain, used, v) && Sorted(v.queue) && |used| < MAX_PROCESSES
    requires pid > 0 && pid !in v.joined && k <= |v.queue|
    requires LinkedIn(slots, after, |used|, pid, chain, k)
    requires u.queue == Spliced(v.queue, k, pid) && u.joined == v.joined + {pid}
    requires u.fates == v.fates[pid := Waiting(false, false)]
    ensures Represents(after, if k == 0 then |used| else first, Spliced(chain, k, |used|), used + [pid], u)
  {
    hide Occupied, Linked, Flagged;
    JoinedOccupied(slots, used, pid, chain, k, after);
    JoinedHolds(used, chain, v.queue, pid, k);
    JoinedFlags(slots, used, v.fates, pid, chain, k, after);
    JoinedLinks(slots, first, chain, used, v.queue, pid, k, after);
    hide LinkedIn, Holds, Spliced;
    assert forall p :: p in used + [pid] <==> p in used || p == pid;
  }

  lemma JoinedLinks(slots: seq<Slot>, first: int, chain: seq<nat>, used: seq<Pid>, queue: seq<Pid>,
                    pid: Pid, k: nat, after: seq<Slot>)
    requires Linked(slots, first, chain) && Holds(used, chain, queue) && Sorted(queue)
    requires LinkedIn(slots, after, |used|, pid, chain, k)
    ensures Linked(after, if k == 0 then |used| else first, Spliced(chain, k, |used|))
  {
    DistinctChain(used, chain, queue);
    SplicedLinks(slots, first, chain, k, |used|, after);
  }

  // ---------- the record ----------

  class PartExec {
    const config: Config
    var nrProcesses: int
    var nrProcessesLeft: int
    var nrProcessesLeftInInit: int
    var processRank: int
    var cpusAvailable: CpuSet
    var cpusToAssign: int
    var firstProcessInd: int
    const processes: array<Slot>
    const affinities: array<CpuSet>

    // the state of the rendezvous, the slots in the order of the list, and the processes in the order of the slots
    ghost var view: State
    ghost var chain: seq<nat>
    ghost var used: seq<Pid>

    ghost predicate Shape()
      reads this
    {
      processes.Length == MAX_PROCESSES && affinities.Length == MAX_PROCESSES && ValidConfig(config)
    }

    ghost predicate Counters(v: State)
      reads this
    {
      && nrProcesses == v.nrProcesses && nrProcessesLeft == v.nrLeft && nrProcessesLeftInInit == v.nrLeftInInit
      && processRank == v.rank && cpusAvailable == v.avail && cpusToAssign == v.quota
    }

    ghost predicate Shares(v: State)
      reads this, affinities
      requires Shape()
    {
      |v.shares| <= MAX_PROCESSES && affinities[..|v.shares|] == v.shares
    }

    ghost predicate Valid()
      reads this, processes, affinities
    {
      && Shape() && Counters(view) && Shares(view)
      && Represents(processes[..], firstProcessInd, chain, used, view)
    }

    // The shm_created branch of main: the first process sets up the region
    constructor (c: Config, pid: Pid, allowed: CpuSet)
      requires ValidConfig(c)
      ensures config == c && Valid() && view == Next(c, START, Event.Attach(pid, allowed, {}, {}))
      ensures pid > 0 && IsCpuSet(allowed) ==> Inv(c, view)
      ensures fresh(processes) && fresh(affinities)
    {
      config := c;
      processes := new Slot[MAX_PROCESSES](_ => Slot(false, false, 0, -1));
      affinities := new CpuSet[MAX_PROCESSES](_ => {});
      nrProcesses := -1;
      nrProcessesLeft := -1;
      processRank := 0;
      cpusToAssign := 0;
      firstProcessInd := -1;
      nrProcessesLeftInInit := c.ppn - 1;
      cpusAvailable := allowed;
      view := AttachStep(c, START, pid, allowed, {}, {});
      chain := [];
      used := [];
      new;
      assert processes[..] == seq(MAX_PROCESSES, _ => Slot(false, false, 0, -1));
      hide Inv;
      StartInv(c);
      if pid > 0 && IsCpuSet(allowed) {
        StepKeepsInv(c, START, Event.Attach(pid, allowed, {}, {}));
      }
    }

    // for_each_cpu over the allowed CPUs
    method AddAllowed(allowed: CpuSet)
      requires Shape() && IsCpuSet(allowed)
      modifies this`cpusAvailable
      ensures cpusAvailable == old(cpusAvailable) + Prefix(allowed, config.nprocs)
    {
      hide NextCpu;
      var cpu := NextCpu(allowed, 0);
      while cpu < config.nprocs
        invariant cpu <= CPU_SETSIZE && (cpu < CPU_SETSIZE ==> cpu in allowed)
        invariant cpusAvailable == old(cpusAvailable) + Prefix(allowed, cpu)
        invariant forall d | d in allowed && d < cpu :: d < config.nprocs
        decreases CPU_SETSIZE - cpu
      {
        cpusAvailable := Set(cpusAvailable, cpu);
        var next := NextCpu(allowed, cpu + 1);
        assert Prefix(allowed, next) == Prefix(allowed, cpu) + {cpu};
        cpu := next;
      }
      assert Prefix(allowed, cpu) == Prefix(allowed, config.nprocs);
    }

    // The last process tries to move to every CPU that is neither excluded nor available
    method DiscoverCpus(exclude: CpuSet, movable: CpuSet)
      requires Shape()
      modifies this`cpusAvailable
      ensures cpusAvailable == old(cpusAvailable) + Discover(config.nprocs, old(cpusAvailable), exclude, movable)
    {
      for cpu := 0 to config.nprocs
        invariant cpusAvailable == old(cpusAvailable) + Discover(cpu, old(cpusAvailable), exclude, movable)
      {
        if cpu !in exclude && cpu !in cpusAvailable && cpu in movable {
          cpusAvailable := Set(cpusAvailable, cpu);
        }
      }
    }

    // for_each_cpu over the excluded CPUs
    method RemoveExcluded(exclude: CpuSet)
      requires Shape()
      modifies this`cpusAvailable
      ensures cpusAvailable == old(cpusAvailable) - Prefix(exclude, config.nprocs)
    {
      hide NextCpu;
      var cpu := NextCpu(exclude, 0);
      while cpu < config.nprocs
        invariant cpu <= CPU_SETSIZE && (cpu < CPU_SETSIZE ==> cpu in exclude)
        invariant cpusAvailable == old(cpusAvailable) - Prefix(exclude, cpu)
        invariant forall d | d in exclude && d < cpu :: d < config.nprocs
        decreases CPU_SETSIZE - cpu
      {
        cpusAvailable := Clear(cpusAvailable, cpu);
        var next := NextCpu(exclude, cpu + 1);
        assert Prefix(exclude, next) == Prefix(exclude, cpu) + {cpu};
        cpu := next;
      }
      assert Prefix(exclude, config.nprocs) == Prefix(exclude, cpu);
    }

    // The last process settles which CPUs there are, and how many a process gets
    method SettleCpus(exclude: CpuSet, movable: CpuSet)
      requires Shape()
      modifies this`cpusAvailable, this`cpusToAssign
      ensures cpusAvailable
           == old(cpusAvailable) + Discover(config.nprocs, old(cpusAvailable), exclude, movable)
            - Prefix(exclude, config.nprocs)
      ensures cpusToAssign == |cpusAvailable| / config.ppn
    {
      hide Discover, Prefix;
      DiscoverCpus(exclude, movable);
      RemoveExcluded(exclude);
      cpusToAssign := |cpusAvailable| / config.ppn;
    }

    method AddProcess(pid: Pid, allowed: CpuSet, exclude: CpuSet, movable: CpuSet)
      requires Valid() && view.attached != {} && IsCpuSet(allowed)
      modifies this
      ensures Valid() && view == AttachStep(config, old(view), pid, allowed, exclude, movable)
    {
      hide Discover, Represents, Prefix;
      ghost var s := view;
      AddAllowed(allowed);
      nrProcessesLeftInInit := nrProcessesLeftInInit - 1;
      if nrProcessesLeftInInit == 0 {
        SettleCpus(exclude, movable);
      }
      view := AttachStep(config, view, pid, allowed, exclude, movable);
      RepresentsSame(processes[..], firstProcessInd, chain, used, s, view);
    }

    // The other branch of main: a later process joins the region
    method Attach(pid: Pid, allowed: CpuSet, exclude: CpuSet, movable: CpuSet)
      requires Valid() && Inv(config, view) && view.attached != {}
      requires Enabled(config, view, Event.Attach(pid, allowed, exclude, movable))
      modifies this
      ensures Valid() && view == Next(config, old(view), Event.Attach(pid, allowed, exclude, movable))
      ensures Inv(config, view)
    {
      hide Inv, AttachStep, Represents;
      StepKeepsInv(config, view, Event.Attach(pid, allowed, exclude, movable));
      AddProcess(pid, allowed, exclude, movable);
    }

    // ---------- pin_process: entering the list ----------

    // The first empty slot
    method FindSlot() returns (my: nat)
      requires Occupied(processes[..], used) && |used| < MAX_PROCESSES
      ensures my == |used|
    {
      my := 0;
      while my < MAX_PROCESSES && processes[my].pid != 0
        invariant my <= |used|
      {
        assert processes[..][my] == processes[my];
        my := my + 1;
      }
      assert processes[..][my] == processes[my];
    }

    // Walking the list to the first greater process id: the slot before it, or -1
    method FindPlace(pid: Pid, ghost queue: seq<Pid>) returns (prev: int, ghost k: nat)
      requires Linked(processes[..], firstProcessInd, chain) && |chain| == |queue|
      requires forall j | 0 <= j < |chain| :: processes[..][chain[j]].pid == queue[j]
      ensures k <= |queue| && prev == (if k == 0 then -1 else chain[k - 1])
      ensures (forall j | 0 <= j < k :: queue[j] <= pid) && (k < |queue| ==> queue[k] > pid)
    {
      hide Linked;
      prev, k := -1, 0;
      FirstLink(processes[..], firstProcessInd, chain);
      var i := firstProcessInd;
      while i != -1
        invariant k <= |chain| && i == (if k < |chain| then chain[k] else -1)
        invariant prev == if k == 0 then -1 else chain[k - 1]
        invariant forall j | 0 <= j < k :: queue[j] <= pid
        decreases |chain| - k
      {
        LinkAt(processes[..], firstProcessInd, chain, k);
        assert processes[..][i] == processes[i];
        if processes[i].pid > pid {
          break;
        }
        prev := i;
        i := processes[i].next;
        k := k + 1;
      }
    }

    // Linking slot my in, before the first greater process id
    method Link(my: nat, pid: Pid, ghost queue: seq<Pid>) returns (ghost k: nat)
      requires my < processes.Length && processes[my] == Slot(false, false, pid, -1) && my !in chain
      requires Linked(processes[..], firstProcessInd, chain) && |chain| == |queue|
      requires forall j | 0 <= j < |chain| :: processes[..][chain[j]].pid == queue[j]
      modifies this`firstProcessInd, processes
      ensures k <= |queue| && (forall j | 0 <= j < k :: queue[j] <= pid) && (k < |queue| ==> queue[k] > pid)
      ensures firstProcessInd == if k == 0 then my else old(firstProcessInd)
      ensures LinkedIn(old(processes[..]), processes[..], my, pid, chain, k)
    {
      FirstLink(processes[..], firstProcessInd, chain);
      if firstProcessInd == -1 {
        firstProcessInd := my;
        k := 0;
      } else {
        var prev;
        prev, k := FindPlace(pid, queue);
        hide Linked;
        if prev == -1 {
          processes[my] := processes[my].(next := firstProcessInd);
          firstProcessInd := my;
        } else {
          LinkAt(processes[..], firstProcessInd, chain, k - 1);
          assert prev in chain;
          processes[my] := processes[my].(next := processes[prev].next);
          processes[prev] := processes[prev].(next := my);
        }
      }
    }

    // Claiming a slot and linking it in
    method Enter(pid: Pid) returns (my: nat)
      requires Shape() && Represents(processes[..], firstProcessInd, chain, used, view)
      requires Sorted(view.queue) && |used| < MAX_PROCESSES && pid > 0 && pid !in view.joined
      modifies this`firstProcessInd, this`chain, this`used, this`view, processes
      ensures my == |old(used)| && used == old(used) + [pid]
      ensures view == old(view).(queue := Insert(old(view).queue, pid), joined := old(view).joined + {pid},
                                 fates := old(view).fates[pid := Waiting(false, false)])
      ensures Represents(processes[..], firstProcessInd, chain, used, view)
    {
      hide Insert, Sorted, Linked, Flagged, Holds, Occupied, LinkedIn;
      ghost var slots := processes[..];
      my := FindSlot();
      Filled(slots, firstProcessInd, chain, used, view.queue, Slot(false, false, pid, -1));
      processes[my] := Slot(false, false, pid, -1);
      ghost var filled := processes[..];
      assert filled == slots[my := Slot(false, false, pid, -1)];
      ghost var k := Link(my, pid, view.queue);
      FilledLinked(slots, filled, processes[..], my, pid, chain, k);
      InsertAt(view.queue, pid, k);
      ghost var u := view.(queue := Insert(view.queue, pid), joined := view.joined + {pid},
                           fates := view.fates[pid := Waiting(false, false)]);
      Joined(slots, old(firstProcessInd), chain, used, view, u, pid, k, processes[..]);
      chain, used, view := Spliced(chain, k, my), used + [pid], u;
    }

    // ---------- pin_process: waking ----------

    // Popping the first waiter and setting its ready flag
    method WakeNext() returns (next: nat)
      requires Valid() && view.queue != [] && AllWaiting(view)
      modifies this`firstProcessInd, this`chain, this`view, processes
      ensures Valid() && view == WakeFirst(old(view))
      ensures next < |used| && used[next] == old(view).queue[0]
    {
      Popped(processes[..], firstProcessInd, chain, used, view);
      next := firstProcessInd;
      firstProcessInd := processes[next].next;
      ghost var slots := processes[..];
      processes[next] := processes[next].(ready := true);
      assert processes[..] == slots[next := slots[next].(ready := true)];
      chain, view := chain[1..], WakeFirst(view);
    }

    // The loop of abort_all: emptying the list, and telling everyone in it but this process
    method TellWaiters(pid: Pid, ghost queue: seq<Pid>)
      requires processes.Length == MAX_PROCESSES && Occupied(processes[..], used)
      requires Linked(processes[..], firstProcessInd, chain) && Holds(used, chain, queue)
      modifies this`firstProcessInd, processes
      ensures firstProcessInd == -1 && Told(old(processes[..]), processes[..], used, chain, pid)
    {
      ghost var slots, first := processes[..], firstProcessInd;
      ghost var k := 0;
      hide Linked, Told, Holds, Occupied;
      FirstLink(slots, first, chain);
      NobodyTold(slots, used, pid);
      while firstProcessInd != -1
        invariant k <= |chain| && firstProcessInd == if k < |chain| then chain[k] else -1
        invariant Told(slots, processes[..], used, chain[..k], pid)
        decreases |chain| - k
      {
        var next := firstProcessInd;
        ghost var before := processes[..];
        LinkAt(slots, first, chain, k);
        ToldSame(slots, before, used, chain, queue, k, pid);
        assert before[next] == processes[next];
        firstProcessInd := processes[next].next;
        if processes[next].pid != pid {
          processes[next] := processes[next].(ready := true, timeout := true);
          assert processes[..] == before[next := before[next].(ready := true, timeout := true)];
        }
        ToldOneMore(slots, before, processes[..], used, chain, k, pid);
        k := k + 1;
      }
      assert chain[..k] == chain;
    }

    // abort_all
    method AbortWaiters(pid: Pid)
      requires Valid()
      modifies this`firstProcessInd, this`chain, this`view, this`nrProcesses, processes
      ensures Valid() && view == AbortAll(old(view), pid) && Tells(view, pid, Failed(-ETIMEDOUT))
    {
      hide Linked, Told, Holds, Occupied, Flagged;
      ghost var slots, first := processes[..], firstProcessInd;
      TellWaiters(pid, view.queue);
      nrProcesses := -1;
      ListAborted(slots, first, processes[..], chain, used, view, pid);
      chain, view := [], AbortAll(view, pid);
    }

    // ---------- pin_process: partitioning ----------

    // The shares of all ranks, committed to the record one by one
    method PartitionCpus(topo: Topology) returns (ok: bool)
      requires Shape() && nrProcesses <= MAX_PROCESSES
      modifies this`processRank, this`cpusAvailable, affinities
      ensures
        var n := if nrProcesses >= 0 then nrProcesses else 0;
        var d := Divide(topo, config.nprocs, old(cpusAvailable), cpusToAssign, n);
        && ok == d.ok && cpusAvailable == d.avail && affinities[..|d.shares|] == d.shares
        && processRank == if ok then 0 else |d.shares|
    {
      hide ShareOf;
      ghost var avail := cpusAvailable;
      ghost var n := if nrProcesses >= 0 then nrProcesses else 0;
      processRank := 0;
      while processRank < nrProcesses
        invariant 0 <= processRank <= n
        invariant Divide(topo, config.nprocs, avail, cpusToAssign, processRank)
               == Division(affinities[..processRank], cpusAvailable, true)
      {
        var share := AssignShare(topo, config.nprocs, cpusAvailable, cpusToAssign);
        if share.None? {
          DivideStops(topo, config.nprocs, avail, cpusToAssign, processRank, n);
          return false;
        }
        ghost var shares := affinities[..processRank];
        cpusAvailable := share.value.avail;
        affinities[processRank] := share.value.use;
        assert affinities[..processRank + 1] == shares + [share.value.use];
        processRank := processRank + 1;
      }
      processRank := 0;
      ok := true;
    }

    // ---------- pin_process: taking a rank ----------

    // What the process with this id gets to know agrees with the state
    ghost predicate Tells(v: State, pid: Pid, o: Outcome)
      reads this
    {
      && pid in v.fates
      && match o
         case Blocked(slot) => v.fates[pid] == Waiting(false, false) && slot < |used| && used[slot] == pid
         case Failed(ret) => v.fates[pid] == Done(ret)
         case Ranked(rank, cpus) => v.fates[pid] == Done(rank) && pid in v.bound && v.bound[pid] == cpus
    }

    method TakeNextRank(pid: Pid) returns (o: Outcome)
      requires Valid() && AboutToTake(config, view, pid)
      modifies this`nrProcesses, this`cpusAvailable, this`firstProcessInd, this`processRank, this`chain,
        this`view, processes
      ensures Valid() && view == TakeRank(old(view), pid) && o.Ranked? && Tells(view, pid, o)
    {
      hide Represents, PhaseInv, Gathered, CountBelow, RanksGiven, Membership;
      ghost var v := view;
      RankWithin(config, v, pid);
      if nrProcessesLeft == 0 {
        nrProcesses := -1;
        cpusAvailable := {};
        view := view.(nrProcesses := -1, avail := {}, phase := Finished);
        RepresentsSame(processes[..], firstProcessInd, chain, used, v, view);
      } else {
        var next := WakeNext();
      }
      o := Ranked(processRank, affinities[processRank]);
      processRank := processRank + 1;
      assert affinities[..|v.shares|][v.rank] == v.shares[v.rank];
      RepresentsFate(processes[..], firstProcessInd, chain, used, view, TakeRank(v, pid), pid);
      view := TakeRank(v, pid);
    }

    // What a released process does; the first one partitions the CPUs
    method Continue(pid: Pid) returns (o: Outcome)
      requires Valid() && Released(config, view, pid)
      modifies this, processes, affinities
      ensures Valid() && used == old(used)
      ensures view == Proceed(config, old(view), pid) && !o.Blocked? && Tells(view, pid, o)
    {
      hide Represents, PhaseInv, Gathered, CountBelow, RanksGiven, Membership, Divide, TakeRank, AbortAll, AboutToTake;
      ghost var v := view;
      ReleasedCounts(config, v, pid);
      nrProcessesLeft := nrProcessesLeft - 1;
      view := view.(nrLeft := view.nrLeft - 1);
      RepresentsSame(processes[..], firstProcessInd, chain, used, v, view);
      if processRank == 0 {
        if config.topo.None? {
          AbortWaiters(pid);
          return Failed(-ETIMEDOUT);
        }
        ghost var d := Divide(config.topo.value, config.nprocs, view.avail, view.quota, config.ppn);
        var ok := PartitionCpus(config.topo.value);
        if !ok {
          view := view.(avail := d.avail, shares := d.shares, rank := |d.shares|,
                        fates := view.fates[pid := Done(-EINVAL)], phase := Stuck);
          RepresentsFate(processes[..], firstProcessInd, chain, used, v, view, pid);
          return Failed(-EINVAL);
        }
        view := view.(avail := d.avail, shares := d.shares);
        RepresentsSame(processes[..], firstProcessInd, chain, used, v, view);
        PartitionedTakes(config, v, view, pid);
      } else {
        LaterTakes(config, v, pid);
      }
      o := TakeNextRank(pid);
    }

    // ---------- pin_process: its intervals under the lock ----------

    // The first process to enter sets the counters
    method Open(ppn: nat)
      requires Valid()
      modifies this`nrProcesses, this`nrProcessesLeft, this`view
      ensures Valid()
      ensures view == if old(view).nrProcesses == -1 then old(view).(nrProcesses := ppn, nrLeft := ppn) else old(view)
    {
      hide Represents;
      if nrProcesses == -1 {
        nrProcesses := ppn;
        nrProcessesLeft := ppn;
        ghost var v := view;
        view := view.(nrProcesses := ppn, nrLeft := ppn);
        RepresentsSame(processes[..], firstProcessInd, chain, used, v, view);
      }
    }

    // Counting in and entering the list
    method Join(pid: Pid) returns (my: nat)
      requires Valid() && Sorted(view.queue) && |view.joined| < MAX_PROCESSES && pid > 0 && pid !in view.joined
      modifies this`nrProcessesLeft, this`firstProcessInd, this`chain, this`used, this`view, processes
      ensures Valid() && my < |used| && used[my] == pid
      ensures view == old(view).(nrLeft := old(view).nrLeft - 1, queue := Insert(old(view).queue, pid),
                                 joined := old(view).joined + {pid},
                                 fates := old(view).fates[pid := Waiting(false, false)])
    {
      hide Represents, Insert, Sorted;
      nrProcessesLeft := nrProcessesLeft - 1;
      JoinedCount(processes[..], firstProcessInd, chain, used, view);
      my := Enter(pid);
      ghost var w := view;
      view := view.(nrLeft := view.nrLeft - 1);
      RepresentsSame(processes[..], firstProcessInd, chain, used, w, view);
    }

    // The last arrival wakes the first in the list and resets the counters
    method WakeHead() returns (next: nat)
      requires Valid() && view.queue != [] && AllWaiting(view)
      modifies this`nrProcessesLeft, this`processRank, this`firstProcessInd, this`chain, this`view, processes
      ensures Valid() && view == WakeFirst(old(view)).(nrLeft := old(view).nrProcesses, rank := 0)
      ensures next < |used| && used[next] == old(view).queue[0]
    {
      hide Represents;
      next := WakeNext();
      ghost var w := view;
      nrProcessesLeft := nrProcesses;
      processRank := 0;
      view := view.(nrLeft := view.nrProcesses, rank := 0);
      RepresentsSame(processes[..], firstProcessInd, chain, used, w, view);
    }

    // From the call to the wait, or to the return of a process that need not wait
    method Arrive(pid: Pid, ppn: nat) returns (o: Outcome)
      requires Valid() && Inv(config, view) && Enabled(config, view, Event.Arrive(pid, ppn))
      modifies this, processes, affinities
      ensures Valid() && view == Next(config, old(view), Event.Arrive(pid, ppn)) && Inv(config, view)
      ensures Tells(view, pid, o)
    {
      hide Represents, PhaseInv, Gathered, CountBelow, RanksGiven, Insert, Proceed, WakeFirst, Inv,
        Membership, Released, AttachStep, ResumeStep, AbortAll, AllWaiting, Sorted;
      ghost var v := view;
      StepKeepsInv(config, v, Event.Arrive(pid, ppn));
      ArrivalFacts(config, v, pid);
      Open(ppn);
      if nrProcesses != ppn {
        view := view.(fates := view.fates[pid := Done(-EINVAL)]);
        RepresentsFate(processes[..], firstProcessInd, chain, used, v, view, pid);
        return Failed(-EINVAL);
      }
      var my := Join(pid);
      ghost var u := view;
      var next: int := -1;
      if nrProcessesLeft == 0 {
        LastReleases(config, v, u, pid);
        next := WakeHead();
        OthersWait(u, pid);
        UsedOnce(processes[..], firstProcessInd, chain, used, view, my, next);
      }
      if next != my {
        o := Blocked(my);
      } else {
        o := Continue(pid);
      }
    }

    // From waking up, for whatever reason, to the return; my is the slot Arrive left the process in
    method Resume(pid: Pid, my: nat) returns (o: Outcome)
      requires Valid() && Inv(config, view) && pid in view.fates && view.fates[pid].Waiting?
      requires my < |used| && used[my] == pid
      modifies this, processes, affinities
      ensures Valid() && view == Next(config, old(view), Event.Resume(pid))
      ensures old(view).fates[pid].ready ==> Inv(config, view)
      ensures !o.Blocked? && Tells(view, pid, o)
    {
      hide Represents, PhaseInv, Gathered, CountBelow, RanksGiven, Proceed, Inv, Membership, Released;
      ghost var v := view;
      if v.fates[pid].ready {
        StepKeepsInv(config, v, Event.Resume(pid));
      }
      FlagsOf(processes[..], firstProcessInd, chain, used, v, my);
      assert processes[..][my] == processes[my];
      if processes[my].timeout {
        view := view.(fates := view.fates[pid := Done(-ETIMEDOUT)]);
        RepresentsFate(processes[..], firstProcessInd, chain, used, v, view, pid);
        return Failed(-ETIMEDOUT);
      }
      if !processes[my].ready {
        view := view.(fates := view.fates[pid := Done(-EINVAL)]);
        RepresentsFate(processes[..], firstProcessInd, chain, used, v, view, pid);
        return Failed(-EINVAL);
      }
      ReadyIsReleased(config, v, pid);
      o := Continue(pid);
    }

    // From a timed-out wait to the return
    method TimedOut(pid: Pid) returns (o: Outcome)
      requires Valid() && Inv(config, view) && Enabled(config, view, TimeOut(pid))
      modifies this`firstProcessInd, this`chain, this`view, this`nrProcesses, processes
      ensures Valid() && view == Next(config, old(view), TimeOut(pid)) && Inv(config, view)
      ensures o == Failed(-ETIMEDOUT) && Tells(view, pid, o)
    {
      hide Represents, AbortAll, Inv;
      StepKeepsInv(config, view, TimeOut(pid));
      AbortWaiters(pid);
      o := Failed(-ETIMEDOUT);
    }
  }

  lemma ArrivalFacts(c: Config, v: State, pid: Pid)
    requires Inv(c, v) && pid in v.attached && pid !in v.fates
    ensures |v.joined| < c.ppn <= MAX_PROCESSES && pid !in v.joined && Sorted(v.queue) && pid > 0
    ensures v.phase.Gathering? || v.phase.Aborted?
    ensures v.nrProcesses == -1 || v.nrProcesses == c.ppn
  {
    NotYetReleased(c, v, pid);
    hide PhaseInv, Gathered;
  }

  lemma JoinedCount(slots: seq<Slot>, first: int, chain: seq<nat>, used: seq<Pid>, v: State)
    requires Represents(slots, first, chain, used, v)
    ensures |used| == |v.joined|
  {
  }

  lemma FlagsOf(slots: seq<Slot>, first: int, chain: seq<nat>, used: seq<Pid>, v: State, my: nat)
    requires Represents(slots, first, chain, used, v) && my < |used|
    requires used[my] in v.fates && v.fates[used[my]].Waiting?
    ensures my < |slots|
    ensures slots[my].ready == v.fates[used[my]].ready && slots[my].timeout == v.fates[used[my]].timeout
  {
  }

  // A process woken without a timeout has been released
  lemma ReadyIsReleased(c: Config, v: State, pid: Pid)
    requires Inv(c, v) && pid in v.fates && v.fates[pid] == Waiting(true, false)
    ensures Released(c, v, pid)
  {
    hide Gathered, CountBelow, RanksGiven;
  }

  lemma OthersWait(u: State, pid: Pid)
    requires u.queue != [] && pid in u.fates && u.fates[pid] == Waiting(false, false)
    ensures pid in WakeFirst(u).fates && (pid != u.queue[0] ==> WakeFirst(u).fates[pid] == Waiting(false, false))
  {
  }

  lemma UsedOnce(slots: seq<Slot>, first: int, chain: seq<nat>, used: seq<Pid>, v: State, i: nat, j: nat)
    requires Represents(slots, first, chain, used, v) && i < |used| && j < |used|
    ensures used[i] == used[j] <==> i == j
  {
  }

  // The division stops at the first rank without a share
  lemma {:induction false} DivideStops(topo: Topology, nprocs: nat, avail: CpuSet, q: int, m: nat, n: nat)
    requires nprocs <= CPU_SETSIZE && m < n
    requires Divide(topo, nprocs, avail, q, m).ok
    requires ShareOf(topo, nprocs, Divide(topo, nprocs, avail, q, m).avail, q).None?
    ensures Divide(topo, nprocs, avail, q, n) == Divide(topo, nprocs, avail, q, m).(ok := false)
  {
    hide ShareOf;
    if m >= n - 1 {
    } else {
      DivideStops(topo, nprocs, avail, q, m, n - 1);
    }
  }

  // A process that has returned has no flags
  lemma RepresentsFate(slots: seq<Slot>, first: int, chain: seq<nat>, used: seq<Pid>, v: State, w: State, pid: Pid)
    requires Represents(slots, first, chain, used, v)
    requires w.queue == v.queue && w.joined == v.joined
    requires pid in w.fates && w.fates[pid].Done? && w.fates == v.fates[pid := w.fates[pid]]
    ensures Represents(slots, first, chain, used, w)
  {
  }

  lemma RankWithin(c: Config, v: State, pid: Pid)
    requires AboutToTake(c, v, pid)
    ensures 0 <= v.rank < |v.shares| == c.ppn && (v.nrLeft != 0 ==> v.queue != []) && AllWaiting(v)
  {
    hide Gathered, CountBelow, RanksGiven;
  }

  lemma ReleasedCounts(c: Config, v: State, pid: Pid)
    requires Released(c, v, pid)
    ensures v.nrProcesses == c.ppn <= MAX_PROCESSES
  {
    hide Gathered, CountBelow, RanksGiven, Membership;
  }

  // ---------- telling the waiters ----------

  // The slots of chain have been told of the timeout, but for the one of pid
  ghost predicate Told(slots: seq<Slot>, after: seq<Slot>, used: seq<Pid>, chain: seq<nat>, pid: Pid) {
    && |after| == |slots| && |used| <= |slots|
    && forall i | 0 <= i < |slots| ::
         after[i] == if i in chain && i < |used| && used[i] != pid then slots[i].(ready := true, timeout := true)
                     else slots[i]
  }

  lemma NobodyTold(slots: seq<Slot>, used: seq<Pid>, pid: Pid)
    requires |used| <= |slots|
    ensures Told(slots, slots, used, [], pid)
  {
  }

  // Only the flags change
  lemma ToldSame(slots: seq<Slot>, before: seq<Slot>, used: seq<Pid>, chain: seq<nat>, queue: seq<Pid>,
                 k: nat, pid: Pid)
    requires Occupied(slots, used) && Holds(used, chain, queue) && k < |chain|
    requires Told(slots, before, used, chain[..k], pid)
    ensures chain[k] < |used| <= |before| && before[chain[k]].next == slots[chain[k]].next
    ensures before[chain[k]].pid == used[chain[k]]
  {
  }

  lemma ToldOneMore(slots: seq<Slot>, before: seq<Slot>, after: seq<Slot>, used: seq<Pid>, chain: seq<nat>,
                    k: nat, pid: Pid)
    requires k < |chain| && chain[k] < |used| && Told(slots, before, used, chain[..k], pid)
    requires
      var told := before[chain[k]].(ready := true, timeout := true);
      after == if used[chain[k]] != pid then before[chain[k] := told] else before
    ensures Told(slots, after, used, chain[..k + 1], pid)
  {
    assert chain[..k + 1] == chain[..k] + [chain[k]];
  }

  lemma NotListed(used: seq<Pid>, chain: seq<nat>, queue: seq<Pid>, i: nat)
    requires Holds(used, chain, queue) && i < |used| && used[i] !in queue
    ensures i !in chain
  {
  }

  lemma ListAborted(slots: seq<Slot>, first: int, after: seq<Slot>, chain: seq<nat>, used: seq<Pid>, v: State, pid: Pid)
    requires Represents(slots, first, chain, used, v) && Told(slots, after, used, chain, pid)
    ensures Represents(after, -1, [], used, AbortAll(v, pid))
  {
    var t := AbortAll(v, pid);
    forall i | 0 <= i < |used| && used[i] in t.fates && t.fates[used[i]].Waiting?
      ensures after[i].ready == t.fates[used[i]].ready && after[i].timeout == t.fates[used[i]].timeout
    {
      if used[i] in v.queue {
        var k :| 0 <= k < |v.queue| && v.queue[k] == used[i];
        assert chain[k] == i;
      } else {
        NotListed(used, chain, v.queue, i);
      }
    }
  }

  // Only the list, the processes that joined and their fates are in the slots
  lemma RepresentsSame(slots: seq<Slot>, first: int, chain: seq<nat>, used: seq<Pid>, v: State, w: State)
    requires Represents(slots, first, chain, used, v)
    requires w.queue == v.queue && w.joined == v.joined && w.fates == v.fates
    ensures Represents(slots, first, chain, used, w)
  {
  }
}
