/**
 Processes and locks (kern/proc/proc.c, kern/proc/lock.c) on the lists of intrusive records: every
 operation does to the records and rings what Sched says.
 */
module Proc {
  import opened Common
  import opened Queue
  import opened Pool
  import opened Sched
  import opened SchedEffects

  /** A lock_t in memory. */
  class Lock {
    var count: nat

    constructor ()
      ensures count == 0
    {
      count := 0;
    }
  }

  /** What processes and locks use of struct proc: the bit PROC_RUNNING of state, and lock. */
  datatype Rec = Rec(running: bool, lock: Lock?)

  type Record = Node<Rec>

  /** Removing p from a ring makes its predecessor the predecessor of its successor. */
  lemma NewNeighbours(ring: Ring<Rec>, was: seq<Record>, p: Record)
    requires ring.Valid() && Distinct(was) && p in was && |was| >= 2 && ring.nodes == Without(was, p)
    ensures var next, k := Successor(was, p), IndexOf(was, p);
      next in ring.nodes && next.prev == was[Pred(k, |was|)] && next.prev in ring.nodes && next.prev.next == next
  {
    var k, n := IndexOf(was, p), |was|;
    var j := Succ(k, n);
    var i := if j < k then j else j - 1;
    assert ring.nodes[i] == was[j];
    RemovedNeighbours(was, k, i, j);
    ring.PrevNext(i);
  }

  /** CLIST_REMOVE and CLIST_INSERT: p goes from one ring to the other. */
  method Move(p: Record, from: Ring<Rec>, to: Ring<Rec>)
    requires from != to && from.Valid() && to.Valid() && Disjoint(from.nodes, to.nodes) && p in from.nodes
    modifies from, to, from.nodes`prev, from.nodes`next, to.nodes`prev, to.nodes`next
    ensures from.Valid() && to.Valid()
    ensures from.nodes == Without(old(from.nodes), p) && to.nodes == [p] + old(to.nodes)
  {
    WithoutMembers(from.nodes, p);
    from.Remove(p, IndexOf(from.nodes, p));
    ghost var rest := from.nodes;
    assert p !in rest && Disjoint(rest, to.nodes);
    to.Insert(p);
    assert from.nodes == rest;
  }

  /** The three lists of process records. */
  class Lists {
    const pool: Pool<Rec>
    const running: Ring<Rec>
    const sleeping: Ring<Rec>

    ghost function Nodes(): seq<Record>
      reads pool.unused, running, sleeping
    {
      pool.unused.nodes + running.nodes + sleeping.nodes
    }

    ghost predicate Valid()
      reads pool.used, pool.unused, running, sleeping
      reads pool.used.nodes`prev, pool.used.nodes`next, pool.unused.nodes`prev, pool.unused.nodes`next
      reads running.nodes`prev, running.nodes`next, sleeping.nodes`prev, sleeping.nodes`next
    {
      && pool.Valid() && running.Valid() && sleeping.Valid() && pool.used.nodes == []
      && running != sleeping && Distinct(Nodes())
    }

    /** proc_init: all records in the pool, both rings empty. */
    constructor (area: array<Record>)
      requires Distinct(area[..])
      modifies area[..]`prev, area[..]`next
      ensures Valid() && fresh(pool.used) && fresh(pool.unused) && fresh(running) && fresh(sleeping)
      ensures pool.unused.nodes == area[..] && running.nodes == [] && sleeping.nodes == []
    {
      pool := new Pool<Rec>.Create(area);
      running := new Ring<Rec>();
      sleeping := new Ring<Rec>();
    }

    lemma Apart()
      requires Valid()
      ensures Disjoint(running.nodes, sleeping.nodes) && Disjoint(running.nodes, pool.unused.nodes)
      ensures Disjoint(sleeping.nodes, pool.unused.nodes) && Distinct(running.nodes) && Distinct(sleeping.nodes)
    {
      PartsOf(pool.unused.nodes, running.nodes, sleeping.nodes);
    }

    /** From one ring to the other. */
    method ToSleeping(p: Record)
      requires Valid() && p in running.nodes
      modifies running, sleeping, running.nodes`prev, running.nodes`next, sleeping.nodes`prev, sleeping.nodes`next
      ensures Valid() && pool.unused.nodes == old(pool.unused.nodes)
      ensures running.nodes == Without(old(running.nodes), p) && sleeping.nodes == [p] + old(sleeping.nodes)
    {
      Apart();
      MovedDistinct(pool.unused.nodes, running.nodes, sleeping.nodes, p);
      Move(p, running, sleeping);
    }

    /** The list part of proc_sleep. If it is the current process, proc_current steps back and SWITCH moves on. */
    method Nod(p: Record, isCurrent: bool) returns (next: Record)
      requires Valid() && p in running.nodes && (isCurrent ==> |running.nodes| >= 2)
      modifies running, sleeping, running.nodes`prev, running.nodes`next, sleeping.nodes`prev, sleeping.nodes`next
      ensures Valid() && pool.unused.nodes == old(pool.unused.nodes)
      ensures running.nodes == Without(old(running.nodes), p) && sleeping.nodes == [p] + old(sleeping.nodes)
      ensures isCurrent ==> next == Successor(old(running.nodes), p)
    {
      ghost var was := running.nodes;
      running.PrevNext(IndexOf(was, p));
      Apart();
      next := p.next;
      ToSleeping(p);
      if isCurrent {
        NewNeighbours(running, was, p);
        next := next.prev;           // proc_current
        next := next.next;           // SWITCH
      }
    }

    method ToRunning(p: Record)
      requires Valid() && p in sleeping.nodes
      modifies running, sleeping, running.nodes`prev, running.nodes`next, sleeping.nodes`prev, sleeping.nodes`next
      ensures Valid() && pool.unused.nodes == old(pool.unused.nodes)
      ensures sleeping.nodes == Without(old(sleeping.nodes), p) && running.nodes == [p] + old(running.nodes)
    {
      Apart();
      SwappedDistinct(pool.unused.nodes, running.nodes, sleeping.nodes);
      MovedDistinct(pool.unused.nodes, sleeping.nodes, running.nodes, p);
      Move(p, sleeping, running);
    }

    /** POOL_SALLOC */
    method Take() returns (p: Node?<Rec>)
      requires Valid()
      modifies pool.unused, pool.unused.nodes`prev, pool.unused.nodes`next
      ensures Valid() && running.nodes == old(running.nodes) && sleeping.nodes == old(sleeping.nodes)
      ensures p == null ==> pool.unused.nodes == old(pool.unused.nodes) == []
      ensures p != null ==> old(pool.unused.nodes) == pool.unused.nodes + [p] && p !in Nodes()
    {
      Apart();
      p := pool.Salloc();
      if p != null { TakenDistinct(pool.unused.nodes, running.nodes, sleeping.nodes, p); }
    }

    /** POOL_SFREE */
    method PutBack(p: Record)
      requires Valid() && p !in Nodes()
      modifies pool.unused, pool.unused.nodes`prev, pool.unused.nodes`next, p`prev, p`next
      ensures Valid() && running.nodes == old(running.nodes) && sleeping.nodes == old(sleeping.nodes)
      ensures pool.unused.nodes == old(pool.unused.nodes) + [p]
    {
      Apart();
      AddedDistinct(pool.unused.nodes, running.nodes, sleeping.nodes, p);
      pool.Sfree(p);
    }

    method AddSleeper(p: Record)
      requires Valid() && p !in Nodes()
      modifies sleeping, sleeping.nodes`prev, sleeping.nodes`next, p`prev, p`next
      ensures Valid() && running.nodes == old(running.nodes) && pool.unused.nodes == old(pool.unused.nodes)
      ensures sleeping.nodes == [p] + old(sleeping.nodes)
    {
      Apart();
      AddedDistinct(pool.unused.nodes, running.nodes, sleeping.nodes, p);
      sleeping.Insert(p);
    }

    /** The end of proc_create: back to the pool, or to the sleepers. */
    method Settle(p: Record, fails: bool)
      requires Valid() && p !in Nodes()
      modifies sleeping, sleeping.nodes`prev, sleeping.nodes`next, p`prev, p`next
      modifies pool.unused, pool.unused.nodes`prev, pool.unused.nodes`next
      ensures Valid() && running.nodes == old(running.nodes)
      ensures pool.unused.nodes == old(pool.unused.nodes) + if fails then [p] else []
      ensures sleeping.nodes == (if fails then [] else [p]) + old(sleeping.nodes)
    {
      if fails { PutBack(p); } else { AddSleeper(p); }
    }

    /** The list part of proc_kill. back is where proc_current goes if it was p, or null. */
    method Reap(p: Record) returns (back: Node?<Rec>)
      requires Valid() && p in running.nodes
      modifies running, running.nodes`prev, running.nodes`next, pool.unused, pool.unused.nodes`prev
      modifies pool.unused.nodes`next
      ensures Valid() && running.nodes == Without(old(running.nodes), p)
      ensures pool.unused.nodes == old(pool.unused.nodes) + [p]
      ensures sleeping.nodes == old(sleeping.nodes)
      ensures var was := old(running.nodes); back == if |was| == 1 then null else was[Pred(IndexOf(was, p), |was|)]
    {
      ghost var was := running.nodes;
      Apart();
      OnlyOne(was, p);
      var next := OffRing(p);
      PutBack(p);
      if next == p { return null; }
      NewNeighbours(running, was, p);
      back := next.prev;
    }

    /** Off the running ring. Also tells who was next. */
    method OffRing(p: Record) returns (next: Record)
      requires Valid() && p in running.nodes
      modifies running, running.nodes`prev, running.nodes`next
      ensures Valid() && running.nodes == Without(old(running.nodes), p) && p !in Nodes()
      ensures next == Successor(old(running.nodes), p)
      ensures sleeping.nodes == old(sleeping.nodes) && pool.unused.nodes == old(pool.unused.nodes)
    {
      ghost var k := IndexOf(running.nodes, p);
      running.PrevNext(k);
      next := p.next;
      Apart();
      RemovedDistinct(pool.unused.nodes, running.nodes, sleeping.nodes, p);
      running.Remove(p, k);
    }
  }

  // ----- Processes and locks -----

  /** The state bits and lock pointers of these records. */
  ghost predicate Marked(area: set<Record>, up: set<Record>, waits: map<Record, Lock>)
    reads area`rec
  {
    forall p :: p in area ==> p.rec == MarkOf(up, waits, p)
  }

  ghost function MarkOf(up: set<Record>, waits: map<Record, Lock>, p: Record): Rec {
    Rec(p in up, if p in waits then waits[p] else null)
  }

  ghost predicate Counted(counts: map<Lock, nat>)
    reads counts.Keys
  {
    forall l :: l in counts ==> l.count == counts[l]
  }

  class Kernel {
    const lists: Lists
    var current: Node?<Rec>          // proc_current
    ghost const area: set<Record>    // all records of the pool
    ghost var up: set<Record>
    ghost var waits: map<Record, Lock>
    ghost var counts: map<Lock, nat>
    ghost var holds: set<(Record, Lock)>

    /** The state that Sched talks about. */
    ghost function System(): Sys<Record, Lock>
      reads this, lists.pool.unused, lists.running, lists.sleeping
    {
      Sys(lists.pool.unused.nodes, lists.running.nodes, lists.sleeping.nodes, Current(), up, waits, counts, holds)
    }

    ghost function Current(): Option<Record>
      reads this`current
    {
      if current == null then None else var p: Record := current; Some(p)
    }

    /** Lists, records and counters are in order and agree with System. */
    ghost predicate Shown()
      reads this, lists.pool.used, lists.pool.unused, lists.running, lists.sleeping, counts.Keys, area`rec
      reads lists.pool.used.nodes`prev, lists.pool.used.nodes`next, lists.pool.unused.nodes`prev
      reads lists.pool.unused.nodes`next
      reads lists.running.nodes`prev, lists.running.nodes`next, lists.sleeping.nodes`prev, lists.sleeping.nodes`next
    {
      lists.Valid() && Counted(counts) && Marked(area, up, waits)
    }

    ghost predicate Valid()
      reads this, lists.pool.used, lists.pool.unused, lists.running, lists.sleeping, counts.Keys, area`rec
      reads lists.pool.used.nodes`prev, lists.pool.used.nodes`next, lists.pool.unused.nodes`prev
      reads lists.pool.unused.nodes`next
      reads lists.running.nodes`prev, lists.running.nodes`next, lists.sleeping.nodes`prev, lists.sleeping.nodes`next
    {
      Shown() && Inv(System()) && Records(System()) == multiset(area)
    }

    /** proc_init: kmalloc has cleared the records, and all locks are open. */
    constructor (area: array<Record>, ghost locks: set<Lock>)
      requires Distinct(area[..]) && area.Length <= 254
      requires forall i :: 0 <= i < area.Length ==> area[i].rec == Rec(false, null)
      requires forall l :: l in locks ==> l.count == 0
      modifies area[..]`prev, area[..]`next
      ensures Valid() && System().unused == area[..] && lists.running.nodes == lists.sleeping.nodes == []
      ensures counts.Keys == locks
    {
      ghost var s := AllUnused(area[..], locks);
      FirstState(s);
      this.area := Elements(area[..]);
      lists := new Lists(area);
      current := null;
      up, waits, counts, holds := {}, map[], s.counts, {};
      new;
      assert System() == s;
      assert Marked(this.area, up, waits) && Counted(counts);
    }

    /** machdep_switch */
    method DoSwitch()
      requires lists.Valid() && current != null && current in lists.running.nodes
      modifies `current
      ensures System() == Switch(old(System()))
    {
      lists.running.PrevNext(IndexOf(lists.running.nodes, current));
      current := current.next;
    }

    /** Sets or clears PROC_RUNNING. */
    method Mark(p: Record, running: bool)
      requires Marked(area, up, waits) && p in area
      modifies p`rec, `up
      ensures Marked(area, up, waits) && up == if running then old(up) + {p} else old(up) - {p}
    {
      p.rec := p.rec.(running := running);
      up := if running then up + {p} else up - {p};
    }

    method Doze(p: Record)
      requires Shown() && p in lists.running.nodes && p in area && (p == current ==> |lists.running.nodes| >= 2)
      modifies `current, `up, p`rec, lists.running, lists.sleeping
      modifies lists.running.nodes`prev, lists.running.nodes`next, lists.sleeping.nodes`prev, lists.sleeping.nodes`next
      ensures Shown() && up == old(up) - {p} && lists.pool.unused.nodes == old(lists.pool.unused.nodes)
      ensures lists.running.nodes == Without(old(lists.running.nodes), p)
      ensures lists.sleeping.nodes == [p] + old(lists.sleeping.nodes)
      ensures current == if old(current) == p then Successor(old(lists.running.nodes), p) else old(current)
    {
      Mark(p, false);
      NodOff(p);
    }

    /** proc_current and the rings. */
    method NodOff(p: Record)
      requires lists.Valid() && p in lists.running.nodes && (p == current ==> |lists.running.nodes| >= 2)
      modifies `current, lists.running, lists.sleeping
      modifies lists.running.nodes`prev, lists.running.nodes`next, lists.sleeping.nodes`prev, lists.sleeping.nodes`next
      ensures lists.Valid() && lists.pool.unused.nodes == old(lists.pool.unused.nodes)
      ensures lists.running.nodes == Without(old(lists.running.nodes), p)
      ensures lists.sleeping.nodes == [p] + old(lists.sleeping.nodes)
      ensures current == if old(current) == p then Successor(old(lists.running.nodes), p) else old(current)
    {
      var next := lists.Nod(p, p == current);
      if p == current { current := next; }
    }

    /** proc_sleep */
    method DoSleep(p: Record)
      requires Shown() && Bits(System()) && System().Live(p) && p in area
      requires p in up && p !in waits && p == current ==> |lists.running.nodes| >= 2
      modifies `current, `up, p`rec, lists.running, lists.sleeping
      modifies lists.running.nodes`prev, lists.running.nodes`next, lists.sleeping.nodes`prev, lists.sleeping.nodes`next
      ensures Shown() && System() == Sleep(old(System()), p)
    {
      if !p.rec.running || p.rec.lock != null { return; }
      Doze(p);
    }

    /** proc_wakeup */
    method DoWakeup(p: Record)
      requires Shown() && Bits(System()) && System().Live(p) && p in area
      modifies `up, p`rec, lists.running, lists.sleeping
      modifies lists.running.nodes`prev, lists.running.nodes`next, lists.sleeping.nodes`prev, lists.sleeping.nodes`next
      ensures Shown() && System() == Wakeup(old(System()), p) && lists.pool.unused.nodes == old(lists.pool.unused.nodes)
      ensures forall q :: q in lists.running.nodes ==> q in old(lists.running.nodes) || q == p
    {
      if p.rec.running { return; }
      Mark(p, true);
      lists.ToRunning(p);
    }

    /** proc_create with a record from the pool: state is 0, and it sleeps unless fs_init_proc fails. */
    method Enter(p: Record, fails: bool)
      requires Shown() && p !in lists.Nodes() && p in area
      modifies `up, p, lists.sleeping, lists.sleeping.nodes`prev, lists.sleeping.nodes`next
      modifies lists.pool.unused, lists.pool.unused.nodes`prev, lists.pool.unused.nodes`next
      ensures Shown() && up == old(up) - {p} && lists.running.nodes == old(lists.running.nodes)
      ensures lists.pool.unused.nodes == old(lists.pool.unused.nodes) + if fails then [p] else []
      ensures lists.sleeping.nodes == (if fails then [] else [p]) + old(lists.sleeping.nodes)
    {
      Mark(p, false);
      lists.Settle(p, fails);
    }

    /** proc_create; fails says whether fs_init_proc does. */
    method DoCreate(fails: bool) returns (p: Node?<Rec>)
      requires Shown() && forall q :: q in lists.pool.unused.nodes ==> q in area
      modifies `up, lists.sleeping, lists.sleeping.nodes`prev, lists.sleeping.nodes`next
      modifies lists.pool.unused, lists.pool.unused.nodes
      ensures Shown() && System() == Create(old(System()), fails)
      ensures p != null ==> p in lists.sleeping.nodes
    {
      ghost var s := System();
      p := lists.Take();
      if p == null { return; }
      ghost var left := lists.pool.unused.nodes;
      assert s.unused[..|left|] == left && s.unused[|left|] == p;
      assert Counted(counts) && Marked(area, up, waits);
      Enter(p, fails);
      CreateIs(s, System(), fails, left, p);
      if fails { p := null; }
    }

    /** The end of proc_kill: off the ring, back to the pool, and proc_current one step back if it was p. */
    method DoReap(p: Record)
      requires Shown() && p in lists.running.nodes
      modifies `current, lists.running, lists.running.nodes`prev, lists.running.nodes`next
      modifies lists.pool.unused, lists.pool.unused.nodes`prev, lists.pool.unused.nodes`next
      ensures Shown() && System() == Reap(old(System()), p)
    {
      var back := lists.Reap(p);
      if p == current { current := back; }
    }

    // ----- Locks -----

    /** lock_ref up to the point where it returns or waits. The sleep of a process that waits has no effect. */
    method DoRef(l: Lock)
      requires Shown() && Bits(System()) && current != null && current in lists.running.nodes && current in area
      requires current !in waits && l in counts
      modifies `counts, `holds, `waits, l, current`rec
      ensures Shown() && System() == Ref(old(System()), l)
    {
      SetCount(l, (l.count + 1) % 0x100);
      if l.count == 1 {
        holds := holds + {(current, l)};
      } else {
        WaitFor(l);
      }
    }

    method WaitFor(l: Lock)
      requires Shown() && current != null && current in area
      modifies `waits, current`rec
      ensures Shown() && System() == old(System()).(waits := old(waits)[current := l])
    {
      MarkWaiting(current, l);
    }

    method SetCount(l: Lock, n: nat)
      requires Shown() && l in counts
      modifies l, `counts
      ensures Shown() && l.count == n && System() == old(System()).(counts := old(counts)[l := n])
    {
      l.count := n;
      counts := counts[l := n];
      assert Counted(counts);
    }

    /** Sets or clears proc->lock. */
    method MarkWaiting(p: Record, l: Lock?)
      requires Marked(area, up, waits) && p in area
      modifies p`rec, `waits
      ensures Marked(area, up, waits) && waits == if l == null then old(waits) - {p} else old(waits)[p := l]
    {
      p.rec := p.rec.(lock := l);
      waits := if l == null then waits - {p} else waits[p := l];
    }

    /** The walk of lock_wakeup, from the current process once around the ring. */
    method FindWaiter(l: Lock) returns (w: Node?<Rec>)
      requires Shown() && current != null && current in lists.running.nodes
      requires forall p :: p in lists.running.nodes ==> p in area
      ensures if w == null then Waker(System(), l).None?
        else Waker(System(), l).Some? && Waker(System(), l).value == w && w in lists.running.nodes
    {
      ghost var ring := lists.running.nodes;
      ghost var k0 := IndexOf(ring, current);
      ghost var k, n := k0, |ring|;
      var i: Record := current;
      lists.Apart();
      while true
        invariant 0 <= k < |ring| && i == ring[k] && 1 <= n <= |ring| && k == Turn(k0, |ring| - n, |ring|)
        invariant Walk(ring, waits, l, k0, |ring|) == Walk(ring, waits, l, k, n)
        decreases n
      {
        if i.rec.lock == l { return i; }
        lists.running.PrevNext(k);
        i := i.next;
        NextTurn(k0, |ring| - n + 1, |ring|);
        k, n := Succ(k, |ring|), n - 1;
        if i == current {
          OnceAround(ring, k0, n);
          return null;
        }
      }
    }

    /**
     lock_wakeup: the process that it finds is let loose and holds the lock from now on, unless it is the one
     that is being killed.
     */
    method WakeOne(l: Lock, ghost dying: Node?<Rec>)
      requires Shown() && current != null && current in lists.running.nodes
      requires forall p :: p in lists.running.nodes ==> p in area
      modifies `holds, `waits, area`rec
      ensures Shown()
      ensures var w := Waker(old(System()), l);
        && waits == (if w.None? then old(waits) else old(waits) - {w.value})
        && holds == old(holds) + if w.None? || w.value == dying then {} else {(w.value, l)}
    {
      var w := FindWaiter(l);
      if w != null { LetLoose(w, l, dying); }
    }

    /** proc_wakeup has nothing to do here: p is on the running ring. */
    method LetLoose(p: Record, l: Lock, ghost dying: Node?<Rec>)
      requires Shown() && p in area
      modifies `holds, `waits, p`rec
      ensures Shown() && waits == old(waits) - {p} && holds == old(holds) + if p == dying then {} else {(p, l)}
    {
      MarkWaiting(p, null);
      holds := holds + if p == dying then {} else {(p, l)};
    }

    /** The counter goes down, and the current process holds the lock no more. */
    method Release(l: Lock)
      requires Shown() && current != null && current in lists.running.nodes && l in counts && counts[l] > 0
      modifies `counts, `holds, l
      ensures Shown() && counts == old(counts)[l := old(counts)[l] - 1] && l.count == old(counts)[l] - 1
      ensures holds == old(holds) - {(current, l)} && Waker(System(), l) == Waker(old(System()), l)
    {
      ghost var s := System();
      SetCount(l, l.count - 1);
      holds := holds - {(current, l)};
      SameWalk(s, System(), l);
    }

    /** lock_unref by a holder */
    method DoUnref(l: Lock)
      requires Shown() && current != null && current in lists.running.nodes && l in counts && counts[l] > 0
      requires forall p :: p in lists.running.nodes ==> p in area
      modifies `counts, `holds, `waits, l, area`rec
      ensures Shown() && System() == Unref(old(System()), l)
    {
      ghost var s := System();
      Release(l);
      ghost var w := if l.count == 0 then None else Waker(s, l);
      if l.count != 0 { WakeOne(l, null); }
      UnrefIs(s, System(), l, w);
    }

    // ----- The operations on a valid system -----

    lemma InArea()
      requires Valid()
      ensures forall p :: p in lists.pool.unused.nodes ==> p in area
      ensures forall p :: p in lists.running.nodes ==> p in area
      ensures forall p :: p in lists.sleeping.nodes ==> p in area
    {
      forall p | p in System().All() ensures p in area {
        assert p in multiset(System().All());
        RecordsAreAll(System());
        assert p in multiset(area);
      }
    }

    /** proc_create */
    method ProcCreate(fails: bool) returns (p: Node?<Rec>)
      requires Valid()
      modifies `up, lists.sleeping, lists.sleeping.nodes`prev, lists.sleeping.nodes`next
      modifies lists.pool.unused, lists.pool.unused.nodes
      ensures Valid() && System() == Next(old(System()), Created(fails)) && (p != null ==> p in lists.sleeping.nodes)
    {
      InArea();
      NextKeepsInv<Record, Lock>(System(), Created(fails));
      NextKeepsRecords<Record, Lock>(System(), Created(fails));
      p := DoCreate(fails);
    }

    /** proc_sleep */
    method ProcSleep(p: Record)
      requires Valid() && Legal(System(), Slept(p))
      modifies `current, `up, p`rec, lists.running, lists.sleeping
      modifies lists.running.nodes`prev, lists.running.nodes`next, lists.sleeping.nodes`prev, lists.sleeping.nodes`next
      ensures Valid() && System() == Next(old(System()), Slept(p))
    {
      InArea();
      NextKeepsInv(System(), Slept(p));
      NextKeepsRecords(System(), Slept(p));
      DoSleep(p);
    }

    /** proc_wakeup */
    method ProcWakeup(p: Record)
      requires Valid() && Legal(System(), Woken(p))
      modifies `up, p`rec, lists.running, lists.sleeping
      modifies lists.running.nodes`prev, lists.running.nodes`next, lists.sleeping.nodes`prev, lists.sleeping.nodes`next
      ensures Valid() && System() == Next(old(System()), Woken(p))
    {
      InArea();
      NextKeepsInv(System(), Woken(p));
      NextKeepsRecords(System(), Woken(p));
      DoWakeup(p);
    }

    /** lock_unref of the lock that p waits for. */
    method GiveUp(p: Record, l: Lock)
      requires Shown() && current != null && current in lists.running.nodes && l in counts && counts[l] > 1
      requires forall q :: q in lists.running.nodes ==> q in area
      modifies `counts, `holds, `waits, l, area`rec
      ensures Shown()
      ensures var w := Waker(old(System()), l);
        && counts == old(counts)[l := old(counts)[l] - 1]
        && waits == (if w.None? then old(waits) else old(waits) - {w.value})
        && holds == old(holds) + if w.None? || w.value == p then {} else {(w.value, l)}
    {
      ghost var s := System();
      SetCount(l, l.count - 1);
      SameWalk(s, System(), l);
      if l.count != 0 { WakeOne(l, p); }
    }

    /** LOCK_KILL_PROC */
    method DoForget(p: Record)
      requires Valid() && p in area && (p in waits ==> current != null)
      modifies `counts, `holds, `waits, counts.Keys, area`rec
      ensures Shown() && System() == Forget(old(System()), p)
    {
      if p.rec.lock != null {
        ghost var s := System();
        InArea();
        WaiterCounts(s, waits[p], p);
        GiveUp(p, p.rec.lock);
        ForgetIs(s, System(), p);
      }
    }

    /** The end of proc_kill: back to the running ring, from there to the pool. */
    method Bury(p: Record)
      requires Shown() && Bits(System()) && System().Live(p) && p in area
      modifies `current, `up, p`rec, lists.running, lists.sleeping, lists.pool.unused
      modifies lists.running.nodes`prev, lists.running.nodes`next, lists.sleeping.nodes`prev, lists.sleeping.nodes`next
      modifies lists.pool.unused.nodes`prev, lists.pool.unused.nodes`next
      ensures Shown() && System() == Reap(Wakeup(old(System()), p), p)
    {
      DoWakeup(p);
      DoReap(p);
    }

    /** The processes' part of proc_kill. */
    method DoKill(p: Record)
      requires Valid() && System().Live(p) && (p in waits ==> current != null)
      modifies `current, `up, `counts, `holds, `waits, counts.Keys, area`rec, lists.running, lists.sleeping
      modifies lists.pool.unused
      modifies lists.running.nodes`prev, lists.running.nodes`next, lists.sleeping.nodes`prev, lists.sleeping.nodes`next
      modifies lists.pool.unused.nodes`prev, lists.pool.unused.nodes`next
      ensures Shown() && System() == Kill(old(System()), p)
    {
      InArea();
      DoForget(p);
      Bury(p);
    }

    /** PROC_RUN_FIRST hands proc_current itself to proc_funexec. */
    method ProcStart(p: Record)
      requires Valid() && Legal(System(), Started(p))
      modifies `current
      ensures Valid() && System() == Next(old(System()), Started(p))
    {
      NextKeepsInv(System(), Started(p));
      current := p;
    }

    /** proc_kill by another process. Unless p dies well, the locks are not in order any more. */
    method ProcKill(p: Record)
      requires Valid() && System().Live(p) && p != current && (p in waits ==> current != null)
      modifies `current, `up, `counts, `holds, `waits, counts.Keys, area`rec, lists.running, lists.sleeping
      modifies lists.pool.unused
      modifies lists.running.nodes`prev, lists.running.nodes`next, lists.sleeping.nodes`prev, lists.sleeping.nodes`next
      modifies lists.pool.unused.nodes`prev, lists.pool.unused.nodes`next
      ensures Shown() && System() == Kill(old(System()), p) && Records(System()) == multiset(area)
      ensures Valid() <==> DiesWell(old(System()), p)
    {
      KillKeepsInvExactly(System(), p);
      KillKeepsRecords(System(), p);
      DoKill(p);
    }

    /** exit: kill the current process and switch to the next, if there is one. */
    method ProcExit()
      requires Valid() && current != null && current !in waits
      modifies `current, `up, `counts, `holds, `waits, counts.Keys, area`rec, lists.running, lists.sleeping
      modifies lists.pool.unused
      modifies lists.running.nodes`prev, lists.running.nodes`next, lists.sleeping.nodes`prev, lists.sleeping.nodes`next
      modifies lists.pool.unused.nodes`prev, lists.pool.unused.nodes`next
      ensures Shown() && System() == Exit(old(System())) && Records(System()) == multiset(area)
      ensures Valid() <==> DiesWell(old(System()), old(current))
    {
      ExitKeepsInvExactly(System());
      ExitStays(System());
      DoKill(current);
      SwitchOut();
    }

    method SwitchOut()
      requires Shown() && (current != null ==> current in lists.running.nodes)
      modifies `current
      ensures Shown() && System() == Switch(old(System()))
    {
      if current != null { DoSwitch(); }
    }

    /** machdep_switch */
    method ProcSwitch()
      requires Valid() && Legal<Record, Lock>(System(), Switched)
      modifies `current
      ensures Valid() && System() == Next(old(System()), Switched)
    {
      SwitchKeepsInv(System());
      SwitchOut();
    }

    /** lock_ref */
    method LockRef(l: Lock)
      requires Valid() && Legal(System(), Referenced(l)) && current != null
      modifies `counts, `holds, `waits, l, current`rec
      ensures Valid() && System() == Next(old(System()), Referenced(l))
      ensures l.count == old(l.count) + 1 < 0x100
      ensures var p: Record := current;
        if old(l.count) == 0 then holds == old(holds) + {(p, l)} && waits == old(waits) && p.rec == old(p.rec)
        else holds == old(holds) && waits == old(waits)[p := l] && p.rec == old(p.rec).(lock := l)
    {
      InArea();
      RefKeepsInv(System(), l);
      RefTakesOrWaits(System(), l);
      DoRef(l);
    }

    /** lock_unref */
    method LockUnref(l: Lock)
      requires Valid() && Legal(System(), Unreferenced(l))
      modifies `counts, `holds, `waits, l, area`rec
      ensures Valid() && System() == Next(old(System()), Unreferenced(l))
      ensures l.count == old(l.count) - 1 && SamePlaces(old(System()), System())
    {
      InArea();
      UnrefKeepsInv(System(), l);
      DoUnref(l);
    }
  }

  ghost function AllUnused(nodes: seq<Record>, locks: set<Lock>): Sys<Record, Lock> {
    Sys(nodes, [], [], None, {}, map[], map l | l in locks :: 0, {})
  }

  lemma FirstState(s: Sys<Record, Lock>)
    requires Distinct(s.unused) && |s.unused| <= 254 && s.running == [] && s.sleeping == [] && s.current.None?
    requires s.waits == map[] && s.holds == {} && forall l :: l in s.counts ==> s.counts[l] == 0
    ensures Inv(s) && Records(s) == multiset(Elements(s.unused))
  {
    InitialInv(s);
    SetOfDistinct(s.unused);
  }

  lemma CreateIs(s: Sys<Record, Lock>, t: Sys<Record, Lock>, fails: bool, left: seq<Record>, p: Record)
    requires s.unused == left + [p]
    requires t == s.(unused := left + (if fails then [p] else []),
                     sleeping := (if fails then [] else [p]) + s.sleeping, up := s.up - {p})
    ensures t == Create(s, fails)
  {
    assert s.unused[..|s.unused| - 1] == left;
  }

  lemma UnrefIs(s: Sys<Record, Lock>, t: Sys<Record, Lock>, l: Lock, w: Option<Record>)
    requires s.current.Some? && s.current.value in s.running && l in s.counts && s.counts[l] > 0
    requires w == if s.counts[l] == 1 then None else Waker(s, l)
    requires t == s.(counts := t.counts, waits := t.waits, holds := t.holds)
    requires t.counts == s.counts[l := s.counts[l] - 1]
    requires t.waits == (if w.None? then s.waits else s.waits - {w.value})
    requires t.holds == s.holds - {(s.current.value, l)} + if w.None? then {} else {(w.value, l)}
    ensures t == Unref(s, l)
  {
  }

  lemma ForgetIs(s: Sys<Record, Lock>, t: Sys<Record, Lock>, p: Record)
    requires Inv(s) && s.current.Some? && p in s.waits
    requires var l, w := s.waits[p], Waker(s, s.waits[p]);
      && t == s.(counts := t.counts, waits := t.waits, holds := t.holds)
      && l in s.counts && s.counts[l] > 1 && t.counts == s.counts[l := s.counts[l] - 1]
      && t.waits == (if w.None? then s.waits else s.waits - {w.value})
      && t.holds == s.holds + if w.None? || w.value == p then {} else {(w.value, l)}
    ensures t == Forget(s, p)
  {
  }

  /** After an exit proc_current is on the ring before it moves on, and the records are the same. */
  lemma ExitStays(s: Sys<Record, Lock>)
    requires Inv(s) && s.current.Some? && s.current.value !in s.waits
    ensures var t := Kill(s, s.current.value);
      (t.current.Some? ==> t.current.value in t.running) && Records(Exit(s)) == Records(s) && Exit(s) == Switch(t)
  {
    var p := s.current.value;
    KillKeepsRecords(s, p);
    ReapKeepsPlaces(s, p);
  }

  lemma SameWalk(s: Sys<Record, Lock>, t: Sys<Record, Lock>, l: Lock)
    requires s.current.Some? && s.current.value in s.running && t.current == s.current && t.running == s.running
    requires t.waits == s.waits
    ensures Waker(s, l) == Waker(t, l)
  {
  }

  /** The walk is back where it started only after the whole ring. */
  lemma OnceAround(ring: seq<Record>, k: nat, n: nat)
    requires Distinct(ring) && k < |ring| && n < |ring| && ring[Turn(k, |ring| - n, |ring|)] == ring[k]
    ensures n == 0
  {
    IndexUnique(ring, Turn(k, |ring| - n, |ring|));
    IndexUnique(ring, k);
  }

  lemma OnlyOne(was: seq<Record>, p: Record)
    requires Distinct(was) && p in was
    ensures Successor(was, p) == p <==> |was| == 1
  {
    var k := IndexOf(was, p);
    var j := Succ(k, |was|);
    if j < k { assert was[j] != was[k]; } else if k < j { assert was[k] != was[j]; }
  }

  ghost function Elements(s: seq<Record>): set<Record> {
    set p | p in s
  }

  lemma SetOfDistinct(s: seq<Record>)
    requires Distinct(s)
    ensures multiset(Elements(s)) == multiset(s)
  {
    forall p: Record | p in s ensures multiset(s)[p] == 1 {
      DistinctOnce(s, p);
      assert p in multiset(s);
    }
  }
}
