/**
 Processes and locks as a state machine (kern/proc/proc.c, kern/proc/lock.c, kern/machdep/machdep.c). A step
 is one stretch of code that is not interrupted by a switch. P are process records, L are locks.
 */
module Sched {
  import opened Common
  import opened Queue

  datatype Sys<P, L> = Sys(
    unused: seq<P>,                  // proc_pool
    running: seq<P>,                 // procs_running, from its first node on
    sleeping: seq<P>,                // procs_sleeping
    current: Option<P>,              // proc_current
    up: set<P>,                      // the records whose state has PROC_RUNNING
    waits: map<P, L>,                // proc->lock, where it is not null
    counts: map<L, nat>,             // the lock counters, each a byte
    holds: set<(P, L)>)              // who has come back from lock_ref and not called lock_unref yet
  {
    ghost function All(): seq<P> { unused + running + sleeping }

    ghost predicate Live(p: P) { p in running || p in sleeping }
  }

  datatype Event<P, L> =
    | Created(fails: bool)           // proc_create
    | Started(p: P)                  // PROC_RUN_FIRST
    | Slept(p: P)                    // proc_sleep
    | Woken(p: P)                    // proc_wakeup
    | Killed(p: P)                   // proc_kill by another process
    | Exited                         // exit
    | Switched                       // machdep_switch
    | Referenced(l: L)               // lock_ref
    | Unreferenced(l: L)             // lock_unref

  // ----- Operations -----

  ghost function Without<P>(s: seq<P>, p: P): seq<P>
    requires p in s
  {
    RemoveAt(s, IndexOf(s, p))
  }

  /** The process behind p in the ring. */
  ghost function Successor<P>(ring: seq<P>, p: P): P
    requires p in ring
  {
    ring[Succ(IndexOf(ring, p), |ring|)]
  }

  /** A record leaves the pool and joins the sleepers, unless fs_init_proc fails and it goes back. */
  ghost function Create<P, L>(s: Sys<P, L>, fails: bool): Sys<P, L>
  {
    if s.unused == [] then s
    else
      var p := s.unused[|s.unused| - 1];
      if fails then s.(up := s.up - {p})
      else s.(unused := s.unused[..|s.unused| - 1], sleeping := [p] + s.sleeping, up := s.up - {p})
  }

  /** Nothing happens if p sleeps already or waits for a lock. If it is the current process, the next one runs. */
  ghost function Sleep<P, L>(s: Sys<P, L>, p: P): Sys<P, L>
    requires s.Live(p) && Bits(s)
  {
    if p !in s.up || p in s.waits then s
    else
      s.(up := s.up - {p}, running := Without(s.running, p), sleeping := [p] + s.sleeping,
         current := if s.current == Some(p) then Some(Successor(s.running, p)) else s.current)
  }

  ghost function Wakeup<P, L>(s: Sys<P, L>, p: P): Sys<P, L>
    requires s.Live(p) && Bits(s)
  {
    if p in s.up then s
    else s.(up := s.up + {p}, sleeping := Without(s.sleeping, p), running := [p] + s.running)
  }

  /** p leaves the ring and the record goes back; proc_current steps back to its predecessor, as SWITCH moves on. */
  ghost function Reap<P, L>(s: Sys<P, L>, p: P): Sys<P, L>
    requires p in s.running
  {
    s.(running := Without(s.running, p), unused := s.unused + [p],
       current := if s.current != Some(p) then s.current
                  else if |s.running| == 1 then None
                  else Some(s.running[Pred(IndexOf(s.running, p), |s.running|)]))
  }

  ghost function Switch<P, L>(s: Sys<P, L>): Sys<P, L>
    requires s.current.Some? ==> s.current.value in s.running
  {
    if s.current.None? then s else s.(current := Some(Successor(s.running, s.current.value)))
  }

  /** The first to reference a lock holds it; all others wait. The sleep in lock_ref has no effect then. */
  ghost function Ref<P, L>(s: Sys<P, L>, l: L): Sys<P, L>
    requires s.current.Some? && l in s.counts
  {
    var n := (s.counts[l] + 1) % 0x100;
    if n == 1 then s.(counts := s.counts[l := n], holds := s.holds + {(s.current.value, l)})
    else s.(counts := s.counts[l := n], waits := s.waits[s.current.value := l])
  }

  /** The walk of lock_wakeup: the first of n places from k on whose process waits for the lock. */
  ghost function Walk<P, L>(ring: seq<P>, waits: map<P, L>, l: L, k: nat, n: nat): (r: Option<nat>)
    requires k < |ring|
    ensures r.Some? ==> r.value < |ring| && ring[r.value] in waits && waits[ring[r.value]] == l
    decreases n
  {
    if n == 0 then None
    else if ring[k] in waits && waits[ring[k]] == l then Some(k)
    else Walk(ring, waits, l, Succ(k, |ring|), n - 1)
  }

  ghost function Waker<P, L>(s: Sys<P, L>, l: L): Option<P>
    requires s.current.Some? && s.current.value in s.running
  {
    var w := Walk(s.running, s.waits, l, IndexOf(s.running, s.current.value), |s.running|);
    if w.Some? then Some(s.running[w.value]) else None
  }

  ghost function Unref<P, L>(s: Sys<P, L>, l: L): Sys<P, L>
    requires s.current.Some? && s.current.value in s.running && l in s.counts && s.counts[l] > 0
  {
    var t := s.(counts := s.counts[l := s.counts[l] - 1], holds := s.holds - {(s.current.value, l)});
    var w := Waker(s, l);
    if t.counts[l] == 0 || w.None? then t
    else t.(waits := t.waits - {w.value}, holds := t.holds + {(w.value, l)})
  }

  /** Live processes: PROC_RUNNING is set exactly on the running ring. */
  ghost predicate Bits<P, L>(s: Sys<P, L>) {
    (forall p :: p in s.running ==> p in s.up) && forall p :: p in s.sleeping ==> p !in s.up
  }

  // ----- The invariant -----

  ghost function WaitersOf<P, L>(s: Sys<P, L>, l: L): set<P> {
    set p | p in s.waits && s.waits[p] == l
  }

  ghost function HoldersOf<P, L>(s: Sys<P, L>, l: L): set<(P, L)> {
    set h | h in s.holds && h.1 == l
  }

  /** The counter of a lock is its holder, if any, and everyone who waits. Nobody waits for a lock without holder. */
  ghost predicate LockOk<P, L>(s: Sys<P, L>, l: L)
    requires l in s.counts
  {
    && s.counts[l] == |HoldersOf(s, l)| + |WaitersOf(s, l)|
    && |HoldersOf(s, l)| <= 1 && (WaitersOf(s, l) != {} ==> HoldersOf(s, l) != {})
  }

  /** Everything but the locks. */
  ghost predicate PlacesOk<P, L>(s: Sys<P, L>) {
    && Distinct(s.All()) && |s.All()| <= 254 && Bits(s)
    && (s.current.Some? ==> s.current.value in s.running)
    && (forall p :: p in s.waits ==> p in s.running && s.waits[p] in s.counts)
    && (forall h :: h in s.holds ==> s.Live(h.0) && h.1 in s.counts)
  }

  ghost predicate Inv<P, L>(s: Sys<P, L>) {
    PlacesOk(s) && forall l :: l in s.counts ==> LockOk(s, l)
  }

  // ----- Steps -----

  /** Nobody suffers from the death of p: it holds no lock, and no other process is let loose in its place. */
  ghost predicate DiesWell<P, L>(s: Sys<P, L>, p: P)
    requires p in s.waits ==> s.current.Some? && s.current.value in s.running
  {
    (forall h :: h in s.holds ==> h.0 != p) && (p in s.waits ==> Waker(s, s.waits[p]) == Some(p))
  }

  /** What the callers keep to. */
  ghost predicate Legal<P, L>(s: Sys<P, L>, e: Event<P, L>)
    requires s.current.Some? ==> s.current.value in s.running
  {
    match e
    case Created(_) => true
    case Started(p) => s.current.None? && p in s.running
    case Slept(p) => s.Live(p) && (s.current == Some(p) && p !in s.waits ==> |s.running| >= 2)
    case Woken(p) => s.Live(p)
    case Killed(p) => s.Live(p) && s.current != Some(p) && (p in s.waits ==> s.current.Some?) && DiesWell(s, p)
    case Exited => s.current.Some? && s.current.value !in s.waits && DiesWell(s, s.current.value)
    case Switched => s.current.Some?
    case Referenced(l) => s.current.Some? && s.current.value !in s.waits && l in s.counts
    case Unreferenced(l) => s.current.Some? && s.current.value !in s.waits && (s.current.value, l) in s.holds
  }

  ghost function Next<P, L>(s: Sys<P, L>, e: Event<P, L>): Sys<P, L>
    requires Inv(s) && Legal(s, e)
  {
    match e
    case Created(fails) => Create(s, fails)
    case Started(p) => s.(current := Some(p))
    case Slept(p) => Sleep(s, p)
    case Woken(p) => Wakeup(s, p)
    case Killed(p) => Kill(s, p)
    case Exited => Exit(s)
    case Switched => Switch(s)
    case Referenced(l) => Ref(s, l)
    case Unreferenced(l) =>
      HolderCounts(s, l, s.current.value);
      Unref(s, l)
  }

  /**
   LOCK_KILL_PROC: lock_unref of the lock that p waits for, if any. Its walk need not come to p first; if it
   does, p is let loose, but does not come back from lock_ref any more.
   */
  ghost function Forget<P, L>(s: Sys<P, L>, p: P): (t: Sys<P, L>)
    requires Inv(s) && (p in s.waits ==> s.current.Some?)
    ensures t == s.(counts := t.counts, waits := t.waits, holds := t.holds)
  {
    if p !in s.waits then s
    else
      var l := s.waits[p];
      WaiterCounts(s, l, p);
      var t := s.(counts := s.counts[l := s.counts[l] - 1]);
      var w := Waker(s, l);
      if w.None? then t
      else t.(waits := t.waits - {w.value}, holds := t.holds + if w.value == p then {} else {(w.value, l)})
  }

  /** proc_kill lets go of the lock and wakes the process, so that it is on the running ring. */
  ghost function Kill<P, L>(s: Sys<P, L>, p: P): Sys<P, L>
    requires Inv(s) && s.Live(p) && (p in s.waits ==> s.current.Some?)
  {
    Reap(Wakeup(Forget(s, p), p), p)
  }

  lemma WaiterCounts<P, L>(s: Sys<P, L>, l: L, p: P)
    requires Inv(s) && p in WaitersOf(s, l)
    ensures HoldersOf(s, l) != {} && s.counts[l] >= 2
  {
    assert LockOk(s, l);
    assert WaitersOf(s, l) == {p} + (WaitersOf(s, l) - {p});
  }

  ghost function Exit<P, L>(s: Sys<P, L>): Sys<P, L>
    requires Inv(s) && s.current.Some?
  {
    var t := Kill(s, s.current.value);
    if t.current.Some? && t.current.value in t.running then Switch(t) else t
  }

  lemma HolderCounts<P, L>(s: Sys<P, L>, l: L, p: P)
    requires Inv(s) && (p, l) in s.holds
    ensures s.counts[l] > 0
  {
    assert (p, l) in HoldersOf(s, l);
    assert LockOk(s, l);
  }

  // ----- Every record is in exactly one place -----

  lemma RemovedMultiset<P>(s: seq<P>, k: nat)
    requires k < |s|
    ensures multiset(s) == multiset(RemoveAt(s, k)) + multiset{s[k]}
  {
    assert s == s[..k] + [s[k]] + s[k + 1..];
  }

  lemma WithoutMultiset<P>(s: seq<P>, p: P)
    requires p in s
    ensures multiset(s) == multiset(Without(s, p)) + multiset{p}
  {
    RemovedMultiset(s, IndexOf(s, p));
  }

  lemma LastMultiset<P>(s: seq<P>)
    requires s != []
    ensures multiset(s) == multiset(s[..|s| - 1]) + multiset{s[|s| - 1]}
  {
    assert s == s[..|s| - 1] + [s[|s| - 1]];
  }

  ghost function Records<P, L>(s: Sys<P, L>): multiset<P> {
    multiset(s.unused) + multiset(s.running) + multiset(s.sleeping)
  }

  lemma RecordsAreAll<P, L>(s: Sys<P, L>)
    ensures multiset(s.All()) == Records(s)
  {
  }

  lemma WakeupKeepsRecords<P, L>(s: Sys<P, L>, p: P)
    requires Bits(s) && s.Live(p)
    ensures Records(Wakeup(s, p)) == Records(s)
  {
    if p !in s.up { WithoutMultiset(s.sleeping, p); }
  }

  lemma CreateKeepsRecords<P, L>(s: Sys<P, L>, fails: bool)
    ensures Records(Create(s, fails)) == Records(s)
  {
    if s.unused != [] { LastMultiset(s.unused); }
  }

  lemma SleepKeepsRecords<P, L>(s: Sys<P, L>, p: P)
    requires Bits(s) && s.Live(p)
    ensures Records(Sleep(s, p)) == Records(s)
  {
    if p in s.up && p !in s.waits { WithoutMultiset(s.running, p); }
  }

  /** No step loses or doubles a process record. */
  lemma NextKeepsRecords<P, L>(s: Sys<P, L>, e: Event<P, L>)
    requires Inv(s) && Legal(s, e)
    ensures Records(Next(s, e)) == Records(s)
  {
    match e
    case Created(fails) => CreateKeepsRecords(s, fails);
    case Slept(p) => SleepKeepsRecords(s, p);
    case Woken(p) => WakeupKeepsRecords(s, p);
    case Killed(p) => KillKeepsRecords(s, p);
    case Exited => KillKeepsRecords(s, s.current.value);
    case _ =>
  }

  lemma KillKeepsRecords<P, L>(s: Sys<P, L>, p: P)
    requires Inv(s) && s.Live(p) && (p in s.waits ==> s.current.Some?)
    ensures Records(Kill(s, p)) == Records(s)
  {
    ReapKeepsRecords(Forget(s, p), p);
  }

  lemma ReapMovesRecord<P, L>(s: Sys<P, L>, p: P)
    requires p in s.running
    ensures Records(Reap(s, p)) == Records(s)
  {
    WithoutMultiset(s.running, p);
  }

  lemma ReapKeepsRecords<P, L>(s: Sys<P, L>, p: P)
    requires Bits(s) && s.Live(p)
    ensures Records(Reap(Wakeup(s, p), p)) == Records(s)
  {
    WakeupKeepsRecords(s, p);
    ReapMovesRecord(Wakeup(s, p), p);
  }

  lemma {:induction false} DistinctOnce<P>(s: seq<P>, x: P)
    requires Distinct(s)
    ensures multiset(s)[x] <= 1
  {
    if s != [] {
      var t := s[..|s| - 1];
      LastMultiset(s);
      DistinctOnce(t, x);
      if x == s[|s| - 1] {
        assert x !in t;
        assert x !in multiset(t);
      }
    }
  }

  lemma TwiceCounted<P>(s: seq<P>, i: nat, j: nat)
    requires i < j < |s| && s[i] == s[j]
    ensures multiset(s)[s[i]] >= 2
  {
    RemovedMultiset(s, j);
    assert RemoveAt(s, j)[i] == s[i];
    assert s[i] in multiset(RemoveAt(s, j));
  }

  lemma StillDistinct<P>(s: seq<P>, t: seq<P>)
    requires Distinct(s) && multiset(s) == multiset(t)
    ensures Distinct(t) && |t| == |s|
  {
    assert |multiset(s)| == |s| && |multiset(t)| == |t|;
    if i, j :| 0 <= i < j < |t| && t[i] == t[j] {
      TwiceCounted(t, i, j);
      DistinctOnce(s, t[i]);
    }
  }

  lemma WithoutMembers<P>(s: seq<P>, p: P)
    requires Distinct(s) && p in s
    ensures p !in Without(s, p) && Distinct(Without(s, p)) && |Without(s, p)| == |s| - 1
    ensures forall x :: x in Without(s, p) ==> x in s
    ensures forall x :: x in s && x != p ==> x in Without(s, p)
  {
    var k, r := IndexOf(s, p), Without(s, p);
    forall x | x in s && x != p ensures x in r {
      var i :| 0 <= i < |s| && s[i] == x;
      assert r[if i < k then i else i - 1] == x;
    }
  }

  lemma PartsOf<P>(a: seq<P>, b: seq<P>, c: seq<P>)
    requires Distinct(a + b + c)
    ensures Distinct(a) && Distinct(b) && Distinct(c)
    ensures Disjoint(b, a) && Disjoint(b, c) && Disjoint(c, a)
    ensures forall x :: x in b ==> x !in a && x !in c
    ensures forall x :: x in c ==> x !in a
  {
    var all, u, r := a + b + c, |a|, |a| + |b|;
    assert forall i :: 0 <= i < |b| ==> b[i] == all[u + i];
    assert forall i :: 0 <= i < |c| ==> c[i] == all[r + i];
    assert forall i :: 0 <= i < |a| ==> a[i] == all[i];
  }

  lemma Parts<P, L>(s: Sys<P, L>)
    requires Distinct(s.All())
    ensures Distinct(s.unused) && Distinct(s.running) && Distinct(s.sleeping)
    ensures forall x :: x in s.running ==> x !in s.unused && x !in s.sleeping
    ensures forall x :: x in s.sleeping ==> x !in s.unused
  {
    PartsOf(s.unused, s.running, s.sleeping);
  }

  /** A record that moves to the front of another list, or to the end of the first, stays in one place. */
  lemma MovedDistinct<P>(a: seq<P>, b: seq<P>, c: seq<P>, p: P)
    requires Distinct(a + b + c) && p in b
    ensures Distinct(a + Without(b, p) + ([p] + c)) && Distinct(a + ([p] + c) + Without(b, p))
    ensures Distinct((a + [p]) + Without(b, p) + c)
  {
    WithoutMultiset(b, p);
    var r := Without(b, p);
    assert multiset(a + b + c) == multiset(a) + multiset(b) + multiset(c);
    StillDistinct(a + b + c, a + r + ([p] + c));
    StillDistinct(a + b + c, a + ([p] + c) + r);
    StillDistinct(a + b + c, (a + [p]) + r + c);
  }

  lemma RemovedDistinct<P>(a: seq<P>, b: seq<P>, c: seq<P>, p: P)
    requires Distinct(a + b + c) && p in b
    ensures Distinct(a + Without(b, p) + c) && p !in a + Without(b, p) + c
  {
    PartsOf(a, b, c);
    WithoutMembers(b, p);
    var k, s, t := IndexOf(b, p), a + b + c, a + Without(b, p) + c;
    assert forall i :: 0 <= i < |t| ==> t[i] == s[if i < |a| + k then i else i + 1];
  }

  lemma SwappedDistinct<P>(a: seq<P>, b: seq<P>, c: seq<P>)
    requires Distinct(a + b + c)
    ensures Distinct(a + c + b)
  {
    assert multiset(a + b + c) == multiset(a) + multiset(b) + multiset(c);
    StillDistinct(a + b + c, a + c + b);
  }

  lemma TakenDistinct<P>(a: seq<P>, b: seq<P>, c: seq<P>, p: P)
    requires Distinct((a + [p]) + b + c)
    ensures Distinct(a + b + c) && p !in a + b + c
  {
    var s := (a + [p]) + b + c;
    assert forall i :: 0 <= i < |a + b + c| ==> (a + b + c)[i] == s[if i < |a| then i else i + 1];
    assert s[|a|] == p;
  }

  lemma AddedDistinct<P>(a: seq<P>, b: seq<P>, c: seq<P>, p: P)
    requires Distinct(a + b + c) && p !in a + b + c
    ensures Distinct((a + [p]) + b + c) && Distinct(a + b + ([p] + c))
  {
    var s, t := a + b + c, (a + [p]) + b + c;
    assert forall i :: 0 <= i < |t| && i != |a| ==> t[i] == s[if i < |a| then i else i - 1];
    assert multiset(t) == multiset(s) + multiset{p};
    StillDistinct(t, a + b + ([p] + c));
  }

  // ----- Every step keeps the invariant -----

  /** Places and locks are all right as long as the lists still hold the same records and the locks are untouched. */
  lemma LocksUntouched<P, L>(s: Sys<P, L>, t: Sys<P, L>)
    requires Inv(s) && t.waits == s.waits && t.counts == s.counts && t.holds == s.holds && Records(t) == Records(s)
    requires Bits(t) && (t.current.Some? ==> t.current.value in t.running)
    requires forall p :: p in s.waits ==> p in t.running
    requires forall h :: h in s.holds ==> t.Live(h.0)
    ensures Inv(t)
  {
    StillDistinct(s.All(), t.All());
    forall l | l in t.counts ensures LockOk(t, l) {
      assert LockOk(s, l);
    }
  }

  lemma SleepKeepsInv<P, L>(s: Sys<P, L>, p: P)
    requires Inv(s) && Legal(s, Slept(p))
    ensures Inv(Sleep(s, p))
  {
    Parts(s);
    SleepKeepsRecords(s, p);
    if p in s.up && p !in s.waits {
      WithoutMembers(s.running, p);
      if s.current == Some(p) { SuccessorOther(s.running, p); }
      LocksUntouched(s, Sleep(s, p));
    }
  }

  lemma SuccessorOther<P>(ring: seq<P>, p: P)
    requires Distinct(ring) && p in ring && |ring| >= 2
    ensures Successor(ring, p) in Without(ring, p)
  {
    var k := IndexOf(ring, p);
    assert ring[Succ(k, |ring|)] != ring[k];
    WithoutMembers(ring, p);
  }

  lemma WakeupKeepsInv<P, L>(s: Sys<P, L>, p: P)
    requires Inv(s) && s.Live(p)
    ensures Inv(Wakeup(s, p))
  {
    Parts(s);
    WakeupKeepsRecords(s, p);
    if p !in s.up {
      WithoutMembers(s.sleeping, p);
      LocksUntouched(s, Wakeup(s, p));
    }
  }

  lemma CreateKeepsInv<P, L>(s: Sys<P, L>, fails: bool)
    requires Inv(s)
    ensures Inv(Create(s, fails))
  {
    Parts(s);
    CreateKeepsRecords(s, fails);
    LocksUntouched(s, Create(s, fails));
  }

  lemma ReapKeepsPlaces<P, L>(s: Sys<P, L>, p: P)
    requires Distinct(s.All()) && Bits(s) && p in s.running && (s.current.Some? ==> s.current.value in s.running)
    ensures var t := Reap(s, p);
      Bits(t) && Records(t) == Records(s) && (t.current.Some? ==> t.current.value in t.running)
    ensures forall x :: x in s.running && x != p ==> x in Reap(s, p).running
  {
    ReapMovesRecord(s, p);
    Parts(s);
    WithoutMembers(s.running, p);
    if s.current == Some(p) && |s.running| > 1 { PredecessorOther(s.running, p); }
  }

  lemma ReapKeepsInv<P, L>(s: Sys<P, L>, p: P)
    requires Inv(s) && p in s.running && p !in s.waits && forall h :: h in s.holds ==> h.0 != p
    ensures Inv(Reap(s, p))
  {
    ReapKeepsPlaces(s, p);
    LocksUntouched(s, Reap(s, p));
  }

  lemma OneWaiterLess<P, L>(s: Sys<P, L>, t: Sys<P, L>, l: L, p: P, m: L)
    requires l in s.counts && s.counts[l] > 0 && m in s.counts && LockOk(s, m) && p in WaitersOf(s, l)
    requires t.counts == s.counts[l := s.counts[l] - 1] && t.waits == s.waits - {p} && t.holds == s.holds
    ensures LockOk(t, m)
  {
    assert HoldersOf(t, m) == HoldersOf(s, m);
    assert WaitersOf(t, m) == if m == l then WaitersOf(s, m) - {p} else WaitersOf(s, m);
  }

  /** A waiting process that is found takes its place in the count with it. */
  lemma ForgetKeepsInv<P, L>(s: Sys<P, L>, p: P)
    requires Inv(s) && (p in s.waits ==> s.current.Some? && Waker(s, s.waits[p]) == Some(p))
    ensures Inv(Forget(s, p)) && p !in Forget(s, p).waits && Forget(s, p).holds == s.holds
  {
    if p in s.waits {
      var l, t := s.waits[p], Forget(s, p);
      WaiterCounts(s, l, p);
      forall m | m in t.counts ensures LockOk(t, m) {
        OneWaiterLess(s, t, l, p, m);
      }
    }
  }

  lemma KillKeepsInv<P, L>(s: Sys<P, L>, p: P)
    requires Inv(s) && s.Live(p) && (p in s.waits ==> s.current.Some?) && DiesWell(s, p)
    ensures Inv(Kill(s, p))
  {
    ForgetKeepsInv(s, p);
    var t := Forget(s, p);
    WakeupKeepsInv(t, p);
    ReapKeepsInv(Wakeup(t, p), p);
  }

  /** Exactly those deaths keep the invariant. */
  lemma KillKeepsInvExactly<P, L>(s: Sys<P, L>, p: P)
    requires Inv(s) && s.Live(p) && (p in s.waits ==> s.current.Some?)
    ensures Inv(Kill(s, p)) <==> DiesWell(s, p)
  {
    if DiesWell(s, p) {
      KillKeepsInv(s, p);
    } else {
      KilledIsGone(s, p);
      if p in s.waits && Waker(s, s.waits[p]) != Some(p) {
        assert p in WaitersOf(s, s.waits[p]);
        WakerExists(s, s.waits[p]);
        assert p in Kill(s, p).waits;
      } else {
        var h :| h in s.holds && h.0 == p;
        assert h in Kill(s, p).holds;
      }
    }
  }

  lemma KilledIsGone<P, L>(s: Sys<P, L>, p: P)
    requires Inv(s) && s.Live(p) && (p in s.waits ==> s.current.Some?)
    ensures !Kill(s, p).Live(p)
  {
    Parts(s);
    var t := Wakeup(Forget(s, p), p);
    if p !in s.up { WithoutMembers(s.sleeping, p); }
    WakeupKeepsRecords(Forget(s, p), p);
    StillDistinct(s.All(), t.All());
    Parts(t);
    WithoutMembers(t.running, p);
  }

  /** An exit keeps the invariant exactly if the process holds no lock. */
  lemma ExitKeepsInvExactly<P, L>(s: Sys<P, L>)
    requires Inv(s) && s.current.Some? && s.current.value !in s.waits
    ensures Inv(Exit(s)) <==> forall h :: h in s.holds ==> h.0 != s.current.value
  {
    var p := s.current.value;
    if DiesWell(s, p) {
      ExitKeepsInv(s);
    } else {
      KilledIsGone(s, p);
      var h :| h in s.holds && h.0 == p;
      assert h in Exit(s).holds;
    }
  }

  lemma PredecessorOther<P>(ring: seq<P>, p: P)
    requires Distinct(ring) && p in ring && |ring| >= 2
    ensures ring[Pred(IndexOf(ring, p), |ring|)] in Without(ring, p)
  {
    var k := IndexOf(ring, p);
    assert ring[Pred(k, |ring|)] != ring[k];
    WithoutMembers(ring, p);
  }

  lemma ExitKeepsInv<P, L>(s: Sys<P, L>)
    requires Inv(s) && Legal(s, Exited)
    ensures Inv(Exit(s))
  {
    KillKeepsInv(s, s.current.value);
    var t := Kill(s, s.current.value);
    if t.current.Some? { SwitchKeepsInv(t); }
  }

  lemma SwitchKeepsInv<P, L>(s: Sys<P, L>)
    requires Inv(s)
    ensures Inv(Switch(s))
  {
    LocksUntouched(s, Switch(s));
  }

  // ----- Locks -----

  /** i places behind place k in a ring of n. */
  function Ahead(k: nat, i: nat, n: nat): (r: nat)
    requires k < n && i < n
    ensures r < n
  {
    if k + i < n then k + i else k + i - n
  }

  /** The walk finds a waiting process wherever it is in the ring. */
  lemma {:induction false} WalkFinds<P, L>(ring: seq<P>, waits: map<P, L>, l: L, k: nat, n: nat, i: nat)
    requires k < |ring| && i < n <= |ring|
    requires var p := ring[Ahead(k, i, |ring|)]; p in waits && waits[p] == l
    ensures Walk(ring, waits, l, k, n).Some?
    decreases n
  {
    if !(ring[k] in waits && waits[ring[k]] == l) {
      assert i > 0;
      assert Ahead(Succ(k, |ring|), i - 1, |ring|) == Ahead(k, i, |ring|);
      WalkFinds(ring, waits, l, Succ(k, |ring|), n - 1, i - 1);
    }
  }

  lemma WakerExists<P, L>(s: Sys<P, L>, l: L)
    requires Inv(s) && s.current.Some? && WaitersOf(s, l) != {}
    ensures Waker(s, l).Some? && Waker(s, l).value in WaitersOf(s, l)
  {
    var p :| p in WaitersOf(s, l);
    var n, k, j := |s.running|, IndexOf(s.running, s.current.value), IndexOf(s.running, p);
    var i := if k <= j then j - k else j + n - k;
    assert Ahead(k, i, n) == j;
    WalkFinds(s.running, s.waits, l, k, n, i);
  }

  lemma {:induction false} SetOfSeq<P>(s: seq<P>, w: set<P>)
    requires forall p :: p in w ==> p in s
    ensures |w| <= |s|
  {
    if s == [] {
      assert w == {};
    } else {
      var last := s[|s| - 1];
      var rest := w - {last};
      assert forall p :: p in rest ==> p in s[..|s| - 1];
      SetOfSeq(s[..|s| - 1], rest);
      assert w <= rest + {last};
      CardMonotone(w, rest + {last});
    }
  }

  lemma {:induction false} CardMonotone<P>(a: set<P>, b: set<P>)
    requires a <= b
    ensures |a| <= |b|
  {
    assert b == a + (b - a);
  }

  /** The counter of a lock never wraps around. */
  lemma CountBound<P, L>(s: Sys<P, L>, l: L)
    requires Inv(s) && s.current.Some? && s.current.value !in s.waits && l in s.counts
    ensures s.counts[l] + 1 < 0x100 && (s.counts[l] + 1) % 0x100 == s.counts[l] + 1
  {
    assert LockOk(s, l);
    SetOfSeq(s.running, WaitersOf(s, l) + {s.current.value});
  }

  lemma TakesLock<P, L>(s: Sys<P, L>, t: Sys<P, L>, l: L, c: P, m: L)
    requires l in s.counts && s.counts[l] == 0 && m in s.counts && LockOk(s, m)
    requires m == l ==> WaitersOf(s, l) == {} && HoldersOf(s, l) == {}
    requires t.counts == s.counts[l := 1] && t.waits == s.waits && t.holds == s.holds + {(c, l)}
    ensures LockOk(t, m)
  {
    assert WaitersOf(t, m) == WaitersOf(s, m);
    assert HoldersOf(t, m) == HoldersOf(s, m) + if m == l then {(c, l)} else {};
  }

  lemma JoinsWaiters<P, L>(s: Sys<P, L>, t: Sys<P, L>, l: L, c: P, m: L)
    requires l in s.counts && s.counts[l] > 0 && m in s.counts && LockOk(s, m) && c !in s.waits
    requires t.counts == s.counts[l := s.counts[l] + 1] && t.waits == s.waits[c := l] && t.holds == s.holds
    ensures LockOk(t, m)
  {
    assert HoldersOf(t, m) == HoldersOf(s, m);
    assert WaitersOf(t, m) == WaitersOf(s, m) + if m == l then {c} else {};
  }

  lemma RefFirst<P, L>(s: Sys<P, L>, l: L, m: L)
    requires Inv(s) && Legal(s, Referenced(l)) && s.counts[l] == 0 && m in s.counts
    ensures LockOk(Ref(s, l), m)
  {
    assert LockOk(s, l) && LockOk(s, m);
    TakesLock(s, Ref(s, l), l, s.current.value, m);
  }

  lemma RefSecond<P, L>(s: Sys<P, L>, l: L, m: L)
    requires Inv(s) && Legal(s, Referenced(l)) && s.counts[l] > 0 && m in s.counts
    ensures LockOk(Ref(s, l), m)
  {
    CountBound(s, l);
    assert LockOk(s, m);
    JoinsWaiters(s, Ref(s, l), l, s.current.value, m);
  }

  lemma RefKeepsInv<P, L>(s: Sys<P, L>, l: L)
    requires Inv(s) && Legal(s, Referenced(l))
    ensures Inv(Ref(s, l))
  {
    forall m | m in s.counts ensures LockOk(Ref(s, l), m) {
      if s.counts[l] == 0 { RefFirst(s, l, m); } else { RefSecond(s, l, m); }
    }
  }

  /** Giving a lock back: if anyone waits, exactly one of them is let loose, and it holds the lock now. */
  lemma UnrefHandsOver<P, L>(s: Sys<P, L>, l: L)
    requires Inv(s) && Legal(s, Unreferenced(l))
    ensures s.counts[l] > 0
    ensures WaitersOf(s, l) == {} ==>
      Unref(s, l).holds == s.holds - {(s.current.value, l)} && Unref(s, l).waits == s.waits
    ensures WaitersOf(s, l) != {} ==>
      && Waker(s, l).Some? && Waker(s, l).value in WaitersOf(s, l)
      && Unref(s, l).waits == s.waits - {Waker(s, l).value}
      && Unref(s, l).holds == s.holds - {(s.current.value, l)} + {(Waker(s, l).value, l)}
  {
    HolderCounts(s, l, s.current.value);
    assert LockOk(s, l);
    OneHolder(s, l, s.current.value);
    if WaitersOf(s, l) != {} { WakerExists(s, l); }
  }

  lemma OneHolder<P, L>(s: Sys<P, L>, l: L, p: P)
    requires Inv(s) && (p, l) in s.holds
    ensures HoldersOf(s, l) == {(p, l)} && s.counts[l] == 1 + |WaitersOf(s, l)|
  {
    assert LockOk(s, l) && (p, l) in HoldersOf(s, l);
    assert HoldersOf(s, l) == {(p, l)} + (HoldersOf(s, l) - {(p, l)});
    assert |HoldersOf(s, l) - {(p, l)}| == 0;
  }

  lemma UnrefLast<P, L>(s: Sys<P, L>, l: L, m: L)
    requires Inv(s) && Legal(s, Unreferenced(l)) && WaitersOf(s, l) == {} && m in s.counts
    ensures s.counts[l] > 0 && LockOk(Unref(s, l), m)
  {
    UnrefHandsOver(s, l);
    OneHolder(s, l, s.current.value);
    var t := Unref(s, l);
    assert LockOk(s, m);
    assert WaitersOf(t, m) == WaitersOf(s, m);
    assert HoldersOf(t, m) == if m == l then {} else HoldersOf(s, m);
  }

  lemma PassedOn<P, L>(s: Sys<P, L>, t: Sys<P, L>, l: L, c: P, w: P, m: L)
    requires l in s.counts && s.counts[l] > 0 && m in s.counts && LockOk(s, m)
    requires m == l ==> HoldersOf(s, l) == {(c, l)}
    requires w in WaitersOf(s, l) && t.counts == s.counts[l := s.counts[l] - 1]
    requires t.waits == s.waits - {w} && t.holds == s.holds - {(c, l)} + {(w, l)}
    ensures LockOk(t, m)
  {
    assert WaitersOf(t, m) == if m == l then WaitersOf(s, m) - {w} else WaitersOf(s, m);
    assert HoldersOf(t, m) == if m == l then {(w, l)} else HoldersOf(s, m);
  }

  lemma UnrefPasses<P, L>(s: Sys<P, L>, l: L, m: L)
    requires Inv(s) && Legal(s, Unreferenced(l)) && WaitersOf(s, l) != {} && m in s.counts
    ensures s.counts[l] > 0 && LockOk(Unref(s, l), m)
  {
    UnrefHandsOver(s, l);
    OneHolder(s, l, s.current.value);
    assert LockOk(s, m);
    PassedOn(s, Unref(s, l), l, s.current.value, Waker(s, l).value, m);
  }

  lemma UnrefKeepsPlaces<P, L>(s: Sys<P, L>, l: L)
    requires Inv(s) && Legal(s, Unreferenced(l))
    ensures s.counts[l] > 0 && PlacesOk(Unref(s, l)) && Unref(s, l).counts.Keys == s.counts.Keys
  {
    UnrefHandsOver(s, l);
  }

  lemma UnrefKeepsInv<P, L>(s: Sys<P, L>, l: L)
    requires Inv(s) && Legal(s, Unreferenced(l))
    ensures s.counts[l] > 0 && Inv(Unref(s, l))
  {
    UnrefKeepsPlaces(s, l);
    forall m | m in Unref(s, l).counts ensures LockOk(Unref(s, l), m) {
      if WaitersOf(s, l) == {} { UnrefLast(s, l, m); } else { UnrefPasses(s, l, m); }
    }
  }

  // ----- Runs -----

  lemma NextKeepsInv<P, L>(s: Sys<P, L>, e: Event<P, L>)
    requires Inv(s) && Legal(s, e)
    ensures Inv(Next(s, e))
  {
    match e
    case Created(fails) => CreateKeepsInv(s, fails);
    case Started(p) => LocksUntouched(s, s.(current := Some(p)));
    case Slept(p) => SleepKeepsInv(s, p);
    case Woken(p) => WakeupKeepsInv(s, p);
    case Killed(p) => KillKeepsInv(s, p);
    case Exited => ExitKeepsInv(s);
    case Switched => SwitchKeepsInv(s);
    case Referenced(l) => RefKeepsInv(s, l);
    case Unreferenced(l) => UnrefKeepsInv(s, l);
  }

  ghost predicate IsRun<P, L>(run: seq<Sys<P, L>>, events: seq<Event<P, L>>) {
    && |run| == |events| + 1
    && forall i :: 0 <= i < |events| ==> StepOf(run[i], events[i], run[i + 1])
  }

  ghost predicate StepOf<P, L>(s: Sys<P, L>, e: Event<P, L>, t: Sys<P, L>) {
    Inv(s) ==> Legal(s, e) && t == Next(s, e)
  }

  /** In every interleaving the invariant holds, and the records are those that the pool was created with. */
  lemma {:induction false} RunKeepsInv<P, L>(run: seq<Sys<P, L>>, events: seq<Event<P, L>>, n: nat)
    requires IsRun(run, events) && Inv(run[0]) && n < |run|
    ensures Inv(run[n]) && Records(run[n]) == Records(run[0])
  {
    if n > 0 {
      RunKeepsInv(run, events, n - 1);
      assert StepOf(run[n - 1], events[n - 1], run[n]);
      NextKeepsInv(run[n - 1], events[n - 1]);
      NextKeepsRecords(run[n - 1], events[n - 1]);
    }
  }

  /** In every interleaving at most one process is between lock_ref and lock_unref, and the counter is exact. */
  lemma MutualExclusion<P, L>(run: seq<Sys<P, L>>, events: seq<Event<P, L>>, n: nat, p: P, q: P, l: L)
    requires IsRun(run, events) && Inv(run[0]) && n < |run|
    requires (p, l) in run[n].holds && (q, l) in run[n].holds
    ensures p == q && l in run[n].counts && run[n].counts[l] == 1 + |WaitersOf(run[n], l)| < 0x100
    ensures p !in run[n].unused && forall w :: w in WaitersOf(run[n], l) ==> w in run[n].running
  {
    var s := run[n];
    RunKeepsInv(run, events, n);
    Parts(s);
    OneHolder(s, l, p);
    assert (q, l) in HoldersOf(s, l);
    SetOfSeq(s.running, WaitersOf(s, l));
  }

  /**
   What the file says about dying processes is not so: proc_kill lets go of a lock that the process waits
   for, not of one that it holds. The count of that lock still includes the dead holder, whoever waits goes on
   waiting, and no live process holds it.
   */
  lemma DyingHolderKeepsLock<P, L>(s: Sys<P, L>, p: P, l: L)
    requires Inv(s) && s.Live(p) && p !in s.waits && (p, l) in s.holds
    ensures var t := Kill(s, p);
      && t.counts[l] == 1 + |WaitersOf(s, l)| && WaitersOf(t, l) == WaitersOf(s, l)
      && HoldersOf(t, l) == {(p, l)} && !t.Live(p)
  {
    OneHolder(s, l, p);
    KilledIsGone(s, p);
    SameLocks(s, Kill(s, p), l);
  }

  lemma SameLocks<P, L>(s: Sys<P, L>, t: Sys<P, L>, l: L)
    requires t.waits == s.waits && t.holds == s.holds
    ensures WaitersOf(t, l) == WaitersOf(s, l) && HoldersOf(t, l) == HoldersOf(s, l)
  {
  }

  /** If the holder exits, the next process to reference the lock waits as well. */
  lemma ExitingHolderKeepsLock<P, L>(s: Sys<P, L>, l: L)
    requires Inv(s) && s.current.Some? && s.current.value !in s.waits && (s.current.value, l) in s.holds
    ensures var t := Exit(s);
      && t.counts[l] == 1 + |WaitersOf(s, l)| && WaitersOf(t, l) == WaitersOf(s, l)
      && HoldersOf(t, l) == {(s.current.value, l)} && !t.Live(s.current.value)
      && (|s.running| >= 2 ==> t.current.Some? && t.current.value in Ref(t, l).waits)
  {
    var p := s.current.value;
    DyingHolderKeepsLock(s, p, l);
    CountBound(s, l);
    if |s.running| >= 2 { ExitPassesOn(s); }
  }

  /** If the walk finds another process than the one that is killed, that one holds the lock beside its holder. */
  lemma KilledWaiterBreaksExclusion<P, L>(s: Sys<P, L>, p: P)
    requires Inv(s) && p in s.waits && s.current.Some? && Waker(s, s.waits[p]) != Some(p)
    ensures var l, t, w := s.waits[p], Kill(s, p), Waker(s, s.waits[p]);
      w.Some? && w.value != p && HoldersOf(t, l) == HoldersOf(s, l) + {(w.value, l)} && HoldersOf(s, l) != {}
      && |HoldersOf(t, l)| == if (w.value, l) in s.holds then 1 else 2
  {
    var l := s.waits[p];
    WaiterCounts(s, l, p);
    WakerExists(s, l);
    assert LockOk(s, l);
    var x := (Waker(s, l).value, l);
    if x in s.holds { OneHolder(s, l, x.0); }
    assert HoldersOf(Kill(s, p), l) == HoldersOf(s, l) + {x};
  }

  /** Process 1 runs and holds lock 0; 2 and 3 wait for it. */
  ghost function TwoWaiters(): Sys<nat, nat> {
    Sys([], [1, 2, 3], [], Some(1), {1, 2, 3}, map[2 := 0, 3 := 0], map[0 := 3], {(1, 0)})
  }

  lemma TwoWaitersInv()
    ensures Inv(TwoWaiters()) && WaitersOf(TwoWaiters(), 0) == {2, 3} && HoldersOf(TwoWaiters(), 0) == {(1, 0)}
  {
    var s := TwoWaiters();
    assert PlacesOk(s) by {
      assert s.All() == [1, 2, 3];
    }
    assert WaitersOf(s, 0) == {2, 3} && HoldersOf(s, 0) == {(1, 0)};
    assert LockOk(s, 0);
  }

  /** If 3 is killed, the walk finds 2. */
  lemma KilledWaiterExample()
    ensures Inv(TwoWaiters()) && HoldersOf(Kill(TwoWaiters(), 3), 0) == {(1, 0), (2, 0)}
  {
    TwoWaitersInv();
    SecondIsFound();
    KilledWaiterBreaksExclusion(TwoWaiters(), 3);
  }

  lemma SecondIsFound()
    ensures Waker(TwoWaiters(), 0) == Some(2)
  {
    var s := TwoWaiters();
    assert Walk(s.running, s.waits, 0, 0, 3) == Walk(s.running, s.waits, 0, 1, 2) == Some(1);
  }

  lemma InitialInv<P, L>(s: Sys<P, L>)
    requires Distinct(s.unused) && |s.unused| <= 254 && s.running == [] && s.sleeping == [] && s.current.None?
    requires s.waits == map[] && s.holds == {} && forall l :: l in s.counts ==> s.counts[l] == 0
    ensures Inv(s)
  {
    assert s.All() == s.unused;
    forall l | l in s.counts ensures LockOk(s, l) {
      assert WaitersOf(s, l) == {} && HoldersOf(s, l) == {};
    }
  }

  // ----- Who runs next -----

  /** When the current process goes to sleep, its successor in the ring runs. */
  lemma SleepPassesOn<P, L>(s: Sys<P, L>, p: P)
    requires Inv(s) && s.current == Some(p) && |s.running| >= 2 && p !in s.waits
    ensures var t := Sleep(s, p);
      t.current == Some(Successor(s.running, p)) && t.current.value in t.running && p in t.sleeping && p !in t.running
  {
    Parts(s);
    SuccessorOther(s.running, p);
    WithoutMembers(s.running, p);
  }

  /** When the current process exits, its successor in the ring runs, although proc_current first steps back. */
  lemma ExitPassesOn<P, L>(s: Sys<P, L>)
    requires Inv(s) && s.current.Some? && |s.running| >= 2
    ensures Exit(s).current == Some(Successor(s.running, s.current.value))
  {
    Parts(s);
    StepBackAndOn(s.running, s.current.value);
  }

  /** Behind the predecessor of an element that is removed is what was behind the element. */
  lemma StepBackAndOn<P>(r: seq<P>, p: P)
    requires Distinct(r) && p in r && |r| >= 2
    ensures var back := r[Pred(IndexOf(r, p), |r|)];
      back in Without(r, p) && Successor(Without(r, p), back) == Successor(r, p)
  {
    var k, n := IndexOf(r, p), |r|;
    var rest := Without(r, p);
    WithoutMembers(r, p);
    IndexUnique(r, k);
    var back := if k == 0 then n - 2 else k - 1;
    assert rest[back] == r[Pred(k, n)];
    IndexUnique(rest, back);
    assert rest[Succ(back, n - 1)] == r[Succ(k, n)];
  }

  /** The state after n switches. */
  ghost function Switches<P, L>(s: Sys<P, L>, n: nat): Sys<P, L>
    requires s.current.Some? && s.current.value in s.running
    ensures var t := Switches(s, n); t.current.Some? && t.current.value in t.running && t.running == s.running
  {
    if n == 0 then s else Switch(Switches(s, n - 1))
  }

  /** The place in the ring after i of at most n switches. */
  function Turn(k: nat, i: nat, n: nat): (r: nat)
    requires k < n && i <= n
    ensures r < n
  {
    if i == n then k else Ahead(k, i, n)
  }

  lemma {:induction false} SwitchesAhead<P, L>(s: Sys<P, L>, k: nat, i: nat)
    requires k < |s.running| && s.current == Some(s.running[k]) && Distinct(s.running) && i <= |s.running|
    ensures Switches(s, i).current == Some(s.running[Turn(k, i, |s.running|)])
  {
    if i > 0 {
      SwitchesAhead(s, k, i - 1);
      IndexUnique(s.running, Turn(k, i - 1, |s.running|));
      NextTurn(k, i, |s.running|);
    }
  }

  lemma NextTurn(k: nat, i: nat, n: nat)
    requires k < n && 1 <= i <= n
    ensures Succ(Turn(k, i - 1, n), n) == Turn(k, i, n)
  {
  }

  lemma EveryoneRuns<P, L>(s: Sys<P, L>, k: nat, p: P) returns (i: nat)
    requires k < |s.running| && s.current == Some(s.running[k]) && Distinct(s.running) && p in s.running
    ensures 1 <= i <= |s.running| && Switches(s, i).current == Some(p)
  {
    var n, j := |s.running|, IndexOf(s.running, p);
    i := if j > k then j - k else j + n - k;
    SwitchesAhead(s, k, i);
    assert Turn(k, i, n) == j;
  }

  lemma NobodyRunsTwice<P, L>(s: Sys<P, L>, k: nat, i: nat, j: nat)
    requires k < |s.running| && s.current == Some(s.running[k]) && Distinct(s.running) && 1 <= i < j <= |s.running|
    ensures Switches(s, i).current != Switches(s, j).current
  {
    var x, y := Turn(k, i, |s.running|), Turn(k, j, |s.running|);
    SwitchesAhead(s, k, i);
    SwitchesAhead(s, k, j);
    assert x != y;
    var lo, hi := if x < y then x else y, if x < y then y else x;
    assert s.running[lo] != s.running[hi];
  }

  /** As many switches as there are processes in the ring run each of them exactly once. */
  lemma RoundRobin<P, L>(s: Sys<P, L>, p: P)
    requires s.current.Some? && s.current.value in s.running && Distinct(s.running) && p in s.running
    ensures exists i :: 1 <= i <= |s.running| && Switches(s, i).current == Some(p)
    ensures forall i, j :: 1 <= i < j <= |s.running| ==> Switches(s, i).current != Switches(s, j).current
  {
    var k := IndexOf(s.running, s.current.value);
    var i := EveryoneRuns(s, k, p);
    forall i, j | 1 <= i < j <= |s.running| ensures Switches(s, i).current != Switches(s, j).current {
      NobodyRunsTwice(s, k, i, j);
    }
  }
}
