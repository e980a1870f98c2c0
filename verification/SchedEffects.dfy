/**
 What each step of Sched does to lists, locks and the current process, and what that means for the processes
 that are between lock_ref and lock_unref in a run.
 */
module SchedEffects {
  import opened Common
  import opened Queue
  import opened Sched

  /** Everything but the locks is as before. */
  ghost predicate SamePlaces<P, L>(s: Sys<P, L>, t: Sys<P, L>) {
    && t.unused == s.unused && t.running == s.running && t.sleeping == s.sleeping
    && t.current == s.current && t.up == s.up
  }

  ghost predicate SameLocks<P, L>(s: Sys<P, L>, t: Sys<P, L>) {
    t.counts == s.counts && t.waits == s.waits && t.holds == s.holds
  }

  // ----- Locks -----

  /** lock_ref counts the caller; it holds the lock exactly if nobody did, and waits for it otherwise. */
  lemma RefTakesOrWaits<P, L>(s: Sys<P, L>, l: L)
    requires Inv(s) && Legal(s, Referenced(l))
    ensures HoldersOf(s, l) == {} <==> s.counts[l] == 0
    ensures var t, p := Next(s, Referenced(l)), s.current.value;
      && SamePlaces(s, t) && t.counts == s.counts[l := s.counts[l] + 1] && t.counts[l] < 0x100
      && if HoldersOf(s, l) == {} then t.holds == s.holds + {(p, l)} && t.waits == s.waits
         else t.waits == s.waits[p := l] && t.holds == s.holds
  {
    CountBound(s, l);
    assert LockOk(s, l);
    if HoldersOf(s, l) != {} {
      var h :| h in HoldersOf(s, l);
      OneHolder(s, l, h.0);
    }
  }

  /** Between lock_ref and lock_unref: p holds the lock or waits for it. */
  ghost predicate Inside<P, L>(s: Sys<P, L>, p: P, l: L) {
    (p, l) in s.holds || (p in s.waits && s.waits[p] == l)
  }

  /** p gives the lock back or dies. */
  ghost predicate Leaves<P, L>(s: Sys<P, L>, e: Event<P, L>, p: P, l: L) {
    || (e == Unreferenced(l) && s.current == Some(p))
    || e == Killed(p) || (e == Exited && s.current == Some(p))
  }

  lemma UnrefStaysInside<P, L>(s: Sys<P, L>, m: L, p: P, l: L)
    requires Inv(s) && Legal(s, Unreferenced(m)) && Inside(s, p, l) && !(m == l && s.current == Some(p))
    ensures Inside(Next(s, Unreferenced(m)), p, l)
    ensures (p, l) in s.holds ==> (p, l) in Next(s, Unreferenced(m)).holds
  {
    UnrefHandsOver(s, m);
  }

  /** A death that keeps the invariant lets go of at most the victim's wait. */
  lemma DeathAndLocks<P, L>(s: Sys<P, L>, p: P)
    requires Inv(s) && s.Live(p) && (p in s.waits ==> s.current.Some?) && DiesWell(s, p)
    ensures var t := Kill(s, p);
      && t.holds == s.holds
      && if p in s.waits then
           s.waits[p] in s.counts && s.counts[s.waits[p]] > 0
           && t.counts == s.counts[s.waits[p] := s.counts[s.waits[p]] - 1] && t.waits == s.waits - {p}
         else
           t.counts == s.counts && t.waits == s.waits
  {
    if p in s.waits { WaiterCounts(s, s.waits[p], p); }
  }

  lemma StaysInside<P, L>(s: Sys<P, L>, e: Event<P, L>, p: P, l: L)
    requires Inv(s) && Legal(s, e) && Inside(s, p, l) && !Leaves(s, e, p, l)
    ensures Inside(Next(s, e), p, l)
    ensures (p, l) in s.holds ==> (p, l) in Next(s, e).holds
  {
    match e
    case Killed(q) => DeathAndLocks(s, q);
    case Exited => DeathAndLocks(s, s.current.value);
    case Unreferenced(m) => UnrefStaysInside(s, m, p, l);
    case Referenced(m) => RefTakesOrWaits(s, m);
    case _ =>
  }

  /** From a lock_ref until the process gives the lock back or dies, it holds the lock or waits for it. */
  lemma {:induction false} InsideUntilUnref<P, L>(
    run: seq<Sys<P, L>>, events: seq<Event<P, L>>, i: nat, n: nat, p: P, l: L)
    requires IsRun(run, events) && Inv(run[0]) && i < n < |run|
    requires events[i] == Referenced(l) && run[i].current == Some(p)
    requires forall j :: i < j < n ==> !Leaves(run[j], events[j], p, l)
    ensures Inside(run[n], p, l)
  {
    RunKeepsInv(run, events, n - 1);
    assert StepOf(run[n - 1], events[n - 1], run[n]);
    if n == i + 1 {
      RefTakesOrWaits(run[i], l);
    } else {
      InsideUntilUnref(run, events, i, n - 1, p, l);
      StaysInside(run[n - 1], events[n - 1], p, l);
    }
  }

  lemma {:induction false} HolderStays<P, L>(
    run: seq<Sys<P, L>>, events: seq<Event<P, L>>, i: nat, n: nat, p: P, l: L)
    requires IsRun(run, events) && Inv(run[0]) && i <= n < |run| && (p, l) in run[i].holds
    requires forall j :: i <= j < n ==> !Leaves(run[j], events[j], p, l)
    ensures (p, l) in run[n].holds
  {
    if i < n {
      HolderStays(run, events, i, n - 1, p, l);
      RunKeepsInv(run, events, n - 1);
      assert StepOf(run[n - 1], events[n - 1], run[n]);
      StaysInside(run[n - 1], events[n - 1], p, l);
    }
  }

  /** Until the holder gives the lock back or dies, nobody else comes back from lock_ref. */
  lemma HolderKeepsOthersOut<P, L>(
    run: seq<Sys<P, L>>, events: seq<Event<P, L>>, i: nat, n: nat, p: P, l: L)
    requires IsRun(run, events) && Inv(run[0]) && i <= n < |run| && (p, l) in run[i].holds
    requires forall j :: i <= j < n ==> !Leaves(run[j], events[j], p, l)
    ensures Inv(run[n]) && HoldersOf(run[n], l) == {(p, l)}
  {
    RunKeepsInv(run, events, n);
    HolderStays(run, events, i, n, p, l);
    OneHolder(run[n], l, p);
  }

  /** Who finds an open lock holds it alone until it gives it back or dies, whatever the others do. */
  lemma FirstComerHoldsAlone<P, L>(run: seq<Sys<P, L>>, events: seq<Event<P, L>>, i: nat, n: nat, p: P, l: L)
    requires IsRun(run, events) && Inv(run[0]) && i < n < |run|
    requires events[i] == Referenced(l) && run[i].current == Some(p) && HoldersOf(run[i], l) == {}
    requires forall j :: i < j < n ==> !Leaves(run[j], events[j], p, l)
    ensures HoldersOf(run[n], l) == {(p, l)}
  {
    RunKeepsInv(run, events, i);
    assert StepOf(run[i], events[i], run[i + 1]);
    RefTakesOrWaits(run[i], l);
    HolderKeepsOthersOut(run, events, i + 1, n, p, l);
  }

  // ----- Who is let loose -----

  /** i places behind place k of the ring somebody waits for the lock. */
  ghost predicate WaitsAhead<P, L>(s: Sys<P, L>, l: L, k: nat, i: nat)
    requires k < |s.running| && i < |s.running|
  {
    var q := s.running[Ahead(k, i, |s.running|)]; q in s.waits && s.waits[q] == l
  }

  lemma {:induction false} WalkIsFirst<P, L>(s: Sys<P, L>, l: L, k: nat, n: nat, i: nat)
    requires k < |s.running| && i < n <= |s.running|
    requires WaitsAhead(s, l, k, i) && forall j :: 0 <= j < i ==> !WaitsAhead(s, l, k, j)
    ensures Walk(s.running, s.waits, l, k, n) == Some(Ahead(k, i, |s.running|))
    decreases n
  {
    if i > 0 {
      assert !WaitsAhead(s, l, k, 0);
      var k1 := Succ(k, |s.running|);
      assert Ahead(k1, i - 1, |s.running|) == Ahead(k, i, |s.running|);
      forall j | 0 <= j < i - 1 ensures !WaitsAhead(s, l, k1, j) {
        assert !WaitsAhead(s, l, k, j + 1) && Ahead(k1, j, |s.running|) == Ahead(k, j + 1, |s.running|);
      }
      WalkIsFirst(s, l, k1, n - 1, i - 1);
    }
  }

  /** lock_unref lets the first process loose that waits for the lock, from the current one on around the ring. */
  lemma FirstWaiterIsLetLoose<P, L>(s: Sys<P, L>, l: L, k: nat, i: nat)
    requires Inv(s) && Legal(s, Unreferenced(l)) && k < |s.running| && s.running[k] == s.current.value
    requires i < |s.running| && WaitsAhead(s, l, k, i) && forall j :: 0 <= j < i ==> !WaitsAhead(s, l, k, j)
    ensures var t, w := Next(s, Unreferenced(l)), s.running[Ahead(k, i, |s.running|)];
      && SamePlaces(s, t) && t.waits == s.waits - {w} && t.holds == s.holds - {(s.current.value, l)} + {(w, l)}
      && s.counts[l] > 0 && t.counts == s.counts[l := s.counts[l] - 1]
  {
    Parts(s);
    IndexUnique(s.running, k);
    WalkIsFirst(s, l, k, |s.running|, i);
    assert s.running[Ahead(k, i, |s.running|)] in WaitersOf(s, l);
    UnrefHandsOver(s, l);
  }

  /** Without anybody waiting the lock is open again. */
  lemma LastOpensLock<P, L>(s: Sys<P, L>, l: L)
    requires Inv(s) && Legal(s, Unreferenced(l)) && WaitersOf(s, l) == {}
    ensures var t := Next(s, Unreferenced(l));
      && SamePlaces(s, t) && t.waits == s.waits && t.holds == s.holds - {(s.current.value, l)}
      && t.counts == s.counts[l := 0]
  {
    UnrefHandsOver(s, l);
    OneHolder(s, l, s.current.value);
  }

  // ----- Lists -----

  /** q is the next behind p around the ring. */
  ghost predicate IsBehind<P>(ring: seq<P>, p: P, q: P) {
    exists k :: 0 <= k < |ring| && ring[k] == p && q == ring[if k + 1 == |ring| then 0 else k + 1]
  }

  lemma WithoutTakesOut<P>(s: seq<P>, p: P)
    requires p in s
    ensures TakenOut(s, Without(s, p), p) && IsBehind(s, p, Successor(s, p))
  {
    var k := IndexOf(s, p);
    assert s[k] == p && Without(s, p) == s[..k] + s[k + 1..];
  }

  /**
   proc_sleep moves a running process that does not wait for a lock to the front of the sleepers. If it is the
   current one, the next behind it runs, otherwise the current one goes on. Any other process stays where it is.
   */
  lemma SleepMoves<P, L>(s: Sys<P, L>, p: P)
    requires Inv(s) && Legal(s, Slept(p))
    ensures var t := Next(s, Slept(p));
      if p in s.running && p !in s.waits then
        && SameLocks(s, t) && t.unused == s.unused && TakenOut(s.running, t.running, p) && p !in t.running
        && t.sleeping == [p] + s.sleeping
        && if s.current == Some(p) then t.current.Some? && IsBehind(s.running, p, t.current.value)
           else t.current == s.current
      else t == s
  {
    Parts(s);
    if p in s.running {
      WithoutTakesOut(s.running, p);
      WithoutMembers(s.running, p);
    }
  }

  /** proc_wakeup moves a sleeping process to the front of the running ring; the current process goes on. */
  lemma WakeupMoves<P, L>(s: Sys<P, L>, p: P)
    requires Inv(s) && Legal(s, Woken(p))
    ensures var t := Next(s, Woken(p));
      if p in s.sleeping then
        && SameLocks(s, t) && t.unused == s.unused && t.current == s.current
        && t.running == [p] + s.running && TakenOut(s.sleeping, t.sleeping, p) && p !in t.sleeping
      else t == s
  {
    Parts(s);
    if p in s.sleeping {
      WithoutTakesOut(s.sleeping, p);
      WithoutMembers(s.sleeping, p);
    }
  }

  /** proc_create takes the last unused record for a new sleeper, unless there is none or fs_init_proc fails. */
  lemma CreateTakesLast<P, L>(s: Sys<P, L>, fails: bool)
    requires Inv(s)
    ensures var t := Next(s, Created(fails));
      && SameLocks(s, t) && t.running == s.running && t.current == s.current
      && if s.unused == [] || fails then t.unused == s.unused && t.sleeping == s.sleeping
         else t.sleeping != [] && s.unused == t.unused + [t.sleeping[0]] && t.sleeping[1..] == s.sleeping
  {
  }

  lemma SwitchMovesOn<P, L>(s: Sys<P, L>)
    requires Inv(s) && s.current.Some?
    ensures var t := Next(s, Switched);
      SameLocks(s, t) && t == s.(current := t.current)
      && t.current.Some? && IsBehind(s.running, s.current.value, t.current.value)
  {
    WithoutTakesOut(s.running, s.current.value);
  }

  /** A process that is killed leaves the list that it is on for the pool; all others and the current one stay. */
  lemma KillReturnsRecord<P, L>(s: Sys<P, L>, p: P)
    requires Inv(s) && Legal(s, Killed(p))
    ensures var t := Next(s, Killed(p));
      && t.unused == s.unused + [p] && t.current == s.current
      && if p in s.running then TakenOut(s.running, t.running, p) && t.sleeping == s.sleeping
         else t.running == s.running && TakenOut(s.sleeping, t.sleeping, p)
  {
    Parts(s);
    if p in s.running {
      WithoutTakesOut(s.running, p);
    } else {
      WithoutTakesOut(s.sleeping, p);
      assert ([p] + s.running)[0] == p;
      assert RemoveAt([p] + s.running, 0) == s.running;
    }
  }

  /** A process that exits does so as well, and the next behind it runs, if there is one. */
  lemma ExitReturnsRecord<P, L>(s: Sys<P, L>)
    requires Inv(s) && Legal<P, L>(s, Exited)
    ensures var t, p := Next(s, Exited), s.current.value;
      && t.unused == s.unused + [p] && TakenOut(s.running, t.running, p) && t.sleeping == s.sleeping
      && if s.running == [p] then t.current == None
         else t.current.Some? && t.current.value != p && IsBehind(s.running, p, t.current.value)
  {
    var p := s.current.value;
    Parts(s);
    WithoutTakesOut(s.running, p);
    if |s.running| >= 2 {
      ExitPassesOn(s);
      SuccessorOther(s.running, p);
      WithoutMembers(s.running, p);
    }
  }
}
