/**
 When a count of references wraps around in a run: the tables of all processes together need 256 entries, and
 with so many a run that does nothing but look up one block gets there.
 */
module CacheWraps {
  import opened Common
  import opened Queue
  import opened Cache
  import opened CacheSteps
  import opened CacheContent
  import opened CacheUsers

  const PROC_MAX := 16
  const BUFS_PER_PROC := 32

  /** The entries of all tables. */
  function Slots(tables: seq<Table>): nat {
    if tables == [] then 0 else Slots(tables[..|tables| - 1]) + |tables[|tables| - 1]|
  }

  lemma {:induction false} CountFits(t: Table, e: Option<nat>)
    ensures CountIn(t, e) <= |t|
    ensures e.None? && EmptyTable(t) ==> CountIn(t, e) == |t|
  {
    if t != [] { CountFits(t[..|t| - 1], e); }
  }

  lemma {:induction false} EntriesFit(tables: seq<Table>, e: Option<nat>)
    ensures Entries(tables, e) <= Slots(tables)
    ensures e.None? && (forall p :: 0 <= p < |tables| ==> EmptyTable(tables[p])) ==> Entries(tables, e) == Slots(tables)
  {
    if tables != [] {
      EntriesFit(tables[..|tables| - 1], e);
      CountFits(tables[|tables| - 1], e);
    }
  }

  // ----- Too few entries -----

  ghost predicate SameShape(a: seq<Table>, b: seq<Table>) {
    |a| == |b| && forall p :: 0 <= p < |a| ==> |a[p]| == |b[p]|
  }

  lemma {:induction false} SameSlots(a: seq<Table>, b: seq<Table>)
    requires SameShape(a, b)
    ensures Slots(a) == Slots(b)
  {
    if a != [] { SameSlots(a[..|a| - 1], b[..|b| - 1]); }
  }

  lemma {:induction false} RunKeepsShape(run: seq<State>, events: seq<Event>, n: nat)
    requires IsRun(run, events) && Inv(run[0]) && n < |run|
    ensures SameShape(run[0].tables, run[n].tables)
  {
    if n > 0 {
      RunKeepsShape(run, events, n - 1);
      RunKeepsInv(run, events, n - 1);
      assert StepOf(run[n - 1], events[n - 1], run[n]);
      NextKeepsShape(run[n - 1], events[n - 1]);
    }
  }

  lemma NextKeepsShape(s: State, e: Event)
    requires Inv(s) && Legal(s, e)
    ensures SameShape(s.tables, Next(s, e).tables)
  {
  }

  /** With fewer than 256 entries no count ever wraps around. */
  lemma FewSlotsNeverWrap(run: seq<State>, events: seq<Event>, n: nat)
    requires IsRun(run, events) && Inv(run[0]) && n < |run| && Slots(run[0].tables) < 0x100
    ensures NobodyWrapped(run[n])
  {
    RunKeepsShape(run, events, n);
    SameSlots(run[0].tables, run[n].tables);
    forall b | 0 <= b < |run[n].bufs| ensures !Wrapped(run[n], b) {
      EntriesFit(run[n].tables, Some(b));
    }
  }

  // ----- Enough entries -----

  lemma {:induction false} FreeEntry(t: Table)
    requires CountIn(t, None) > 0
    ensures None in t
  {
    if t[|t| - 1] != None { FreeEntry(t[..|t| - 1]); }
  }

  lemma {:induction false} FreeTable(tables: seq<Table>) returns (p: nat)
    requires Entries(tables, None) > 0
    ensures HasRoom(tables, p)
  {
    p := |tables| - 1;
    if CountIn(tables[p], None) > 0 {
      FreeEntry(tables[p]);
    } else {
      p := FreeTable(tables[..p]);
    }
  }

  /** t is like s with n more references to b. */
  ghost predicate MoreUsers(s: State, t: State, b: nat, n: nat) {
    && Inv(t) && Listed(t, b) && b < |s.bufs| && t.bufs[b] == s.bufs[b].(refcnt := t.bufs[b].refcnt)
    && Refs(t.tables, b) == Refs(s.tables, b) + n && Entries(t.tables, None) == Entries(s.tables, None) - n
  }

  lemma OneMoreUser(s: State, b: nat) returns (e: Event)
    requires Inv(s) && Listed(s, b) && Entries(s.tables, None) > 0
    ensures Legal(s, e) && e.Reused? && MoreUsers(s, Next(s, e), b, 1)
  {
    var p := FreeTable(s.tables);
    var o, blk := s.bufs[b].obj, s.bufs[b].blk;
    FoundByBlock(s, b);
    e := Reused(p, o, blk);
    ReuseKeepsInv(s, p, o, blk);
    assert RefsOk(s, b);
    Registers(s, p, b, b);
    EntryUpdate(s.tables, p, EntryOf(s.tables[p], None).value, Some(b), None);
    var t := Next(s, e);
    ReuseKeepsPlaces(s, p, o, blk);
    SameListed(s, t, b);
  }

  /** Looking up a cached block n times. */
  lemma {:induction false} ManyUsers(s: State, b: nat, n: nat) returns (run: seq<State>, events: seq<Event>)
    requires Inv(s) && Listed(s, b) && n <= Entries(s.tables, None)
    ensures IsRun(run, events) && run[0] == s && MoreUsers(s, run[|events|], b, n)
  {
    run, events := [s], [];
    if n > 0 {
      run, events := ManyUsers(s, b, n - 1);
      var t := run[|events|];
      var e := OneMoreUser(t, b);
      assert StepOf(t, e, Next(t, e));
      run, events := run + [Next(t, e)], events + [e];
    }
  }

  /** A run to a buffer with 256 users: its count is 0, so that a cleanup takes it away from all of them. */
  lemma Reach256Users(s: State) returns (run: seq<State>, events: seq<Event>, b: nat)
    requires IsFirst(s) && s.bufs != [] && s.objs != [] && Slots(s.tables) >= 0x100
    ensures IsRun(run, events) && run[0] == s && b < |run[|events|].bufs|
    ensures var t := run[|events|];
      && Inv(t) && Wrapped(t, b) && Refs(t.tables, b) == 0x100 && t.bufs[b].refcnt == 0
      && !UsersKept(t, Free(t, b))
  {
    FirstState(s);
    var p, t := FirstUser(s);
    b := |s.bufs| - 1;
    run, events := ManyUsers(t, b, 0xff);
    var u, e := run[|events|], Created(p, 0, 0, false);
    assert StepOf(s, e, t);
    run, events := [s] + run, [e] + events;
    CountWraps(u, b);
    FreeKeepsUsersExactly(u, b);
  }

  /** Somebody creates the first block of the first object. */
  lemma FirstUser(s: State) returns (p: nat, t: State)
    requires IsFirst(s) && s.bufs != [] && s.objs != [] && Slots(s.tables) >= 0x100
    ensures Inv(s) && Legal(s, Created(p, 0, 0, false)) && t == Next(s, Created(p, 0, 0, false))
    ensures Inv(t) && Listed(t, |s.bufs| - 1) && !t.bufs[|s.bufs| - 1].dirty
    ensures Refs(t.tables, |s.bufs| - 1) == 1 && Entries(t.tables, None) >= 0xff
  {
    FirstState(s);
    EntriesFit(s.tables, None);
    p := FreeTable(s.tables);
    var b := |s.bufs| - 1;
    assert EmptyObj(s.objs[0]);
    t := Create(s, p, 0, 0, false);
    CreateKeepsInv(s, p, 0, 0, false);
    CreateKeepsPlaces(s, p, 0, 0, false);
    NoRefs(s.tables, b);
    Registers(s, p, b, b);
    EntryUpdate(s.tables, p, EntryOf(s.tables[p], None).value, Some(b), None);
  }

  ghost predicate EndsWrapped(run: seq<State>, events: seq<Event>, b: nat) {
    IsRun(run, events) && b < |run[|events|].bufs| && Wrapped(run[|events|], b)
  }

  /** Some run from s leads to a state in which a clean buffer is taken for idle in spite of its users. */
  ghost predicate CanWrap(s: State) {
    exists run: seq<State>, events: seq<Event>, b: nat :: EndsWrapped(run, events, b) && run[0] == s
  }

  /** Counts can wrap around exactly if the tables have 256 entries in all. */
  lemma WhenCountsWrap(s: State)
    requires IsFirst(s)
    ensures CanWrap(s) <==> s.bufs != [] && s.objs != [] && Slots(s.tables) >= 0x100
  {
    FirstState(s);
    if CanWrap(s) {
      var run: seq<State>, events: seq<Event>, b: nat :| EndsWrapped(run, events, b) && run[0] == s;
      RunKeepsInv(run, events, |events|);
      if Slots(s.tables) < 0x100 { FewSlotsNeverWrap(run, events, |events|); }
    }
    if s.bufs != [] && s.objs != [] && Slots(s.tables) >= 0x100 {
      var run, events, b := Reach256Users(s);
      assert EndsWrapped(run, events, b);
    }
  }

  lemma {:induction false} SlotsOfConfiguration(tables: seq<Table>)
    requires forall p :: 0 <= p < |tables| ==> |tables[p]| == BUFS_PER_PROC
    ensures Slots(tables) == BUFS_PER_PROC * |tables|
  {
    if tables != [] { SlotsOfConfiguration(tables[..|tables| - 1]); }
  }

  /** Half of the processes of the documented configuration are enough. */
  lemma ConfiguredCountsWrap(s: State)
    requires IsFirst(s) && s.bufs != [] && s.objs != [] && |s.tables| == PROC_MAX
    requires forall p :: 0 <= p < |s.tables| ==> |s.tables[p]| == BUFS_PER_PROC
    ensures CanWrap(s)
  {
    SlotsOfConfiguration(s.tables);
    WhenCountsWrap(s);
  }
}
