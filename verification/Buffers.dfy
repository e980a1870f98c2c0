/**
 The buffer cache itself (kern/io/buf.c, kern/io/fs.c, kern/io/syncer.c): lists, records, counters and
 tables, changed in place. A ghost history records every event of the cache.
 */
module Buffers {
  import opened Bytes
  import opened Common
  import opened Queue
  import opened Cache
  import opened CacheSteps
  import opened CacheContent
  import opened CacheUsers
  import opened CacheEffects

  ghost predicate CommitsNothing(s: State, e: Event)
    requires Inv(s) && Legal(s, e)
  {
    match e
    case Dirtied(b) => false
    case Wrote(b) => s.bufs[b].dirty
    case Put(b, _) => !s.bufs[b].dirty
    case _ => true
  }

  lemma EventForClients(s: State, e: Event)
    requires Inv(s) && Legal(s, e) && CommitsNothing(s, e)
    ensures Inv(Next(s, e)) && SameForClients(s, Next(s, e))
  {
    NextKeepsInv(s, e);
    forall q: nat, k: nat | q < |s.objs| ensures Logical(Next(s, e), q, k) == Logical(s, q, k) {
      Transparency(s, e, q, k);
      if e.Wrote? { FoundByBlock(s, e.b); }
    }
  }

  // ----- The cache -----

  class BufferCache {
    const sortReused: bool
    var bufs: seq<Buf>
    var unused: seq<nat>
    var objs: seq<Obj>
    var tables: seq<Table>
    var inUse: int                   // buffers_in_use
    var restart: bool                // syncer_restart
    ghost var run: seq<State>
    ghost var events: seq<Event>

    ghost function System(): State
      reads this
    {
      State(sortReused, bufs, unused, objs, tables, inUse)
    }

    /** Everything that has happened so far is a run, and it has led here. */
    ghost predicate Valid()
      reads this
    {
      Inv(System()) && IsRun(run, events) && Inv(run[0]) && run[|events|] == System()
    }

    /** buf_init, for objects without buffers and processes without references. */
    constructor (sortReused: bool, bufs: seq<Buf>, objs: seq<Obj>, tables: seq<Table>)
      requires forall o :: 0 <= o < |objs| ==> EmptyObj(objs[o])
      requires forall p :: 0 <= p < |tables| ==> EmptyTable(tables[p])
      ensures Valid() && IsFirst(System()) && this.bufs == bufs && this.objs == objs && this.tables == tables
    {
      this.sortReused, this.bufs, this.objs, this.tables := sortReused, bufs, objs, tables;
      unused, inUse, restart := seq(|bufs|, i => i), 0, false;
      new;
      run, events := [System()], [];
      FirstState(System());
    }

    /** An event is over: the fields are what it makes of the last recorded state. */
    ghost method Did(e: Event)
      requires IsRun(run, events) && Inv(run[0]) && Inv(run[|events|])
      requires Legal(run[|events|], e) && System() == Next(run[|events|], e)
      modifies `run, `events
      ensures Valid() && run == old(run) + [System()] && events == old(events) + [e]
    {
      var s := run[|events|];
      NextKeepsInv(s, e);
      run, events := run + [System()], events + [e];
      assert StepOf(s, e, System());
    }

    /** bfree. Only diagnostic builds refuse a referenced buffer, or assert that it is not dirty. */
    method BFree(b: nat, diagnostics: bool) returns (err: Error)
      requires Places(System()) && Listed(System(), b) && (diagnostics ==> !bufs[b].dirty)
      modifies `objs, `unused, `inUse, `run, `events
      ensures err == if diagnostics && old(bufs)[b].refcnt != 0 then EINVAL else ENONE
      ensures System() == if err == EINVAL then old(System()) else Free(old(System()), b)
      ensures Places(System())
      ensures SameForClients(old(System()), System()) <==> err == EINVAL || NothingToLose(old(System()), b)
      ensures old(Inv(System())) ==> (UsersKept(old(System()), System()) <==> err == EINVAL || Refs(tables, b) == 0)
      ensures old(Inv(System())) ==>
        (Inv(System()) <==> err == EINVAL || (Refs(tables, b) == 0 && !old(bufs)[b].dirty))
      ensures if old(Valid()) then Inv(System()) ==> Valid() else run == old(run) && events == old(events)
    {
      ghost var s, valid := System(), Valid();
      if Inv(s) { FreeKeepsUsersExactly(s, b); }
      if diagnostics && bufs[b].refcnt != 0 {
        if Inv(s) { UsersStay(s); }
        return EINVAL;
      }
      FreeForClients(s, b);
      var o := bufs[b].obj;
      objs := objs[o := objs[o].(list := RemoveAt(objs[o].list, IndexOf(objs[o].list, b)))];
      unused := unused + [b];
      inUse := inUse - 1;
      if valid && Refs(tables, b) == 0 && !bufs[b].dirty { Did(Freed(b)); }
      return ENONE;
    }

    /** The search of bcleanup: the first idle buffer of an object. */
    method FirstIdle(o: nat) returns (i: nat)
      requires o < |objs| && InRange(objs[o].list, |bufs|)
      ensures i <= |objs[o].list|
      ensures i < |objs[o].list| ==> !Busy(bufs[objs[o].list[i]])
      ensures i == |objs[o].list| ==> forall j :: 0 <= j < i ==> Busy(bufs[objs[o].list[j]])
    {
      i := 0;
      while i < |objs[o].list|
        invariant i <= |objs[o].list| && forall j :: 0 <= j < i ==> Busy(bufs[objs[o].list[j]])
      {
        var b := objs[o].list[i];
        if bufs[b].refcnt == 0 && !bufs[b].dirty { return; }
        i := i + 1;
      }
    }

    /** One object's list is cut down to its busy buffers; records, tables and all other objects stay. */
    ghost predicate CleanedUp(s: State, o: nat)
      requires o < |s.objs| && InRange(s.objs[o].list, |s.bufs|)
      reads this
    {
      && bufs == s.bufs && tables == s.tables && |objs| == |s.objs|
      && objs == s.objs[o := s.objs[o].(list := Survivors(s.bufs, s.objs[o].list))]
    }

    /** The accounting is right, and no clean buffer of the object has a count that has wrapped around. */
    ghost predicate SafeToClean(o: nat)
      reads this
    {
      Inv(System()) && NoneWrapped(System(), {o})
    }

    /** bcleanup: start again after each buffer that is freed, until none is left to free. */
    method BCleanup(o: nat)
      requires Places(System()) && o < |objs|
      modifies `objs, `unused, `inUse, `run, `events
      ensures Places(System()) && SameForClients(old(System()), System())
      ensures InRange(old(objs[o].list), |old(bufs)|) && CleanedUp(old(System()), o)
      ensures forall b :: b in objs[o].list && b < |bufs| ==> Busy(bufs[b])
      ensures old(Inv(System())) ==> (UsersKept(old(System()), System()) <==> NoneWrapped(old(System()), {o}))
      ensures old(Inv(System())) ==> (Inv(System()) <==> NoneWrapped(old(System()), {o}))
      ensures old(Valid()) && Inv(System()) ==> Valid()
    {
      ghost var s, safe, valid, list := System(), SafeToClean(o), Valid(), objs[o].list;
      ListsInRange(s, o);
      Overwritten(s.objs, o, s.objs[o], s.objs[o]);
      var again := true;
      while again
        invariant Places(System()) && |objs| == |s.objs| && SameForClients(s, System())
        invariant bufs == s.bufs && tables == s.tables && InRange(list, |bufs|)
        invariant objs == s.objs[o := s.objs[o].(list := list)]
        invariant Survivors(bufs, list) == Survivors(s.bufs, s.objs[o].list)
        invariant (safe ==> SafeToClean(o)) && (safe && valid ==> Valid())
        invariant !again ==> forall j :: 0 <= j < |list| ==> Busy(bufs[list[j]])
        decreases |list|, again
      {
        again := false;
        var i := FirstIdle(o);
        if i < |objs[o].list| {
          FreeAt(o, i);
          Overwritten(s.objs, o, s.objs[o].(list := list), s.objs[o].(list := RemoveAt(list, i)));
          list := RemoveAt(list, i);
          again := true;
        }
      }
      AllBusy(bufs, list, |list|);
      assert list[..|list|] == list;
      if Inv(s) { CleanedUpExactly(s, System(), o); }
    }

    /** Frees the idle buffer at place i of a list. */
    method FreeAt(o: nat, i: nat)
      requires Places(System()) && o < |objs|
      requires i < |objs[o].list| && InRange(objs[o].list, |bufs|) && !Busy(bufs[objs[o].list[i]])
      modifies `objs, `unused, `inUse, `run, `events
      ensures Places(System()) && SameForClients(old(System()), System())
      ensures bufs == old(bufs) && tables == old(tables)
      ensures var list := old(objs[o].list);
        && objs == old(objs)[o := old(objs)[o].(list := RemoveAt(list, i))] && InRange(RemoveAt(list, i), |bufs|)
        && Survivors(bufs, RemoveAt(list, i)) == Survivors(bufs, list)
      ensures old(SafeToClean(o)) ==> SafeToClean(o) && (old(Valid()) ==> Valid())
    {
      ghost var s := System();
      assert ListOk(s, o);
      ghost var list := objs[o].list;
      var b := objs[o].list[i];
      IndexUnique(list, i);
      BusyWithout(bufs, list, i, |list|);
      if SafeToClean(o) { IdleIsUnused(s, o, b); }
      var err := BFree(b, false);
      FreeWrapsNone(s, b);
    }

    /** bcleanup_glob */
    method BCleanupGlob()
      requires Places(System())
      modifies `objs, `unused, `inUse, `run, `events
      ensures Places(System()) && SameForClients(old(System()), System()) && bufs == old(bufs) && tables == old(tables)
      ensures |objs| == |old(objs)| && forall o :: 0 <= o < |objs| ==> OnlyBusy(old(System()), o)
      ensures old(Inv(System())) ==> (UsersKept(old(System()), System()) <==> NobodyWrapped(old(System())))
      ensures old(Inv(System())) ==> (Inv(System()) <==> NobodyWrapped(old(System())))
      ensures old(Valid()) && Inv(System()) ==> Valid()
    {
      ghost var s, safe, valid := System(), Inv(System()) && NobodyWrapped(System()), Valid();
      var o := 0;
      while o < |objs|
        invariant 0 <= o <= |objs| == |s.objs| && Places(System()) && SameForClients(s, System())
        invariant bufs == s.bufs && tables == s.tables
        invariant forall q :: 0 <= q < o ==> OnlyBusy(s, q)
        invariant forall q :: o <= q < |objs| ==> objs[q] == s.objs[q]
        invariant (safe ==> Inv(System())) && (safe && valid ==> Valid())
      {
        ListsInRange(s, o);
        label Before:
        if safe { SameWrapped(s, System(), o); }
        BCleanup(o);
        forall q | 0 <= q < o ensures OnlyBusy(s, q) {
          assert old@Before(OnlyBusy(s, q)) && objs[q] == old@Before(objs[q]);
        }
        o := o + 1;
      }
      if Inv(s) { GlobKeepsUsersExactly(s); }
    }

    /** What the loop of bcleanup_glob has done keeps users exactly if no count has wrapped around. */
    lemma GlobKeepsUsersExactly(s: State)
      requires Inv(s) && bufs == s.bufs && tables == s.tables && |objs| == |s.objs|
      requires forall o :: 0 <= o < |objs| ==> OnlyBusy(s, o)
      ensures UsersKept(s, System()) <==> NobodyWrapped(s)
      ensures Inv(System()) ==> NobodyWrapped(s)
    {
      var all := set o: nat | o < |objs| && OnlyBusy(s, o);
      forall o | 0 <= o < |objs| ensures CleanedList(s, System(), o) {
        assert OnlyBusy(s, o);
      }
      CleanupKeepsUsersExactly(s, System(), all);
      assert NoneWrapped(s, all) <==> NobodyWrapped(s);
    }

    /** The object's list holds what was busy on it; all else is as before. */
    ghost predicate OnlyBusy(s: State, o: nat)
      reads this
    {
      && o < |s.objs| == |objs| && InRange(s.objs[o].list, |s.bufs|)
      && objs[o] == s.objs[o].(list := Survivors(s.bufs, s.objs[o].list))
    }

    /** The pop at the head of bcreate, with a cleanup of all objects if the pool is empty. */
    method Refill(o: nat, blk: nat, read: bool)
      requires Valid() && o < |objs| && blk < 0xffff
      requires Cached(System(), o, blk).None? && (read ==> blk < objs[o].size)
      modifies `objs, `unused, `inUse, `run, `events
      ensures Places(System()) && SameForClients(old(System()), System())
      ensures bufs == old(bufs) && tables == old(tables)
      ensures |objs| == |old(objs)| && objs[o] == old(objs)[o].(list := objs[o].list)
      ensures old(unused) != [] ==> System() == old(System())
      ensures if Exhausted(old(System())) then unused == [] else CanEnter(System(), o, blk, read)
      ensures UsersKept(old(System()), System()) <==> !Shaken(old(System()))
      ensures !Shaken(old(System())) ==> Valid()
    {
      ghost var s := System();
      UsersStay(s);
      if unused == [] {
        ListsInRange(s, o);
        BCleanupGlob();
        assert OnlyBusy(s, o);
        StillNotCached(s, System(), o, blk);
        forall q | 0 <= q < |objs| ensures CleanedList(s, System(), q) {
          assert OnlyBusy(s, q);
        }
        Refilled(s, System());
      }
    }

    /** The end of bcreate and obj_io: the last unused record is taken for a block, and read if asked to. */
    method EnterFor(o: nat, blk: nat, read: bool) returns (b: nat)
      requires Places(System()) && CanEnter(System(), o, blk, read)
      modifies `bufs, `objs, `unused, `inUse
      ensures System() == Enter(old(System()), o, blk, read) && b == old(unused)[|old(unused)| - 1]
    {
      ghost var s := System();
      b := unused[|unused| - 1];
      unused := unused[..|unused| - 1];
      bufs := bufs[b := Buf(o, blk, Zeros(objs[o].blksize), 1, false)];
      objs := objs[o := objs[o].(list := if sortReused then objs[o].list + [b] else [b] + objs[o].list)];
      inUse := inUse + 1;
      if read { bufs := bufs[b := bufs[b].(data := OnDisk(objs[o], blk))]; }
      assert bufs == s.bufs[b := NewBuf(s.objs[o], o, blk, read)];
      assert System() == Enter(s, o, blk, read);
    }

    /** A new buffer, entered in the process's table. */
    method CreateFor(p: nat, o: nat, blk: nat, read: bool) returns (b: nat)
      requires Places(System()) && HasRoom(tables, p) && CanEnter(System(), o, blk, read)
      modifies `bufs, `objs, `unused, `inUse, `tables, `run, `events
      ensures Places(System()) && SameForClients(old(System()), System())
      ensures System() == Create(old(System()), p, o, blk, read) && b == old(unused)[|old(unused)| - 1]
      ensures old(Valid()) ==> Valid() && events == old(events) + [Created(p, o, blk, read)]
    {
      ghost var valid := Valid();
      CreateForClients(System(), p, o, blk, read);
      b := EnterFor(o, blk, read);
      tables := tables[p := tables[p][EntryOf(tables[p], None).value := Some(b)]];
      if valid { Did(Created(p, o, blk, read)); }
    }

    /** A new buffer that bref frees again, since the process's table is full. */
    method CreateInVain(o: nat, blk: nat, read: bool)
      requires Places(System()) && CanEnter(System(), o, blk, read)
      modifies `bufs, `objs, `unused, `inUse, `run, `events
      ensures Places(System()) && SameForClients(old(System()), System())
      ensures System() == Fail(old(System()), NewBuf(old(objs)[o], o, blk, read))
      ensures old(Valid()) ==> Valid()
    {
      ghost var s, valid := System(), Valid();
      ghost var f := NewBuf(objs[o], o, blk, read);
      FailForClients(s, f);
      EnteredAndFreed(s, o, blk, read);
      var b := EnterFor(o, blk, read);
      var err := BFree(b, false);
      if valid { Did(Failed(f)); }
    }

    /** blookup for a block that is cached. */
    method Touched(o: nat, blk: nat, i: nat) returns (b: nat)
      requires Places(System()) && o < |objs| && i < |objs[o].list| && InRange(objs[o].list, |bufs|)
      requires FirstFrom(bufs, objs[o].list, blk, 0) == Some(i)
      modifies `bufs, `objs
      ensures Cached(old(System()), o, blk) == Some(b) && System() == Touch(old(System()), o, blk)
    {
      b := objs[o].list[i];
      bufs := bufs[b := bufs[b].(refcnt := Up(bufs[b].refcnt))];
      if sortReused { objs := objs[o := objs[o].(list := ToFront(objs[o].list, i))]; }
    }

    /** bref of a cached block, with the entry in the table. */
    method ReuseFor(p: nat, o: nat, blk: nat) returns (b: nat)
      requires Valid() && Legal(System(), Reused(p, o, blk))
      modifies `bufs, `objs, `tables, `run, `events
      ensures Valid() && SameForClients(old(System()), System())
      ensures System() == Reuse(old(System()), p, o, blk) && Cached(old(System()), o, blk) == Some(b)
      ensures events == old(events) + [Reused(p, o, blk)]
    {
      ListsInRange(System(), o);
      EventForClients(System(), Reused(p, o, blk));
      var i := Lookup(o, blk);
      b := Touched(o, blk, i);
      tables := tables[p := tables[p][EntryOf(tables[p], None).value := Some(b)]];
      Did(Reused(p, o, blk));
    }

    /**
     bref of a cached block that frees the buffer again, since the process's table is full. Whoever else refers
     to the buffer loses it, and what it holds is lost if it is dirty.
     */
    method ReuseInVain(o: nat, blk: nat)
      requires Valid() && o < |objs| && blk < 0xffff && Cached(System(), o, blk).Some?
      modifies `bufs, `objs, `unused, `inUse, `run, `events
      ensures Places(System()) && Dropped(old(System()), o, blk)
    {
      ghost var s := System();
      ListsInRange(s, o);
      TouchedAndFreed(s, o, blk);
      var i := Lookup(o, blk);
      var b := Touched(o, blk, i);
      ghost var history := (run, events);
      var err := BFree(b, false);
      run, events := history.0, history.1;
      DropsExactly(s, o, blk);
      if Refs(s.tables, b) == 0 && !s.bufs[b].dirty { DidDrop(s, b); }
    }

    /** The two events that make up a drop in order. */
    ghost method DidDrop(s: State, b: nat)
      requires IsRun(run, events) && Inv(run[0]) && Inv(s) && run[|events|] == s
      requires Legal(s, Freed(b)) && s.bufs[b].blk < 0xffff
      requires System() == Fail(Free(s, b), s.bufs[b].(refcnt := Up(s.bufs[b].refcnt)))
      modifies `run, `events
      ensures Valid()
    {
      assert RefsOk(s, b);
      NextKeepsInv(s, Freed(b));
      run, events := run + [Free(s, b)], events + [Freed(b)];
      assert StepOf(s, Freed(b), Free(s, b));
      Did(Failed(s.bufs[b].(refcnt := Up(s.bufs[b].refcnt))));
    }

    /** The buffer has been touched and freed. */
    ghost predicate Dropped(s: State, o: nat, blk: nat)
      requires Inv(s) && o < |s.objs| && Cached(s, o, blk).Some?
      reads this
    {
      FoundIsListed(s, o, blk);
      var b := Cached(s, o, blk).value;
      && System() == Fail(Free(s, b), s.bufs[b].(refcnt := Up(s.bufs[b].refcnt))) && Places(System())
      && (SameForClients(s, System()) <==> NothingToLose(s, b))
      && (UsersKept(s, System()) <==> Refs(s.tables, b) == 0)
      && (Refs(s.tables, b) == 0 && !s.bufs[b].dirty ==> Valid())
    }

    /** The loop of blookup: the first place with this block, or the end of the list. */
    method Lookup(o: nat, blk: nat) returns (i: nat)
      requires o < |objs| && InRange(objs[o].list, |bufs|)
      ensures i <= |objs[o].list|
      ensures FirstFrom(bufs, objs[o].list, blk, 0) == if i < |objs[o].list| then Some(i) else None
    {
      i := 0;
      while i < |objs[o].list|
        invariant i <= |objs[o].list| && FirstFrom(bufs, objs[o].list, blk, 0) == FirstFrom(bufs, objs[o].list, blk, i)
      {
        if bufs[objs[o].list[i]].blk == blk { return; }
        i := i + 1;
      }
    }

    /**
     bref. With IO_CREATE, IO_NOWAIT or IO_ZERO in mode a block that is not cached is not read either, since
     IO_ZERO contains the bits of the other two; memory says whether kmalloc has memory for the data.
     */
    method BRef(p: nat, o: nat, blk: nat, mode: bv8, memory: bool) returns (err: Error, b: nat)
      requires Valid() && p < |tables| && o < |objs| && blk < 0xffff
      modifies `bufs, `objs, `unused, `inUse, `tables, `run, `events
      ensures err == ENONE || err == EINVAL || err == ENOIODATA || err == ENOMEM
      ensures err == EINVAL || err == ENOIODATA ==> System() == old(System())
      ensures (err == EINVAL) == (mode & 0xfc != 0)
      ensures (err == ENOIODATA) == (mode & 0xfc == 0 && mode & 1 == 0 && blk >= old(objs)[o].size)
      ensures |old(run)[0].objs| == |old(objs)|
      ensures (err == ENOIODATA) ==
        (mode & 0xfc == 0 && mode & 1 == 0 && Beyond(old(run), old(events), |old(events)|, o, blk))
      ensures (err == ENOMEM) == (Accepts(old(System()), o, blk, mode) &&
        (!HasRoom(old(tables), p) || (Misses(old(System()), o, blk, mode) && (!memory || Exhausted(old(System()))))))
      ensures err == ENOMEM ==> tables == old(tables)
      ensures err == ENOMEM && Misses(old(System()), o, blk, mode) ==>
        Spoilt(old(bufs), InVain(old(objs)[o], o, blk, Reads(old(System()), o, blk, mode), memory),
               Exhausted(old(System())))
      ensures Drops(old(System()), p, o, blk, mode) ==> Dropped(old(System()), o, blk)
      ensures err == ENONE ==> Entered(p, o, blk, b)
      ensures err == ENONE ==>
        (bufs[b].data == Logical(old(System()), o, blk) <==> ReadsRight(old(System()), o, blk, mode))
      ensures Places(System())
      ensures SameForClients(old(System()), System()) <==> !LosesContent(old(System()), p, o, blk, mode)
      ensures UsersKept(old(System()), System()) <==> !LosesUsers(old(System()), p, o, blk, mode)
      ensures !LosesUsers(old(System()), p, o, blk, mode) && !DropsDirty(old(System()), p, o, blk, mode) ==> Valid()
    {
      b := 0;
      ghost var s := System();
      UsersStay(s);
      RunKeepsInv(run, events, |events|);
      EndOfObject(run, events, |events|, o, blk);
      if mode & 0xfc != 0 { return EINVAL, b; }
      if mode & 1 == 0 && blk >= objs[o].size { return ENOIODATA, b; }
      ListsInRange(s, o);
      var i := Lookup(o, blk);
      if i < |objs[o].list| {
        err, b := Hit(p, o, blk);
        return;
      }
      err, b := Miss(p, o, blk, mode & 3 == 0 && blk < objs[o].size, memory);
      if blk >= s.objs[o].size { ZeroBeyond(s, o, blk); }
    }

    /** The rest of bref for a block that is cached. */
    method Hit(p: nat, o: nat, blk: nat) returns (err: Error, b: nat)
      requires Valid() && p < |tables| && o < |objs| && blk < 0xffff && Cached(System(), o, blk).Some?
      modifies `bufs, `objs, `unused, `inUse, `tables, `run, `events
      ensures err == if HasRoom(old(tables), p) then ENONE else ENOMEM
      ensures Places(System()) && (err == ENOMEM ==> tables == old(tables) && Dropped(old(System()), o, blk))
      ensures err == ENONE ==> Valid() && Entered(p, o, blk, b)
      ensures err == ENONE ==> SameForClients(old(System()), System()) && UsersKept(old(System()), System())
      ensures err == ENONE ==>
        (bufs[b].data == Logical(old(System()), o, blk) <==> !Stale(old(System()), Cached(old(System()), o, blk).value))
    {
      b := 0;
      if !HasRoom(tables, p) {
        ReuseInVain(o, blk);
        return ENOMEM, b;
      }
      ghost var s := System();
      b := ReuseFor(p, o, blk);
      ReusedReads(s, p, o, blk);
      NextKeepsUsers(s, Reused(p, o, blk));
      return ENONE, b;
    }

    /** The buffer is the one for this block, and the process's table refers to it. */
    ghost predicate Entered(p: nat, o: nat, blk: nat, b: nat)
      reads this
    {
      && Places(System()) && o < |objs| && p < |tables| && b < |bufs|
      && Cached(System(), o, blk) == Some(b) && Some(b) in tables[p]
    }

    /** After a failure: the record that was popped in vain keeps what was set in it, all others are as they were. */
    ghost predicate Spoilt(before: seq<Buf>, f: Buf, none: bool)
      reads this`bufs, this`unused
    {
      if none then bufs == before
      else unused != [] && unused[|unused| - 1] < |before| && bufs == before[unused[|unused| - 1] := f]
    }

    /** The end of bcreate without memory for the data. */
    method PutBack(o: nat, blk: nat)
      requires Places(System()) && unused != [] && o < |objs| && blk < 0xffff
      modifies `bufs, `unused, `run, `events
      ensures Places(System()) && SameForClients(old(System()), System())
      ensures System() == Fail(old(System()), Buf(o, blk, [], 1, false))
      ensures old(Valid()) ==> Valid()
    {
      ghost var s, valid, f := System(), Valid(), Buf(o, blk, [], 1, false);
      FailForClients(s, f);
      var b := unused[|unused| - 1];
      unused := unused[..|unused| - 1];
      bufs := bufs[b := Buf(o, blk, [], 1, false)];
      unused := unused + [b];
      assert unused == s.unused;
      if valid { Did(Failed(f)); }
    }

    /** The rest of bcreate, the driver's io, and the end of bref, with a record from the pool. */
    method Take(p: nat, o: nat, blk: nat, read: bool, memory: bool) returns (err: Error, b: nat)
      requires Places(System()) && p < |tables| && CanEnter(System(), o, blk, read)
      modifies `bufs, `objs, `unused, `inUse, `tables, `run, `events
      ensures err == if memory && HasRoom(old(tables), p) then ENONE else ENOMEM
      ensures err == ENOMEM ==> System() == Fail(old(System()), InVain(old(objs)[o], o, blk, read, memory))
      ensures err == ENOMEM ==> Spoilt(old(bufs), InVain(old(objs)[o], o, blk, read, memory), false)
      ensures err == ENONE ==> System() == Create(old(System()), p, o, blk, read) && Entered(p, o, blk, b)
      ensures err == ENONE ==> (bufs[b].data == Logical(old(System()), o, blk) <==> HasRead(old(objs)[o], blk, read))
      ensures Places(System()) && SameForClients(old(System()), System())
      ensures old(Valid()) ==> Valid()
    {
      ghost var s := System();
      b := 0;
      if !memory {
        PutBack(o, blk);
        return ENOMEM, b;
      }
      if !HasRoom(tables, p) {
        CreateInVain(o, blk, read);
        return ENOMEM, b;
      }
      b := CreateFor(p, o, blk, read);
      CreatedReadsContent(s, p, o, blk, read);
      RegisteredIn(s, p, b);
      return ENONE, b;
    }

    /** The rest of bref for a block that is not cached. */
    method Miss(p: nat, o: nat, blk: nat, read: bool, memory: bool) returns (err: Error, b: nat)
      requires Valid() && p < |tables| && o < |objs| && blk < 0xffff
      requires Cached(System(), o, blk).None? && (read ==> blk < objs[o].size)
      modifies `bufs, `objs, `unused, `inUse, `tables, `run, `events
      ensures err == ENOMEM <==> !memory || Exhausted(old(System())) || !HasRoom(old(tables), p)
      ensures err == ENOMEM ==> tables == old(tables)
      ensures err == ENOMEM ==>
        Spoilt(old(bufs), InVain(old(objs)[o], o, blk, read, memory), Exhausted(old(System())))
      ensures err != ENOMEM ==> err == ENONE && Entered(p, o, blk, b)
      ensures err == ENONE ==> (bufs[b].data == Logical(old(System()), o, blk) <==> HasRead(old(objs)[o], blk, read))
      ensures Places(System()) && SameForClients(old(System()), System())
      ensures UsersKept(old(System()), System()) <==> !Shaken(old(System()))
      ensures !Shaken(old(System())) ==> Valid()
    {
      b := 0;
      ghost var s := System();
      Refill(o, blk, read);
      ghost var t := System();
      if unused == [] { return ENOMEM, b; }
      ghost var f := InVain(s.objs[o], o, blk, read, memory);
      assert InVain(t.objs[o], o, blk, read, memory) == f;
      err, b := Take(p, o, blk, read, memory);
      if err == ENOMEM {
        assert Spoilt(s.bufs, f, false);
        FailAfter(s, t, o, blk, f);
      } else {
        CreateAfter(s, t, p, o, blk, read);
      }
    }

    /** _bdirty */
    method BDirty(b: nat)
      requires Valid() && Listed(System(), b)
      modifies `bufs, `objs, `run, `events
      ensures Valid() && System() == Dirty(old(System()), b)
    {
      NextKeepsInv(System(), Dirtied(b));
      if !bufs[b].dirty {
        var o := bufs[b].obj;
        bufs := bufs[b := bufs[b].(dirty := true)];
        objs := objs[o := objs[o].(dirtybufs := Up(objs[o].dirtybufs))];
      }
      Did(Dirtied(b));
    }

    /** A client stores into the buffer's data. */
    method Store(b: nat, data: Data)
      requires Valid() && Listed(System(), b)
      modifies `bufs, `run, `events
      ensures Valid() && System() == Next(old(System()), Put(b, data))
    {
      NextKeepsInv(System(), Put(b, data));
      bufs := bufs[b := bufs[b].(data := data)];
      Did(Put(b, data));
    }

    /** bwrite, with the driver's io and the extension of the object in obj_io. */
    method BWrite(b: nat)
      requires Valid() && Listed(System(), b)
      modifies `bufs, `objs, `run, `events
      ensures Valid() && System() == Write(old(System()), b)
      ensures var o, blk := old(bufs)[b].obj, old(bufs)[b].blk;
        && |objs| == |old(objs)| && objs[o].disk == old(objs)[o].disk[blk := old(bufs)[b].data]
        && objs[o].size == (if old(objs)[o].size > blk then old(objs)[o].size else blk + 1)
        && forall q :: 0 <= q < |objs| && q != o ==> objs[q] == old(objs)[q]
      ensures old(bufs)[b].dirty ==> SameForClients(old(System()), System())
    {
      NextKeepsInv(System(), Wrote(b));
      if bufs[b].dirty { EventForClients(System(), Wrote(b)); }
      var o := bufs[b].obj;
      if bufs[b].dirty {
        bufs := bufs[b := bufs[b].(dirty := false)];
        objs := objs[o := objs[o].(dirtybufs := Down(objs[o].dirtybufs))];
      }
      objs := objs[o := objs[o].(disk := objs[o].disk[bufs[b].blk := bufs[b].data])];
      if bufs[b].blk >= objs[o].size {
        objs := objs[o := objs[o].(size := bufs[b].blk + 1)];
      }
      Did(Wrote(b));
    }

    /** bunrefp */
    method BUnrefP(buf: Option<nat>, p: nat)
      requires Valid() && (buf.Some? ==> Legal(System(), Unrefd(p, buf.value)))
      modifies `bufs, `tables, `restart, `run, `events
      ensures Valid() && SameForClients(old(System()), System())
      ensures buf.None? ==> System() == old(System()) && restart == old(restart)
      ensures buf.Some? ==>
        System() == Unref(old(System()), p, buf.value) && (restart <==> old(restart) || bufs[buf.value].dirty)
    {
      if buf.None? { return; }
      var b := buf.value;
      EventForClients(System(), Unrefd(p, b));
      bufs := bufs[b := bufs[b].(refcnt := Down(bufs[b].refcnt))];
      tables := tables[p := tables[p][EntryOf(tables[p], Some(b)).value := None]];
      if bufs[b].dirty { restart := true; }
      Did(Unrefd(p, b));
    }

    /** bsend */
    method BSend(b: nat, p: nat)
      requires Valid() && Legal(System(), Unrefd(p, b)) && Listed(System(), b)
      modifies `bufs, `objs, `tables, `restart, `run, `events
      ensures Valid() && restart == old(restart) && System() == Unref(Write(old(System()), b), p, b)
    {
      BWrite(b);
      BUnrefP(Some(b), p);
    }

    /** sync_bufs for a cached object: every dirty buffer is written and stays. */
    method SyncBufs(o: nat)
      requires Valid() && o < |objs|
      modifies `bufs, `objs, `run, `events
      ensures Valid() && SameForClients(old(System()), System()) && SameLists(old(System()), System())
      ensures DirtySet(System(), o) == {} && objs[o].dirtybufs == 0
      ensures forall q :: 0 <= q < |objs| && q != o ==> objs[q] == old(objs)[q]
      ensures forall q :: 0 <= q < |objs| && q != o ==> DirtySet(System(), q) == DirtySet(old(System()), q)
      ensures tables == old(tables) && forall b :: 0 <= b < |bufs| ==> bufs[b].data == old(bufs)[b].data
    {
      ghost var s, list := System(), objs[o].list;
      ListsInRange(s, o);
      var i := 0;
      while i < |objs[o].list|
        invariant 0 <= i <= |list| && Valid() && SameForClients(s, System()) && SameLists(s, System())
        invariant objs[o].list == list
        invariant bufs == Cleaned(s.bufs, list, i) && tables == s.tables
        invariant forall q :: 0 <= q < |objs| && q != o ==> objs[q] == s.objs[q]
        decreases |list| - i
      {
        SyncBuf(o, i);
        i := i + 1;
      }
      AllSynced(s, System(), o);
    }

    /** One round of sync_bufs. */
    method SyncBuf(o: nat, i: nat)
      requires Valid() && o < |objs| && i < |objs[o].list| && objs[o].list[i] < |bufs|
      modifies `bufs, `objs, `run, `events
      ensures Valid() && SameForClients(old(System()), System()) && SameLists(old(System()), System())
      ensures var b := old(objs)[o].list[i]; bufs == old(bufs)[b := old(bufs)[b].(dirty := false)]
      ensures forall q :: 0 <= q < |objs| && q != o ==> objs[q] == old(objs)[q]
    {
      assert ListOk(System(), o);
      var b := objs[o].list[i];
      if bufs[b].dirty { BWrite(b); }
    }

    /** One pass of the syncer over all objects: afterwards the driver has everything that clients see. */
    method SyncerPass()
      requires Valid()
      modifies `bufs, `objs, `restart, `run, `events
      ensures Valid() && SameForClients(old(System()), System()) && SameLists(old(System()), System()) && !restart
      ensures forall o :: 0 <= o < |objs| ==> DirtySet(System(), o) == {}
      ensures forall o: nat, k: nat :: o < |objs| ==> OnDisk(objs[o], k) == Logical(old(System()), o, k)
    {
      ghost var s := System();
      restart := false;
      var o := 0;
      while o < |objs|
        invariant 0 <= o <= |objs| && Valid() && SameForClients(s, System()) && SameLists(s, System()) && !restart
        invariant forall q :: 0 <= q < o ==> DirtySet(System(), q) == {}
      {
        SyncBufs(o);
        o := o + 1;
      }
      forall q: nat, k: nat | q < |objs| ensures OnDisk(objs[q], k) == Logical(s, q, k) {
        FlushedIsOnDisk(System(), q, k);
      }
    }

    /** The buffers' part of fs_kill_proc: the process's references, and no others, are dropped. */
    method FsKillProc(p: nat)
      requires Valid() && p < |tables|
      modifies `bufs, `tables, `restart, `run, `events
      ensures Valid() && SameForClients(old(System()), System())
      ensures tables == old(tables)[p := ClearedTo(old(tables)[p], |old(tables)[p]|)] && objs == old(objs)
      ensures unused == old(unused)
      ensures |bufs| == |old(bufs)|
      ensures forall b :: 0 <= b < |bufs| ==> bufs[b] == old(bufs)[b].(refcnt := bufs[b].refcnt)
      ensures forall b :: 0 <= b < |bufs| && Listed(System(), b) ==>
        bufs[b].refcnt as int == (old(bufs)[b].refcnt - CountIn(old(tables)[p], Some(b))) % 0x100
    {
      ghost var s := System();
      var i := 0;
      while i < |tables[p]|
        invariant 0 <= i <= |s.tables[p]| && Valid() && SameForClients(s, System()) && Cleared(s, p, i)
        decreases |s.tables[p]| - i
      {
        if tables[p][i].Some? { DropEntry(p, i); }
        assert tables[p] == ClearedTo(s.tables[p], i + 1);
        i := i + 1;
      }
      forall b | 0 <= b < |bufs| && Listed(System(), b)
        ensures bufs[b].refcnt as int == (s.bufs[b].refcnt - CountIn(s.tables[p], Some(b))) % 0x100
      {
        CountFalls(s, System(), p, b);
      }
    }

    /** The first i entries of the table are gone, and nothing else has changed but counts. */
    ghost predicate Cleared(s: State, p: nat, i: nat)
      reads this
    {
      && p < |s.tables| && i <= |s.tables[p]|
      && tables == s.tables[p := ClearedTo(s.tables[p], i)]
      && objs == s.objs && unused == s.unused
      && |bufs| == |s.bufs| && forall b :: 0 <= b < |bufs| ==> bufs[b] == s.bufs[b].(refcnt := bufs[b].refcnt)
    }

    /** bunrefp erases the first entry for the buffer, which is the one that the loop has come to. */
    method DropEntry(p: nat, i: nat)
      requires Valid() && p < |tables| && i < |tables[p]| && tables[p][i].Some?
      requires forall j :: 0 <= j < i ==> tables[p][j] == None
      modifies `bufs, `tables, `restart, `run, `events
      ensures Valid() && SameForClients(old(System()), System())
      ensures tables == old(tables)[p := old(tables)[p][i := None]] && objs == old(objs) && unused == old(unused)
      ensures |bufs| == |old(bufs)|
      ensures forall b :: 0 <= b < |bufs| ==> bufs[b] == old(bufs)[b].(refcnt := bufs[b].refcnt)
    {
      var b := tables[p][i].value;
      FirstEntry(tables[p], Some(b), 0, i);
      BUnrefP(tables[p][i], p);
    }
  }

  /** The records after the first n of a list have been written back. */
  function Cleaned(bufs: seq<Buf>, list: seq<nat>, n: nat): (r: seq<Buf>)
    requires n <= |list| && InRange(list, |bufs|)
    ensures |r| == |bufs|
  {
    if n == 0 then bufs
    else
      var before := Cleaned(bufs, list, n - 1);
      before[list[n - 1] := before[list[n - 1]].(dirty := false)]
  }

  lemma {:induction false} CleanedAt(bufs: seq<Buf>, list: seq<nat>, n: nat, b: nat)
    requires n <= |list| && InRange(list, |bufs|) && b < |bufs|
    ensures Cleaned(bufs, list, n)[b] == bufs[b].(dirty := bufs[b].dirty && b !in list[..n])
  {
    if n > 0 {
      CleanedAt(bufs, list, n - 1, b);
      assert list[..n] == list[..n - 1] + [list[n - 1]];
    }
  }

  /** Writing back all buffers of one object leaves those of the others. */
  lemma AllSynced(s: State, t: State, o: nat)
    requires Places(s) && Inv(t) && SameLists(s, t) && o < |s.objs| && InRange(s.objs[o].list, |s.bufs|)
    requires t.bufs == Cleaned(s.bufs, s.objs[o].list, |s.objs[o].list|)
    ensures DirtySet(t, o) == {} && t.objs[o].dirtybufs == 0
    ensures forall q :: 0 <= q < |s.objs| && q != o ==> DirtySet(t, q) == DirtySet(s, q)
    ensures forall b :: 0 <= b < |t.bufs| ==> t.bufs[b].data == s.bufs[b].data
  {
    var list := s.objs[o].list;
    assert list[..|list|] == list;
    forall b | 0 <= b < |t.bufs| ensures t.bufs[b] == s.bufs[b].(dirty := s.bufs[b].dirty && b !in list) {
      CleanedAt(s.bufs, list, |list|, b);
    }
    NoneDirty(t, o);
    forall q | 0 <= q < |s.objs| && q != o ensures DirtySet(t, q) == DirtySet(s, q) {
      assert ListOk(s, o) && ListOk(s, q);
    }
  }

  /** A table whose first i entries are gone. */
  function ClearedTo(t: Table, i: nat): (r: Table)
    requires i <= |t|
    ensures |r| == |t| && forall j :: 0 <= j < |t| ==> r[j] == if j < i then None else t[j]
  {
    if i == 0 then t else ClearedTo(t, i - 1)[i - 1 := None]
  }

  // ----- What bref depends on -----

  predicate Accepts(s: State, o: nat, blk: nat, mode: bv8)
    requires o < |s.objs|
  {
    mode & 0xfc == 0 && (mode & 1 != 0 || blk < s.objs[o].size)
  }

  /** Does bref have to take a record from the pool? */
  ghost predicate Misses(s: State, o: nat, blk: nat, mode: bv8)
    requires Places(s) && o < |s.objs|
  {
    Accepts(s, o, blk, mode) && Cached(s, o, blk).None?
  }

  predicate Reads(s: State, o: nat, blk: nat, mode: bv8)
    requires o < |s.objs|
  {
    mode & 3 == 0 && blk < s.objs[o].size
  }

  /** What has been set in a record that is taken in vain. */
  function InVain(obj: Obj, o: nat, blk: nat, read: bool, memory: bool): Buf {
    if memory then NewBuf(obj, o, blk, read) else Buf(o, blk, [], 1, false)
  }

  /** Does bref free a buffer that it has found, for want of room in the table? */
  ghost predicate Drops(s: State, p: nat, o: nat, blk: nat, mode: bv8)
    requires Places(s) && o < |s.objs|
    ensures Drops(s, p, o, blk, mode) ==> Cached(s, o, blk).Some? && Listed(s, Cached(s, o, blk).value)
  {
    if Cached(s, o, blk).Some? then
      FoundIsListed(s, o, blk);
      Accepts(s, o, blk, mode) && !HasRoom(s.tables, p)
    else false
  }

  ghost predicate DropsDirty(s: State, p: nat, o: nat, blk: nat, mode: bv8)
    requires Places(s) && o < |s.objs|
  {
    Drops(s, p, o, blk, mode) && s.bufs[Cached(s, o, blk).value].dirty
  }

  /** A dirty buffer with data that the driver has not got is freed. */
  ghost predicate LosesContent(s: State, p: nat, o: nat, blk: nat, mode: bv8)
    requires Places(s) && o < |s.objs|
  {
    Drops(s, p, o, blk, mode) && !NothingToLose(s, Cached(s, o, blk).value)
  }

  /** A buffer is freed to which somebody refers: the one that was found, or one whose count has wrapped around. */
  ghost predicate LosesUsers(s: State, p: nat, o: nat, blk: nat, mode: bv8)
    requires Places(s) && o < |s.objs|
  {
    || (Drops(s, p, o, blk, mode) && Refs(s.tables, Cached(s, o, blk).value) > 0)
    || (Misses(s, o, blk, mode) && Shaken(s))
  }

  /** A new buffer has the content of its block if that was read, or there is nothing to read. */
  predicate HasRead(o: Obj, blk: nat, read: bool) { read || OnDisk(o, blk) == Zeros(o.blksize) }

  /** When the buffer that bref returns has the content of its block. */
  ghost predicate ReadsRight(s: State, o: nat, blk: nat, mode: bv8)
    requires Places(s) && o < |s.objs|
  {
    if Cached(s, o, blk).Some? then !Stale(s, Cached(s, o, blk).value)
    else HasRead(s.objs[o], blk, mode & 3 == 0)
  }

  lemma ReusedReads(s: State, p: nat, o: nat, blk: nat)
    requires Inv(s) && Legal(s, Reused(p, o, blk))
    ensures var t, b := Reuse(s, p, o, blk), Cached(s, o, blk).value;
      && Inv(t) && Listed(s, b) && Cached(t, o, blk) == Some(b) && Some(b) in t.tables[p]
      && (t.bufs[b].data == Logical(s, o, blk) <==> !Stale(s, b))
  {
    var t, b := Reuse(s, p, o, blk), Cached(s, o, blk).value;
    ReuseKeepsInv(s, p, o, blk);
    FoundIsListed(s, o, blk);
    ReadsContent(s, b);
    ReuseKeepsPlaces(s, p, o, blk);
    SameListed(s, t, b);
    FoundByBlock(t, b);
    RegisteredIn(s, p, b);
  }

  lemma AddedAndRemoved(list: seq<nat>, b: nat, r: seq<nat>)
    requires (r == list + [b] || r == [b] + list) && Distinct(r)
    ensures b in r && RemoveAt(r, IndexOf(r, b)) == list
  {
    IndexUnique(r, if r == list + [b] then |list| else 0);
  }

  /** bcleanup of one object keeps users exactly if none of its counts has wrapped around. */
  lemma CleanedUpExactly(s: State, t: State, o: nat)
    requires Inv(s) && o < |s.objs| && InRange(s.objs[o].list, |s.bufs|)
    requires t.bufs == s.bufs && t.tables == s.tables
    requires t.objs == s.objs[o := s.objs[o].(list := Survivors(s.bufs, s.objs[o].list))]
    ensures UsersKept(s, t) <==> NoneWrapped(s, {o})
    ensures Inv(t) ==> NoneWrapped(s, {o})
  {
    CleanupKeepsUsersExactly(s, t, {o});
  }

  lemma Overwritten<T>(s: seq<T>, i: nat, x: T, y: T)
    requires i < |s|
    ensures s[i := x][i := y] == s[i := y] && s[i := s[i]] == s
  {
  }

  /** Freeing the record f that was put on a list undoes that. */
  lemma TakenOut(s: State, t: State, f: Buf, list: seq<nat>)
    requires s.unused != [] && f.obj < |s.objs| && s.unused[|s.unused| - 1] < |s.bufs|
    requires t.unused == s.unused[..|s.unused| - 1] && t.bufs == s.bufs[s.unused[|s.unused| - 1] := f]
    requires t.inUse == s.inUse + 1 && t.objs == s.objs[f.obj := s.objs[f.obj].(list := list)]
    requires t.sortReused == s.sortReused && t.tables == s.tables
    requires s.unused[|s.unused| - 1] in list
    requires RemoveAt(list, IndexOf(list, s.unused[|s.unused| - 1])) == s.objs[f.obj].list
    ensures Listed(t, s.unused[|s.unused| - 1]) && Free(t, s.unused[|s.unused| - 1]) == Fail(s, f)
  {
    Overwritten(s.objs, f.obj, s.objs[f.obj].(list := list), s.objs[f.obj]);
    assert t.unused + [s.unused[|s.unused| - 1]] == s.unused;
  }

  /** Taking a record and freeing it leaves only what was set in it. */
  lemma EnteredAndFreed(s: State, o: nat, blk: nat, read: bool)
    requires Places(s) && CanEnter(s, o, blk, read)
    ensures var t, b := Enter(s, o, blk, read), s.unused[|s.unused| - 1];
      Places(t) && Listed(t, b) && Free(t, b) == Fail(s, NewBuf(s.objs[o], o, blk, read))
  {
    var t := Enter(s, o, blk, read);
    EnterKeepsPlaces(s, o, blk, read);
    assert ListOk(t, o);
    AddedAndRemoved(s.objs[o].list, s.unused[|s.unused| - 1], t.objs[o].list);
    TakenOut(s, t, NewBuf(s.objs[o], o, blk, read), t.objs[o].list);
  }

  /** Freeing a buffer whose record was changed to f, with its place in the list. */
  lemma FreedAlike(s: State, t: State, b: nat, f: Buf, list: seq<nat>)
    requires Listed(s, b) && f.obj == s.bufs[b].obj && b in list
    requires t.objs == s.objs[f.obj := s.objs[f.obj].(list := list)] && t.bufs == s.bufs[b := f]
    requires t.unused == s.unused && t.inUse == s.inUse && t.sortReused == s.sortReused && t.tables == s.tables
    requires RemoveAt(list, IndexOf(list, b)) == RemoveAt(s.objs[f.obj].list, IndexOf(s.objs[f.obj].list, b))
    ensures Listed(t, b) && Free(t, b) == Fail(Free(s, b), f)
  {
    var r := RemoveAt(list, IndexOf(list, b));
    Overwritten(s.objs, f.obj, s.objs[f.obj].(list := list), s.objs[f.obj].(list := r));
  }

  /** Finding a buffer and freeing it leaves its count in the unused record. */
  lemma TouchedAndFreed(s: State, o: nat, blk: nat)
    requires Places(s) && o < |s.objs| && Cached(s, o, blk).Some?
    ensures var t, b := Touch(s, o, blk), Cached(s, o, blk).value;
      && Listed(s, b) && Places(t) && Listed(t, b)
      && Free(t, b) == Fail(Free(s, b), s.bufs[b].(refcnt := Up(s.bufs[b].refcnt)))
  {
    var t, b := Touch(s, o, blk), Cached(s, o, blk).value;
    TouchKeepsPlaces(s, o, blk);
    FoundIsListed(s, o, blk);
    MovedAndRemoved(s, o, blk);
    Overwritten(s.objs, o, s.objs[o], s.objs[o]);
    FreedAlike(s, t, b, s.bufs[b].(refcnt := Up(s.bufs[b].refcnt)), t.objs[o].list);
  }

  lemma MovedAndRemoved(s: State, o: nat, blk: nat)
    requires Places(s) && o < |s.objs| && Cached(s, o, blk).Some?
    ensures var l, m, b := s.objs[o].list, Touch(s, o, blk).objs[o].list, Cached(s, o, blk).value;
      b in l && b in m && RemoveAt(m, IndexOf(m, b)) == RemoveAt(l, IndexOf(l, b))
  {
    var list, m := s.objs[o].list, Touch(s, o, blk).objs[o].list;
    TouchKeepsLists(s, o, blk, o);
    assert ListOk(s, o);
    var i := FirstFrom(s.bufs, list, blk, 0).value;
    IndexUnique(list, i);
    IndexUnique(m, if s.sortReused then 0 else i);
    assert RemoveAt(m, if s.sortReused then 0 else i) == RemoveAt(list, i);
  }

  /** An unused record does not matter to users or content. */
  lemma GoneAlike(s: State, t: State, f: Buf)
    requires Inv(s) && Places(t) && t.unused != [] && |t.bufs| == |s.bufs| && |t.objs| == |s.objs|
    ensures Places(Fail(t, f))
    ensures SameForClients(s, Fail(t, f)) <==> SameForClients(s, t)
    ensures UsersKept(s, Fail(t, f)) <==> UsersKept(s, t)
  {
    FailForClients(t, f);
    FailKeepsPlaces(t, f);
    Unlisted(t);
    forall b | 0 <= b < |s.bufs| ensures UserKept(s, Fail(t, f), b) <==> UserKept(s, t, b) {
    }
  }

  lemma DropsExactly(s: State, o: nat, blk: nat)
    requires Inv(s) && o < |s.objs| && Cached(s, o, blk).Some?
    ensures var b := Cached(s, o, blk).value; var f := s.bufs[b].(refcnt := Up(s.bufs[b].refcnt));
      && Listed(s, b) && s.bufs[b].blk == blk && Places(Fail(Free(s, b), f))
      && (SameForClients(s, Fail(Free(s, b), f)) <==> NothingToLose(s, b))
      && (UsersKept(s, Fail(Free(s, b), f)) <==> Refs(s.tables, b) == 0)
  {
    var b := Cached(s, o, blk).value;
    FoundIsListed(s, o, blk);
    FreeForClients(s, b);
    FreeKeepsUsersExactly(s, b);
    GoneAlike(s, Free(s, b), s.bufs[b].(refcnt := Up(s.bufs[b].refcnt)));
  }

  lemma RegisteredIn(s: State, p: nat, b: nat)
    requires HasRoom(s.tables, p)
    ensures Some(b) in Register(s, p, b).tables[p]
  {
    assert Register(s, p, b).tables[p][EntryOf(s.tables[p], None).value] == Some(b);
  }

  lemma ZeroBeyond(s: State, o: nat, blk: nat)
    requires Inv(s) && o < |s.objs| && blk >= s.objs[o].size
    ensures OnDisk(s.objs[o], blk) == Zeros(s.objs[o].blksize)
  {
    assert ObjOk(s, o);
  }

  lemma NoneDirty(s: State, o: nat)
    requires Inv(s) && o < |s.objs|
    requires forall b :: b in s.objs[o].list && b < |s.bufs| ==> !s.bufs[b].dirty
    ensures DirtySet(s, o) == {} && s.objs[o].dirtybufs == 0
  {
    assert ListOk(s, o) && ObjOk(s, o);
    assert DirtySet(s, o) == {};
  }

  lemma ListsInRange(s: State, o: nat)
    requires Places(s) && o < |s.objs|
    ensures InRange(s.objs[o].list, |s.bufs|)
  {
    assert ListOk(s, o);
  }

  lemma CountFalls(s: State, t: State, p: nat, b: nat)
    requires Inv(s) && Inv(t) && p < |s.tables| && b < |s.bufs| == |t.bufs| && Listed(s, b) && Listed(t, b)
    requires EmptyTable(ClearedTo(s.tables[p], |s.tables[p]|))
    requires t.tables == s.tables[p := ClearedTo(s.tables[p], |s.tables[p]|)]
    ensures t.bufs[b].refcnt as int == (s.bufs[b].refcnt - CountIn(s.tables[p], Some(b))) % 0x100
  {
    assert RefsOk(t, b) && RefsOk(s, b);
    TableUpdate(s.tables, p, t.tables[p], Some(b));
    NoneIn(t.tables[p], b);
    ModMinus(Refs(s.tables, b), CountIn(s.tables[p], Some(b)));
  }

  lemma ModMinus(n: nat, c: nat)
    requires c <= n
    ensures (n - c) % 0x100 == (n % 0x100 - c) % 0x100
  {
    var k := n / 0x100;
    assert n == 0x100 * k + n % 0x100;
    assert n - c == 0x100 * k + (n % 0x100 - c);
  }
}
