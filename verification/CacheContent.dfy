/**
 Transparency of the buffer cache: what clients see as the content of a block changes only when a client's
 data is committed, whatever is looked up, reordered, evicted, written back or let go of in between.
 */
module CacheContent {
  import opened Common
  import opened Queue
  import opened Cache
  import opened CacheSteps

  // ----- Whose data a block has -----

  /** A dirty buffer with this block of this object. */
  ghost predicate HoldsDirty(s: State, o: nat, k: nat, b: nat) {
    Listed(s, b) && s.bufs[b].obj == o && s.bufs[b].blk == k && s.bufs[b].dirty
  }

  /** A listed buffer is the one that is found for its block. */
  lemma FoundByBlock(s: State, b: nat)
    requires Places(s) && Listed(s, b)
    ensures Cached(s, s.bufs[b].obj, s.bufs[b].blk) == Some(b)
  {
    var o, k := s.bufs[b].obj, s.bufs[b].blk;
    assert ListOk(s, o);
    var list := s.objs[o].list;
    var i :| 0 <= i < |list| && list[i] == b;
    var r := FirstFrom(s.bufs, list, k, 0);
    assert r.Some?;
    assert r.value == i;
  }

  lemma FoundIsListed(s: State, o: nat, k: nat)
    requires Places(s) && o < |s.objs| && Cached(s, o, k).Some?
    ensures var b := Cached(s, o, k).value; Listed(s, b) && s.bufs[b].obj == o && s.bufs[b].blk == k
  {
    assert ListOk(s, o);
    var i := FirstFrom(s.bufs, s.objs[o].list, k, 0).value;
  }

  lemma DirtyHasContent(s: State, o: nat, k: nat, b: nat)
    requires Places(s) && HoldsDirty(s, o, k, b)
    ensures Logical(s, o, k) == s.bufs[b].data
  {
    FoundByBlock(s, b);
  }

  lemma DiskHasContent(s: State, o: nat, k: nat)
    requires Places(s) && o < |s.objs| && forall b :: 0 <= b < |s.bufs| ==> !HoldsDirty(s, o, k, b)
    ensures Logical(s, o, k) == OnDisk(s.objs[o], k)
  {
    if Cached(s, o, k).Some? {
      FoundIsListed(s, o, k);
      assert !HoldsDirty(s, o, k, Cached(s, o, k).value);
    }
  }

  /** Two states with the same dirty buffers for a block, and the same block on disk if there are none. */
  lemma SameContent(s: State, t: State, o: nat, k: nat)
    requires Places(s) && Places(t) && o < |s.objs| == |t.objs| && |t.bufs| == |s.bufs|
    requires forall b :: 0 <= b < |s.bufs| ==> HoldsDirty(s, o, k, b) == HoldsDirty(t, o, k, b)
    requires forall b :: 0 <= b < |s.bufs| && HoldsDirty(s, o, k, b) ==> t.bufs[b].data == s.bufs[b].data
    requires OnDisk(t.objs[o], k) == OnDisk(s.objs[o], k)
    ensures Logical(t, o, k) == Logical(s, o, k)
  {
    if b :| 0 <= b < |s.bufs| && HoldsDirty(s, o, k, b) {
      DirtyHasContent(s, o, k, b);
      DirtyHasContent(t, o, k, b);
    } else {
      DiskHasContent(s, o, k);
      DiskHasContent(t, o, k);
    }
  }

  // ----- What each event does to the content -----

  /** Does the event commit data to this block? */
  ghost predicate Commits(s: State, e: Event, o: nat, k: nat) {
    (e.Dirtied? || e.Wrote? || (e.Put? && e.b < |s.bufs| && s.bufs[e.b].dirty)) && IsFor(s, e.b, o, k)
  }

  predicate IsFor(s: State, b: nat, o: nat, k: nat) {
    b < |s.bufs| && s.bufs[b].obj == o && s.bufs[b].blk == k
  }

  ghost function Committed(s: State, e: Event): Data
    requires Inv(s) && Legal(s, e) && (e.Dirtied? || e.Wrote? || e.Put?)
  {
    if e.Put? then e.data else s.bufs[e.b].data
  }

  lemma ReuseContent(s: State, p: nat, o: nat, blk: nat, q: nat, k: nat)
    requires Inv(s) && Legal(s, Reused(p, o, blk)) && q < |s.objs|
    ensures Inv(Reuse(s, p, o, blk)) && Logical(Reuse(s, p, o, blk), q, k) == Logical(s, q, k)
  {
    var t := Reuse(s, p, o, blk);
    ReuseKeepsInv(s, p, o, blk);
    ReuseKeepsPlaces(s, p, o, blk);
    forall b | 0 <= b < |s.bufs| ensures HoldsDirty(s, q, k, b) == HoldsDirty(t, q, k, b) {
      SameListed(s, t, b);
    }
    SameContent(s, t, q, k);
  }

  lemma EnterContent(s: State, o: nat, blk: nat, read: bool, q: nat, k: nat)
    requires Places(s) && CanEnter(s, o, blk, read) && q < |s.objs|
    ensures Places(Enter(s, o, blk, read)) && Logical(Enter(s, o, blk, read), q, k) == Logical(s, q, k)
  {
    EnterKeepsPlaces(s, o, blk, read);
    SameContent(s, Enter(s, o, blk, read), q, k);
  }

  /** Tables do not matter to the content. */
  lemma OtherTablesContent(s: State, t: State, q: nat, k: nat)
    requires Places(s) && t == s.(tables := t.tables) && q < |s.objs|
    ensures Places(t) && Logical(t, q, k) == Logical(s, q, k)
  {
    OtherTables(s, t);
  }

  lemma CreateContent(s: State, p: nat, o: nat, blk: nat, read: bool, q: nat, k: nat)
    requires Places(s) && HasRoom(s.tables, p) && CanEnter(s, o, blk, read) && q < |s.objs|
    ensures Places(Create(s, p, o, blk, read)) && Logical(Create(s, p, o, blk, read), q, k) == Logical(s, q, k)
  {
    EnterContent(s, o, blk, read, q, k);
    OtherTablesContent(Enter(s, o, blk, read), Create(s, p, o, blk, read), q, k);
  }

  lemma FailContent(s: State, f: Buf, q: nat, k: nat)
    requires Places(s) && s.unused != [] && q < |s.objs|
    ensures Places(Fail(s, f)) && Logical(Fail(s, f), q, k) == Logical(s, q, k)
  {
    FailKeepsPlaces(s, f);
    Unlisted(s);
    SameContent(s, Fail(s, f), q, k);
  }

  /** Freeing leaves of a block what the driver has. */
  lemma FreeContent(s: State, b: nat, q: nat, k: nat)
    requires Places(s) && Listed(s, b) && q < |s.objs|
    ensures Places(Free(s, b))
    ensures Logical(Free(s, b), q, k) == if IsFor(s, b, q, k) then OnDisk(s.objs[q], k) else Logical(s, q, k)
  {
    var t := Free(s, b);
    FreeKeepsPlaces(s, b);
    if IsFor(s, b, q, k) {
      forall d | 0 <= d < |t.bufs| ensures !HoldsDirty(t, q, k, d) {
        if HoldsDirty(t, q, k, d) {
          FoundByBlock(s, d);
          FoundByBlock(s, b);
        }
      }
      DiskHasContent(t, q, k);
    } else {
      SameContent(s, t, q, k);
    }
  }

  /** A change of one listed buffer that keeps all lists. */
  lemma OneBufferChanges(s: State, t: State, b: nat, q: nat, k: nat)
    requires Inv(s) && Inv(t) && SameLists(s, t) && Listed(s, b) && q < |s.objs|
    requires forall d :: 0 <= d < |s.bufs| && d != b ==>
      t.bufs[d].dirty == s.bufs[d].dirty && t.bufs[d].data == s.bufs[d].data
    requires OnDisk(t.objs[q], k) == OnDisk(s.objs[q], k) || (s.bufs[b].obj == q && s.bufs[b].blk == k)
    ensures !(s.bufs[b].obj == q && s.bufs[b].blk == k) ==> Logical(t, q, k) == Logical(s, q, k)
    ensures s.bufs[b].obj == q && s.bufs[b].blk == k ==>
      Logical(t, q, k) == if t.bufs[b].dirty then t.bufs[b].data else OnDisk(t.objs[q], k)
  {
    SameListsKeepPlaces(s, t);
    forall d | 0 <= d < |s.bufs| ensures Listed(s, d) == Listed(t, d) {
      SameListed(s, t, d);
    }
    if s.bufs[b].obj == q && s.bufs[b].blk == k {
      FoundByBlock(t, b);
    } else {
      SameContent(s, t, q, k);
    }
  }

  lemma UnrefContent(s: State, p: nat, b: nat, q: nat, k: nat)
    requires Inv(s) && Legal(s, Unrefd(p, b)) && q < |s.objs|
    ensures Inv(Unref(s, p, b)) && Logical(Unref(s, p, b), q, k) == Logical(s, q, k)
  {
    UnrefKeepsInv(s, p, b);
    ReferencedIsListed(s, p, b);
    OneBufferChanges(s, Unref(s, p, b), b, q, k);
    FoundByBlock(s, b);
  }

  lemma DirtyContent(s: State, b: nat, q: nat, k: nat)
    requires Inv(s) && Listed(s, b) && q < |s.objs|
    ensures Inv(Dirty(s, b))
    ensures Logical(Dirty(s, b), q, k) == if IsFor(s, b, q, k) then s.bufs[b].data else Logical(s, q, k)
  {
    DirtyKeepsInv(s, b);
    OneBufferChanges(s, Dirty(s, b), b, q, k);
    FoundByBlock(s, b);
  }

  lemma WriteContent(s: State, b: nat, q: nat, k: nat)
    requires Inv(s) && Listed(s, b) && q < |s.objs|
    ensures Inv(Write(s, b))
    ensures Logical(Write(s, b), q, k) == if IsFor(s, b, q, k) then s.bufs[b].data else Logical(s, q, k)
  {
    WriteKeepsInv(s, b);
    OneBufferChanges(s, Write(s, b), b, q, k);
  }

  lemma PutContent(s: State, b: nat, data: Data, q: nat, k: nat)
    requires Inv(s) && Legal(s, Put(b, data)) && q < |s.objs|
    ensures var t := Next(s, Put(b, data));
      Inv(t) && Logical(t, q, k) == if IsFor(s, b, q, k) && s.bufs[b].dirty then data else Logical(s, q, k)
  {
    PutKeepsInv(s, b, data);
    OneBufferChanges(s, Next(s, Put(b, data)), b, q, k);
    FoundByBlock(s, b);
  }

  /**
   The content of every block after any event: it is the data of the buffer that the event commits, and
   otherwise what it was before. Looking up and moving to the front, creating and reading, evicting, letting
   go, and writing back a dirty buffer never change it.
   */
  lemma Transparency(s: State, e: Event, q: nat, k: nat)
    requires Inv(s) && Legal(s, e) && q < |s.objs|
    ensures Inv(Next(s, e)) && |Next(s, e).objs| == |s.objs|
    ensures Logical(Next(s, e), q, k) == if Commits(s, e, q, k) then Committed(s, e) else Logical(s, q, k)
  {
    if e.Dirtied? || e.Wrote? || e.Put? { CommittingContent(s, e, q, k); } else { QuietContent(s, e, q, k); }
  }

  lemma QuietContent(s: State, e: Event, q: nat, k: nat)
    requires Inv(s) && Legal(s, e) && q < |s.objs| && !e.Dirtied? && !e.Wrote? && !e.Put?
    ensures Inv(Next(s, e)) && |Next(s, e).objs| == |s.objs| && Logical(Next(s, e), q, k) == Logical(s, q, k)
  {
    NextKeepsInv(s, e);
    match e
    case Reused(p, o, blk) => ReuseContent(s, p, o, blk, q, k);
    case Created(p, o, blk, read) => CreateContent(s, p, o, blk, read, q, k);
    case Failed(f) => FailContent(s, f, q, k);
    case Freed(b) =>
      FreeContent(s, b, q, k);
      FoundByBlock(s, b);
    case Unrefd(p, b) => UnrefContent(s, p, b, q, k);
    case _ =>
  }

  lemma CommittingContent(s: State, e: Event, q: nat, k: nat)
    requires Inv(s) && Legal(s, e) && q < |s.objs| && (e.Dirtied? || e.Wrote? || e.Put?)
    ensures Inv(Next(s, e)) && |Next(s, e).objs| == |s.objs|
    ensures Logical(Next(s, e), q, k) == if Commits(s, e, q, k) then Committed(s, e) else Logical(s, q, k)
  {
    match e
    case Dirtied(b) => DirtyContent(s, b, q, k);
    case Wrote(b) => WriteContent(s, b, q, k);
    case Put(b, data) => PutContent(s, b, data, q, k);
    case _ =>
  }

  /** Writing a buffer back changes the content exactly if the buffer was changed and not marked dirty. */
  lemma WriteBackKeepsContent(s: State, b: nat)
    requires Inv(s) && Listed(s, b)
    ensures var o, k := s.bufs[b].obj, s.bufs[b].blk;
      Inv(Write(s, b)) && (Logical(Write(s, b), o, k) == Logical(s, o, k) <==> !Stale(s, b))
  {
    Transparency(s, Wrote(b), s.bufs[b].obj, s.bufs[b].blk);
    FoundByBlock(s, b);
  }

  // ----- What clients read -----

  /** A clean buffer whose data is not that of the block: changed without being marked dirty, or never read. */
  ghost predicate Stale(s: State, b: nat) {
    Listed(s, b) && !s.bufs[b].dirty && s.bufs[b].data != OnDisk(s.objs[s.bufs[b].obj], s.bufs[b].blk)
  }

  /** A buffer that is not stale has the content of its block. */
  lemma ReadsContent(s: State, b: nat)
    requires Places(s) && Listed(s, b)
    ensures s.bufs[b].data == Logical(s, s.bufs[b].obj, s.bufs[b].blk) <==> !Stale(s, b)
  {
    FoundByBlock(s, b);
  }

  /** A new buffer has the content exactly if it was read, or there was nothing to read. */
  lemma CreatedReadsContent(s: State, p: nat, o: nat, blk: nat, read: bool)
    requires Places(s) && HasRoom(s.tables, p) && CanEnter(s, o, blk, read)
    ensures Places(Create(s, p, o, blk, read))
    ensures var t := Create(s, p, o, blk, read); var b := s.unused[|s.unused| - 1];
      && Cached(t, o, blk) == Some(b)
      && (t.bufs[b].data == Logical(t, o, blk) <==> read || OnDisk(s.objs[o], blk) == Zeros(s.objs[o].blksize))
  {
    var t, b := Create(s, p, o, blk, read), s.unused[|s.unused| - 1];
    CreateKeepsPlaces(s, p, o, blk, read);
    FoundByBlock(t, b);
  }

  lemma ReuseStale(s: State, p: nat, o: nat, blk: nat, b: nat)
    requires Inv(s) && Legal(s, Reused(p, o, blk)) && b < |s.bufs|
    ensures Stale(Reuse(s, p, o, blk), b) ==> Stale(s, b)
  {
    var t := Reuse(s, p, o, blk);
    ReuseKeepsPlaces(s, p, o, blk);
    SameListed(s, t, b);
  }

  lemma CreateStale(s: State, p: nat, o: nat, blk: nat, read: bool, b: nat)
    requires Inv(s) && Legal(s, Created(p, o, blk, read)) && b < |s.bufs|
    ensures Stale(Create(s, p, o, blk, read), b) ==> Stale(s, b) || (!read && b == s.unused[|s.unused| - 1])
  {
    CreateKeepsPlaces(s, p, o, blk, read);
  }

  lemma FreeStale(s: State, d: nat, b: nat)
    requires Inv(s) && Legal(s, Freed(d)) && b < |s.bufs|
    ensures Stale(Free(s, d), b) ==> Stale(s, b)
  {
    FreeKeepsPlaces(s, d);
  }

  /** Changes of buffer d alone, and of the block on disk that d is for. */
  lemma OtherStale(s: State, t: State, d: nat, b: nat)
    requires Inv(s) && SameLists(s, t) && Listed(s, d) && b < |s.bufs| && b != d
    requires t.bufs[b].dirty == s.bufs[b].dirty && t.bufs[b].data == s.bufs[b].data
    requires forall o, k :: 0 <= o < |s.objs| && 0 <= k && !(o == s.bufs[d].obj && k == s.bufs[d].blk) ==>
      OnDisk(t.objs[o], k) == OnDisk(s.objs[o], k)
    ensures Stale(t, b) ==> Stale(s, b)
  {
    SameListsKeepPlaces(s, t);
    SameListed(s, t, b);
    if Listed(s, b) { FoundByBlock(s, b); }
    FoundByBlock(s, d);
  }

  /** What can make a buffer stale, and what ends it. */
  lemma StaleOnlyByClients(s: State, e: Event, b: nat)
    requires Inv(s) && Legal(s, e) && b < |s.bufs|
    ensures Stale(Next(s, e), b) ==>
      || (Stale(s, b) && e != Dirtied(b) && e != Wrote(b)) || (e.Put? && e.b == b)
      || (e.Created? && !e.read && b == s.unused[|s.unused| - 1])
  {
    var t := Next(s, e);
    match e
    case Reused(p, o, blk) => ReuseStale(s, p, o, blk, b);
    case Created(p, o, blk, read) => CreateStale(s, p, o, blk, read, b);
    case Failed(f) =>
      FailKeepsInv(s, f);
      Unlisted(s);
    case Freed(d) => FreeStale(s, d, b);
    case Unrefd(p, d) =>
      ReferencedIsListed(s, p, d);
      if d != b { OtherStale(s, t, d, b); } else { SameListsKeepPlaces(s, t); SameListed(s, t, b); }
    case Dirtied(d) => if d != b { OtherStale(s, t, d, b); }
    case Wrote(d) => if d != b { OtherStale(s, t, d, b); }
    case Put(d, _) => if d != b { OtherStale(s, t, d, b); }
  }

  // ----- Runs -----

  ghost predicate StepOf(s: State, e: Event, t: State) {
    Inv(s) ==> Legal(s, e) && t == Next(s, e)
  }

  ghost predicate IsRun(run: seq<State>, events: seq<Event>) {
    |run| == |events| + 1 && forall i :: 0 <= i < |events| ==> StepOf(run[i], events[i], run[i + 1])
  }

  lemma {:induction false} RunKeepsInv(run: seq<State>, events: seq<Event>, n: nat)
    requires IsRun(run, events) && Inv(run[0]) && n < |run|
    ensures Inv(run[n]) && |run[n].objs| == |run[0].objs| && |run[n].bufs| == |run[0].bufs|
  {
    if n > 0 {
      RunKeepsInv(run, events, n - 1);
      assert StepOf(run[n - 1], events[n - 1], run[n]);
      NextKeepsInv(run[n - 1], events[n - 1]);
    }
  }

  lemma StepKeepsContent(s: State, e: Event, t: State, o: nat, k: nat)
    requires Inv(s) && StepOf(s, e, t) && o < |s.objs| && !Commits(s, e, o, k)
    ensures Inv(t) && |t.objs| == |s.objs| && Logical(t, o, k) == Logical(s, o, k)
  {
    Transparency(s, e, o, k);
  }

  /** The content of a block stays the same over any stretch of a run that commits nothing to it. */
  lemma {:induction false} RunKeepsContent(run: seq<State>, events: seq<Event>, i: nat, j: nat, o: nat, k: nat)
    requires IsRun(run, events) && Inv(run[0]) && i <= j < |run| && o < |run[0].objs|
    requires forall n :: i <= n < j ==> !Commits(run[n], events[n], o, k)
    ensures Inv(run[i]) && Inv(run[j]) && |run[i].objs| == |run[0].objs| == |run[j].objs|
    ensures Logical(run[j], o, k) == Logical(run[i], o, k)
    decreases j - i
  {
    RunKeepsInv(run, events, i);
    RunKeepsInv(run, events, j);
    if i < j {
      RunKeepsContent(run, events, i, j - 1, o, k);
      StepKeepsContent(run[j - 1], events[j - 1], run[j], o, k);
    }
  }

  /** Has a client changed the buffer, or got it unread, without marking it dirty or writing it since? */
  ghost predicate Open(run: seq<State>, events: seq<Event>, n: nat, b: nat)
    requires |run| == |events| + 1 && n < |run|
  {
    if n == 0 then Stale(run[0], b)
    else match events[n - 1]
      case Dirtied(d) => d != b && Open(run, events, n - 1, b)
      case Wrote(d) => d != b && Open(run, events, n - 1, b)
      case Put(d, _) => d == b || Open(run, events, n - 1, b)
      case Created(_, _, _, read) =>
        var unused := run[n - 1].unused;
        (!read && unused != [] && b == unused[|unused| - 1]) || Open(run, events, n - 1, b)
      case _ => Open(run, events, n - 1, b)
  }

  lemma {:induction false} StaleIsOpen(run: seq<State>, events: seq<Event>, n: nat, b: nat)
    requires IsRun(run, events) && Inv(run[0]) && n < |run| && b < |run[0].bufs|
    ensures Stale(run[n], b) ==> Open(run, events, n, b)
  {
    if n > 0 {
      StaleIsOpen(run, events, n - 1, b);
      RunKeepsInv(run, events, n - 1);
      assert StepOf(run[n - 1], events[n - 1], run[n]);
      StaleOnlyByClients(run[n - 1], events[n - 1], b);
    }
  }

  /** In every run a buffer that no client has left open holds the content of its block. */
  lemma CacheReadsContent(run: seq<State>, events: seq<Event>, n: nat, b: nat)
    requires IsRun(run, events) && Inv(run[0]) && n < |run| && b < |run[0].bufs|
    requires Listed(run[n], b) && !Open(run, events, n, b)
    ensures Inv(run[n]) && run[n].bufs[b].data == Logical(run[n], run[n].bufs[b].obj, run[n].bufs[b].blk)
  {
    RunKeepsInv(run, events, n);
    StaleIsOpen(run, events, n, b);
    ReadsContent(run[n], b);
  }

  /** Without dirty buffers the driver has everything. */
  lemma FlushedIsOnDisk(s: State, o: nat, k: nat)
    requires Inv(s) && o < |s.objs| && DirtySet(s, o) == {}
    ensures Logical(s, o, k) == OnDisk(s.objs[o], k)
  {
    forall b | 0 <= b < |s.bufs| ensures !HoldsDirty(s, o, k, b) {
      assert b !in DirtySet(s, o);
    }
    DiskHasContent(s, o, k);
  }
}
