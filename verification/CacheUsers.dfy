/**
 What clients of the cache can rely on: the content of blocks, and that a buffer to which some process refers
 stays the buffer of its block. The count of references is a byte; a cleanup takes a buffer for idle if the
 byte is 0, which it is for any multiple of 256 references.
 */
module CacheUsers {
  import opened Common
  import opened Queue
  import opened Cache
  import opened CacheSteps
  import opened CacheContent

  /** Clients see the same content in all blocks. */
  ghost predicate SameForClients(s: State, t: State)
    requires Places(s) && Places(t)
  {
    |t.objs| == |s.objs| && forall q: nat, k: nat :: q < |s.objs| ==> Logical(t, q, k) == Logical(s, q, k)
  }

  /** Freeing a buffer changes no content exactly if it is clean or holds what the driver has. */
  lemma FreeForClients(s: State, b: nat)
    requires Places(s) && Listed(s, b)
    ensures Places(Free(s, b)) && (SameForClients(s, Free(s, b)) <==> NothingToLose(s, b))
  {
    FreeKeepsPlaces(s, b);
    FoundByBlock(s, b);
    forall q: nat, k: nat | q < |s.objs|
      ensures Logical(Free(s, b), q, k) == if IsFor(s, b, q, k) then OnDisk(s.objs[q], k) else Logical(s, q, k)
    {
      FreeContent(s, b, q, k);
    }
    var o, k := s.bufs[b].obj, s.bufs[b].blk;
    assert Logical(s, o, k) == if s.bufs[b].dirty then s.bufs[b].data else OnDisk(s.objs[o], k);
  }

  ghost predicate NothingToLose(s: State, b: nat)
    requires Listed(s, b)
  {
    s.bufs[b].dirty ==> s.bufs[b].data == OnDisk(s.objs[s.bufs[b].obj], s.bufs[b].blk)
  }

  lemma CreateForClients(s: State, p: nat, o: nat, blk: nat, read: bool)
    requires Places(s) && HasRoom(s.tables, p) && CanEnter(s, o, blk, read)
    ensures Places(Create(s, p, o, blk, read)) && SameForClients(s, Create(s, p, o, blk, read))
  {
    CreateKeepsPlaces(s, p, o, blk, read);
    forall q: nat, k: nat | q < |s.objs| ensures Logical(Create(s, p, o, blk, read), q, k) == Logical(s, q, k) {
      CreateContent(s, p, o, blk, read, q, k);
    }
  }

  lemma FailForClients(s: State, f: Buf)
    requires Places(s) && s.unused != []
    ensures Places(Fail(s, f)) && SameForClients(s, Fail(s, f))
  {
    FailKeepsPlaces(s, f);
    forall q: nat, k: nat | q < |s.objs| ensures Logical(Fail(s, f), q, k) == Logical(s, q, k) {
      FailContent(s, f, q, k);
    }
  }

  // ----- Referenced buffers -----

  /** If anybody refers to the buffer in s, it is still the buffer of the same block in t. */
  ghost predicate UserKept(s: State, t: State, b: nat)
    requires b < |s.bufs|
  {
    Refs(s.tables, b) > 0 ==> Listed(t, b) && t.bufs[b].obj == s.bufs[b].obj && t.bufs[b].blk == s.bufs[b].blk
  }

  ghost predicate UsersKept(s: State, t: State) {
    |t.bufs| == |s.bufs| && forall b :: 0 <= b < |s.bufs| ==> UserKept(s, t, b)
  }

  lemma UsersKeptInTurn(s: State, t: State, u: State)
    requires UsersKept(s, t) && UsersKept(t, u) && t.tables == s.tables
    ensures UsersKept(s, u)
  {
    forall b | 0 <= b < |s.bufs| ensures UserKept(s, u, b) {
      assert UserKept(s, t, b) && UserKept(t, u, b);
    }
  }

  lemma UsersStay(s: State)
    requires Inv(s)
    ensures UsersKept(s, s)
  {
    forall b | 0 <= b < |s.bufs| ensures UserKept(s, s, b) {
      assert RefsOk(s, b);
    }
  }

  /** No event takes a buffer away from those who refer to it. */
  lemma NextKeepsUsers(s: State, e: Event)
    requires Inv(s) && Legal(s, e)
    ensures UsersKept(s, Next(s, e))
  {
    var t := Next(s, e);
    forall b | 0 <= b < |s.bufs| ensures UserKept(s, t, b) {
      assert RefsOk(s, b);
      match e
      case Reused(p, o, blk) => ReuseKeepsUser(s, p, o, blk, b);
      case Created(p, o, blk, read) => CreateKeepsPlaces(s, p, o, blk, read);
      case Failed(f) =>
        FailKeepsInv(s, f);
        Unlisted(s);
      case Freed(d) => FreeKeepsPlaces(s, d);
      case _ =>
        SameListsKeepPlaces(s, t);
        SameListed(s, t, b);
    }
  }

  lemma ReuseKeepsUser(s: State, p: nat, o: nat, blk: nat, b: nat)
    requires Inv(s) && Legal(s, Reused(p, o, blk)) && b < |s.bufs| && RefsOk(s, b)
    ensures UserKept(s, Reuse(s, p, o, blk), b)
  {
    var t := Reuse(s, p, o, blk);
    ReuseKeepsPlaces(s, p, o, blk);
    SameListed(s, t, b);
  }

  /** In every run a buffer stays that of its block for as long as anybody refers to it. */
  lemma {:induction false} RunKeepsUsers(run: seq<State>, events: seq<Event>, i: nat, j: nat, b: nat)
    requires IsRun(run, events) && Inv(run[0]) && i <= j < |run| && b < |run[0].bufs|
    requires forall n :: i <= n <= j ==> Refs(run[n].tables, b) > 0
    ensures b < |run[i].bufs| && b < |run[j].bufs| && Listed(run[j], b)
    ensures run[j].bufs[b].obj == run[i].bufs[b].obj && run[j].bufs[b].blk == run[i].bufs[b].blk
    decreases j - i
  {
    RunKeepsInv(run, events, i);
    RunKeepsInv(run, events, j);
    assert RefsOk(run[j], b);
    if i < j {
      RunKeepsUsers(run, events, i, j - 1, b);
      RunKeepsInv(run, events, j - 1);
      assert StepOf(run[j - 1], events[j - 1], run[j]);
      NextKeepsUsers(run[j - 1], events[j - 1]);
      assert UserKept(run[j - 1], run[j], b);
    }
  }

  // ----- Counts that wrap around -----

  /** A clean buffer whose count is 0 although somebody refers to it. */
  ghost predicate Wrapped(s: State, b: nat) {
    Listed(s, b) && !s.bufs[b].dirty && Refs(s.tables, b) > 0 && Refs(s.tables, b) % 0x100 == 0
  }

  /** The byte is right exactly below 256 references, and 0 in spite of references exactly for multiples of 256. */
  lemma CountWraps(s: State, b: nat)
    requires Inv(s) && Listed(s, b)
    ensures s.bufs[b].refcnt as int == Refs(s.tables, b) <==> Refs(s.tables, b) < 0x100
    ensures Wrapped(s, b) <==> !s.bufs[b].dirty && s.bufs[b].refcnt == 0 && Refs(s.tables, b) > 0
  {
    assert RefsOk(s, b);
  }

  /** Freeing a buffer takes no buffer away from its users, and keeps the accounting, exactly under these conditions. */
  lemma FreeKeepsUsersExactly(s: State, b: nat)
    requires Inv(s) && Listed(s, b)
    ensures UsersKept(s, Free(s, b)) <==> Refs(s.tables, b) == 0
    ensures Inv(Free(s, b)) <==> Refs(s.tables, b) == 0 && !s.bufs[b].dirty
  {
    FreeKeepsInvExactly(s, b);
    FreeKeepsPlaces(s, b);
    forall d | 0 <= d < |s.bufs| ensures UserKept(s, Free(s, b), d) <==> Refs(s.tables, d) > 0 ==> d != b {
      assert RefsOk(s, d);
    }
  }

  // ----- What bcleanup leaves -----

  predicate Busy(b: Buf) { b.refcnt != 0 || b.dirty }

  /** The busy buffers of the first n places of a list, in order. */
  function BusyOnes(bufs: seq<Buf>, list: seq<nat>, n: nat): seq<nat>
    requires InRange(list, |bufs|) && n <= |list|
  {
    if n == 0 then [] else BusyOnes(bufs, list, n - 1) + if Busy(bufs[list[n - 1]]) then [list[n - 1]] else []
  }

  /** What bcleanup leaves of a list. */
  function Survivors(bufs: seq<Buf>, list: seq<nat>): seq<nat>
    requires InRange(list, |bufs|)
  {
    BusyOnes(bufs, list, |list|)
  }

  lemma {:induction false} BusySamePrefix(bufs: seq<Buf>, a: seq<nat>, b: seq<nat>, n: nat)
    requires InRange(a, |bufs|) && InRange(b, |bufs|) && n <= |a| && n <= |b| && a[..n] == b[..n]
    ensures BusyOnes(bufs, a, n) == BusyOnes(bufs, b, n)
  {
    if n > 0 {
      assert a[n - 1] == a[..n][n - 1] == b[..n][n - 1] == b[n - 1];
      assert a[..n - 1] == a[..n][..n - 1] == b[..n - 1];
      BusySamePrefix(bufs, a, b, n - 1);
    }
  }

  /** Taking an idle buffer out of the list leaves the busy ones. */
  lemma {:induction false} BusyWithout(bufs: seq<Buf>, list: seq<nat>, k: nat, n: nat)
    requires InRange(list, |bufs|) && k < n <= |list| && !Busy(bufs[list[k]])
    ensures InRange(RemoveAt(list, k), |bufs|) && BusyOnes(bufs, RemoveAt(list, k), n - 1) == BusyOnes(bufs, list, n)
  {
    var r := RemoveAt(list, k);
    if n == k + 1 {
      assert r[..k] == list[..k];
      BusySamePrefix(bufs, r, list, k);
    } else {
      BusyWithout(bufs, list, k, n - 1);
      assert r[n - 2] == list[n - 1];
    }
  }

  lemma {:induction false} AllBusy(bufs: seq<Buf>, list: seq<nat>, n: nat)
    requires InRange(list, |bufs|) && n <= |list| && forall i :: 0 <= i < n ==> Busy(bufs[list[i]])
    ensures BusyOnes(bufs, list, n) == list[..n]
  {
    if n > 0 {
      AllBusy(bufs, list, n - 1);
      assert list[..n] == list[..n - 1] + [list[n - 1]];
    }
  }

  /** No record is left, and none can be freed. */
  ghost predicate Exhausted(s: State) {
    s.unused == [] && forall b :: 0 <= b < |s.bufs| ==> Busy(s.bufs[b])
  }

  lemma {:induction false} BusyAreMembers(bufs: seq<Buf>, list: seq<nat>, n: nat)
    requires InRange(list, |bufs|) && n <= |list|
    ensures forall x :: x in BusyOnes(bufs, list, n) <==> x in list[..n] && Busy(bufs[x])
  {
    if n > 0 {
      BusyAreMembers(bufs, list, n - 1);
      assert list[..n] == list[..n - 1] + [list[n - 1]];
    }
  }

  /** The object's list in t is what bcleanup leaves of that in s. */
  ghost predicate CleanedList(s: State, t: State, o: nat) {
    && o < |s.objs| == |t.objs| && InRange(s.objs[o].list, |s.bufs|)
    && t.objs[o].list == Survivors(s.bufs, s.objs[o].list)
  }

  /** A cleanup of all objects fails to bring back a record exactly if all are busy. */
  lemma Refilled(s: State, t: State)
    requires Places(s) && Places(t) && s.unused == [] && t.bufs == s.bufs && |t.objs| == |s.objs|
    requires forall o :: 0 <= o < |s.objs| ==> CleanedList(s, t, o)
    ensures t.unused == [] <==> Exhausted(s)
  {
    if t.unused == [] {
      forall b | 0 <= b < |s.bufs| ensures Busy(s.bufs[b]) {
        var o := t.bufs[b].obj;
        assert Listed(t, b) && CleanedList(s, t, o);
        BusyAreMembers(s.bufs, s.objs[o].list, |s.objs[o].list|);
      }
    } else {
      var b := t.unused[0];
      var o := s.bufs[b].obj;
      assert Listed(s, b) && CleanedList(s, t, o) && ListOk(t, o);
      BusyAreMembers(s.bufs, s.objs[o].list, |s.objs[o].list|);
      assert b !in t.objs[o].list;
    }
  }

  /** A cleanup does not bring in blocks. */
  lemma StillNotCached(s: State, t: State, o: nat, blk: nat)
    requires Places(s) && Places(t) && o < |s.objs| == |t.objs| && t.bufs == s.bufs && Cached(s, o, blk).None?
    requires InRange(s.objs[o].list, |s.bufs|)
    requires t.objs[o] == s.objs[o] || t.objs[o] == s.objs[o].(list := Survivors(s.bufs, s.objs[o].list))
    ensures Cached(t, o, blk).None?
  {
    var list := s.objs[o].list;
    BusyAreMembers(s.bufs, list, |list|);
    if Cached(t, o, blk).Some? {
      FoundIsListed(t, o, blk);
      var b := Cached(t, o, blk).value;
      assert b in list;
      FoundByBlock(s, b);
    }
  }

  /** The lists of these objects have been cleaned up, and all else but the pool is as before. */
  ghost predicate CleanedObjs(s: State, t: State, objs: set<nat>) {
    && t.bufs == s.bufs && t.tables == s.tables && |t.objs| == |s.objs|
    && forall o :: 0 <= o < |s.objs| ==> if o in objs then CleanedList(s, t, o) else t.objs[o].list == s.objs[o].list
  }

  /** No buffer of these objects is taken for idle in error. */
  ghost predicate NoneWrapped(s: State, objs: set<nat>) {
    forall b :: 0 <= b < |s.bufs| && Wrapped(s, b) ==> s.bufs[b].obj !in objs
  }

  lemma SurvivesUnlessIdle(s: State, t: State, objs: set<nat>, b: nat)
    requires Inv(s) && CleanedObjs(s, t, objs) && Listed(s, b)
    ensures Listed(t, b) <==> Busy(s.bufs[b]) || s.bufs[b].obj !in objs
  {
    var o := s.bufs[b].obj;
    if o in objs {
      assert CleanedList(s, t, o);
      BusyAreMembers(s.bufs, s.objs[o].list, |s.objs[o].list|);
    }
  }

  /** A cleanup takes no buffer away from those who refer to it exactly if none of the buffers has a wrapped count. */
  lemma CleanupKeepsUsersExactly(s: State, t: State, objs: set<nat>)
    requires Inv(s) && CleanedObjs(s, t, objs)
    ensures UsersKept(s, t) <==> NoneWrapped(s, objs)
    ensures Inv(t) ==> NoneWrapped(s, objs)
  {
    forall b | 0 <= b < |s.bufs| ensures UserKept(s, t, b) <==> Wrapped(s, b) ==> s.bufs[b].obj !in objs {
      assert RefsOk(s, b);
      if Listed(s, b) {
        CountWraps(s, b);
        SurvivesUnlessIdle(s, t, objs, b);
      }
    }
    if Inv(t) {
      forall b | 0 <= b < |s.bufs| ensures UserKept(s, t, b) {
        assert RefsOk(t, b);
      }
    }
  }

  ghost predicate NobodyWrapped(s: State) {
    forall b :: 0 <= b < |s.bufs| ==> !Wrapped(s, b)
  }

  /** An idle buffer whose count has not wrapped around is unused. */
  lemma IdleIsUnused(s: State, o: nat, b: nat)
    requires Inv(s) && NoneWrapped(s, {o}) && Listed(s, b) && s.bufs[b].obj == o && !Busy(s.bufs[b])
    ensures Refs(s.tables, b) == 0
  {
    CountWraps(s, b);
  }

  lemma FreeWrapsNone(s: State, b: nat)
    requires Places(s) && Listed(s, b)
    ensures forall d :: Wrapped(Free(s, b), d) ==> Wrapped(s, d)
  {
    FreeKeepsPlaces(s, b);
  }

  lemma SameWrapped(s: State, t: State, o: nat)
    requires NobodyWrapped(s) && t.bufs == s.bufs && t.tables == s.tables && o < |s.objs| == |t.objs|
    requires t.objs[o] == s.objs[o]
    ensures NoneWrapped(t, {o})
  {
    forall b | 0 <= b < |t.bufs| && Wrapped(t, b) ensures t.bufs[b].obj !in {o} {
      assert !Wrapped(s, b);
    }
  }

  /** Does the cleanup that bcreate starts for want of records take a buffer away from its users? */
  ghost predicate Shaken(s: State) { s.unused == [] && !NobodyWrapped(s) }

  /** What has been lost stays lost if record d is then used for a block that was not cached. */
  lemma LostForGood(s: State, t: State, u: State, o: nat, blk: nat, d: nat)
    requires Inv(s) && o < |s.objs| && Cached(s, o, blk).None? && !UsersKept(s, t)
    requires |t.bufs| == |s.bufs| == |u.bufs|
    requires forall b :: 0 <= b < |s.bufs| && Listed(u, b) ==>
      (Listed(t, b) && u.bufs[b] == t.bufs[b]) || (b == d && u.bufs[b].obj == o && u.bufs[b].blk == blk)
    ensures !UsersKept(s, u)
  {
    var b :| 0 <= b < |s.bufs| && !UserKept(s, t, b);
    assert RefsOk(s, b);
    FoundByBlock(s, b);
    assert !UserKept(s, u, b);
  }

  /** bcreate puts back a record, or uses it for a block that was not cached, after a cleanup from s to t. */
  ghost predicate Prepared(s: State, t: State, o: nat, blk: nat) {
    && Inv(s) && Places(t) && t.tables == s.tables && |t.bufs| == |s.bufs| && |t.objs| == |s.objs|
    && o < |s.objs| && Cached(s, o, blk).None? && t.unused != [] && blk < 0xffff
    && (UsersKept(s, t) ==> Inv(t))
  }

  lemma FailAfter(s: State, t: State, o: nat, blk: nat, f: Buf)
    requires Prepared(s, t, o, blk) && GoesBack(t, f)
    ensures UsersKept(s, Fail(t, f)) <==> UsersKept(s, t)
  {
    if UsersKept(s, t) {
      NextKeepsUsers(t, Failed(f));
      UsersKeptInTurn(s, t, Fail(t, f));
    } else {
      FailKeepsPlaces(t, f);
      Unlisted(t);
      LostForGood(s, t, Fail(t, f), o, blk, t.unused[|t.unused| - 1]);
    }
  }

  lemma CreateAfter(s: State, t: State, p: nat, o: nat, blk: nat, read: bool)
    requires Prepared(s, t, o, blk) && HasRoom(t.tables, p) && CanEnter(t, o, blk, read)
    ensures UsersKept(s, Create(t, p, o, blk, read)) <==> UsersKept(s, t)
  {
    var u := Create(t, p, o, blk, read);
    if UsersKept(s, t) {
      NextKeepsUsers(t, Created(p, o, blk, read));
      UsersKeptInTurn(s, t, u);
    } else {
      CreateKeepsPlaces(t, p, o, blk, read);
      LostForGood(s, t, u, o, blk, t.unused[|t.unused| - 1]);
    }
  }
}
