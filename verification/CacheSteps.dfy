/**
 Every event of the cache keeps its invariant: records stay in one place, at most one buffer per block, and
 the counters of buffers in use, of dirty buffers and of references are right.
 */
module CacheSteps {
  import opened Bytes
  import opened Common
  import opened Queue
  import opened Cache

  // ----- Lists -----

  ghost predicate SameMembers(a: seq<nat>, b: seq<nat>) {
    (forall x :: x in a ==> x in b) && forall x :: x in b ==> x in a
  }

  lemma ToFrontMembers(list: seq<nat>, i: nat)
    requires i < |list|
    ensures SameMembers(list, ToFront(list, i))
  {
    var r := ToFront(list, i);
    forall x | x in list ensures x in r {
      var j :| 0 <= j < |list| && list[j] == x;
      assert r[if j == i then 0 else if j < i then j + 1 else j] == x;
    }
  }

  lemma RemovedMembers(list: seq<nat>, k: nat)
    requires k < |list| && Distinct(list)
    ensures list[k] !in RemoveAt(list, k)
    ensures forall x :: x in RemoveAt(list, k) ==> x in list
    ensures forall x :: x in list && x != list[k] ==> x in RemoveAt(list, k)
  {
    var r := RemoveAt(list, k);
    forall x | x in list && x != list[k] ensures x in r {
      var j :| 0 <= j < |list| && list[j] == x;
      assert r[if j < k then j else j - 1] == x;
    }
  }

  /** A list made from some places of a good list, each used once, is good. */
  lemma Selected(s: State, t: State, o: nat, m: seq<nat>)
    requires o < |s.objs| == |t.objs| && ListOk(s, o) && |s.bufs| == |t.bufs| && |m| == |t.objs[o].list| && Distinct(m)
    requires forall j :: 0 <= j < |m| ==> m[j] < |s.objs[o].list| && t.objs[o].list[j] == s.objs[o].list[m[j]]
    requires forall i :: 0 <= i < |s.objs[o].list| ==>
      var b := s.objs[o].list[i]; t.bufs[b].obj == s.bufs[b].obj && t.bufs[b].blk == s.bufs[b].blk
    requires forall j :: 0 <= j < |t.objs[o].list| ==> t.objs[o].list[j] !in t.unused
    ensures ListOk(t, o)
  {
    var a, b := s.objs[o].list, t.objs[o].list;
    forall i, j | 0 <= i < j < |b| ensures b[i] != b[j] && t.bufs[b[i]].blk != t.bufs[b[j]].blk {
      assert m[i] != m[j];
      if m[i] < m[j] {
        assert a[m[i]] != a[m[j]];
      } else {
        assert a[m[j]] != a[m[i]];
      }
    }
  }

  function FrontMap(n: nat, i: nat): (m: seq<nat>)
    requires i < n
    ensures |m| == n && Distinct(m)
  {
    seq(n, j requires 0 <= j < n => if j == 0 then i else if j - 1 < i then j - 1 else j)
  }

  function RemoveMap(n: nat, k: nat): (m: seq<nat>)
    requires k < n
    ensures |m| == n - 1 && Distinct(m)
  {
    seq(n - 1, j requires 0 <= j < n - 1 => if j < k then j else j + 1)
  }

  function SameMap(n: nat): (m: seq<nat>)
    ensures |m| == n && Distinct(m)
  {
    seq(n, j requires 0 <= j < n => j)
  }

  // ----- Bytes that count -----

  lemma ModUp(n: nat, c: Byte)
    requires c as int == n % 0x100
    ensures Up(c) as int == (n + 1) % 0x100
  {
    assert n == 0x100 * (n / 0x100) + c as int;
    if c == 0xff { assert n + 1 == 0x100 * (n / 0x100 + 1); }
  }

  lemma ModDown(n: nat, c: Byte)
    requires n >= 1 && c as int == n % 0x100
    ensures Down(c) as int == (n - 1) % 0x100
  {
    assert n == 0x100 * (n / 0x100) + c as int;
    if c == 0 { assert n - 1 == 0x100 * (n / 0x100 - 1) + 0xff; }
  }

  lemma OneMore(a: set<nat>, b: nat, c: Byte)
    requires b !in a && c as int == |a| % 0x100
    ensures Up(c) as int == |a + {b}| % 0x100
  {
    ModUp(|a|, c);
  }

  // ----- Reusing a buffer -----

  /** Buffers keep their homes and blocks, and nothing becomes unused. */
  ghost predicate SameHomes(s: State, t: State) {
    && |t.objs| == |s.objs| && |t.bufs| == |s.bufs| && t.unused == s.unused
    && forall i :: 0 <= i < |s.bufs| ==> t.bufs[i].obj == s.bufs[i].obj && t.bufs[i].blk == s.bufs[i].blk
  }

  lemma FrontListOk(s: State, t: State, o: nat, i: nat)
    requires o < |s.objs| && ListOk(s, o) && SameHomes(s, t) && i < |s.objs[o].list|
    requires t.objs[o].list == ToFront(s.objs[o].list, i)
    ensures ListOk(t, o) && SameMembers(s.objs[o].list, t.objs[o].list)
  {
    ToFrontMembers(s.objs[o].list, i);
    Selected(s, t, o, FrontMap(|s.objs[o].list|, i));
  }

  lemma SameListOk(s: State, t: State, o: nat)
    requires o < |s.objs| && ListOk(s, o) && SameHomes(s, t) && t.objs[o].list == s.objs[o].list
    ensures ListOk(t, o)
  {
    Selected(s, t, o, SameMap(|s.objs[o].list|));
  }

  lemma TouchKeepsLists(s: State, o: nat, blk: nat, q: nat)
    requires Places(s) && o < |s.objs| && Cached(s, o, blk).Some? && q < |s.objs|
    ensures ListOk(Touch(s, o, blk), q) && SameMembers(s.objs[q].list, Touch(s, o, blk).objs[q].list)
  {
    var t := Touch(s, o, blk);
    assert ListOk(s, o) && ListOk(s, q);
    if q == o && s.sortReused {
      FrontListOk(s, t, q, FirstFrom(s.bufs, s.objs[o].list, blk, 0).value);
    } else {
      SameListOk(s, t, q);
    }
  }

  /** States whose lists have the same members and whose buffers are at home in the same objects. */
  ghost predicate SamePlaces(s: State, t: State) {
    && t.unused == s.unused && |t.bufs| == |s.bufs| && |t.objs| == |s.objs|
    && (forall b :: 0 <= b < |s.bufs| ==> t.bufs[b].obj == s.bufs[b].obj)
    && forall o :: 0 <= o < |s.objs| ==> SameMembers(s.objs[o].list, t.objs[o].list)
  }

  lemma SameListed(s: State, t: State, b: nat)
    requires SamePlaces(s, t)
    ensures Listed(s, b) <==> Listed(t, b)
  {
  }

  lemma SamePlacesKept(s: State, t: State)
    requires Places(s) && SamePlaces(s, t) && forall o :: 0 <= o < |t.objs| ==> ListOk(t, o)
    ensures Places(t) && ListedSet(t) == ListedSet(s)
  {
    forall b: nat ensures Listed(s, b) <==> Listed(t, b) {
      SameListed(s, t, b);
    }
  }

  lemma TouchKeepsPlaces(s: State, o: nat, blk: nat)
    requires Places(s) && o < |s.objs| && Cached(s, o, blk).Some?
    ensures SamePlaces(s, Touch(s, o, blk)) && Places(Touch(s, o, blk)) && ListedSet(Touch(s, o, blk)) == ListedSet(s)
  {
    var t := Touch(s, o, blk);
    assert ListOk(s, o);
    forall q | 0 <= q < |s.objs| ensures ListOk(t, q) && SameMembers(s.objs[q].list, t.objs[q].list) {
      TouchKeepsLists(s, o, blk, q);
    }
    SamePlacesKept(s, t);
  }

  lemma ReuseKeepsPlaces(s: State, p: nat, o: nat, blk: nat)
    requires Inv(s) && Legal(s, Reused(p, o, blk))
    ensures SamePlaces(s, Reuse(s, p, o, blk)) && Places(Reuse(s, p, o, blk))
    ensures ListedSet(Reuse(s, p, o, blk)) == ListedSet(s)
  {
    TouchKeepsPlaces(s, o, blk);
    OtherTables(Touch(s, o, blk), Reuse(s, p, o, blk));
  }

  /** Tables do not matter to places. */
  lemma OtherTables(s: State, t: State)
    requires Places(s) && t == s.(tables := t.tables)
    ensures Places(t) && ListedSet(t) == ListedSet(s) && forall b: nat :: Listed(t, b) <==> Listed(s, b)
  {
    forall o | 0 <= o < |t.objs| ensures ListOk(t, o) {
      assert ListOk(s, o);
    }
    forall b: nat ensures Listed(t, b) <==> Listed(s, b) {
    }
  }

  lemma ReuseKeepsInv(s: State, p: nat, o: nat, blk: nat)
    requires Inv(s) && Legal(s, Reused(p, o, blk))
    ensures Inv(Reuse(s, p, o, blk))
  {
    var t := Reuse(s, p, o, blk);
    ReuseKeepsPlaces(s, p, o, blk);
    forall b | 0 <= b < |s.bufs| ensures RefsOk(t, b) {
      ReuseRefs(s, p, o, blk, b);
    }
    forall q | 0 <= q < |s.objs| ensures ObjOk(t, q) {
      ReuseCounts(s, p, o, blk, q);
    }
    ReuseEntries(s, p, o, blk);
  }

  lemma ReuseRefs(s: State, p: nat, o: nat, blk: nat, b: nat)
    requires Inv(s) && Legal(s, Reused(p, o, blk)) && b < |s.bufs|
    ensures RefsOk(Reuse(s, p, o, blk), b)
  {
    var t, f := Reuse(s, p, o, blk), Cached(s, o, blk).value;
    assert RefsOk(s, b) && ListOk(s, o);
    ReuseKeepsPlaces(s, p, o, blk);
    Registers(s, p, f, b);
    SameListed(s, t, b);
    if b == f { ModUp(Refs(s.tables, b), s.bufs[b].refcnt); }
  }

  lemma ReuseCounts(s: State, p: nat, o: nat, blk: nat, q: nat)
    requires Inv(s) && Legal(s, Reused(p, o, blk)) && q < |s.objs|
    ensures ObjOk(Reuse(s, p, o, blk), q)
  {
    var t := Reuse(s, p, o, blk);
    assert ObjOk(s, q);
    TouchKeepsLists(s, o, blk, q);
    assert DirtySet(t, q) == DirtySet(s, q);
  }

  lemma ReuseEntries(s: State, p: nat, o: nat, blk: nat)
    requires Inv(s) && Legal(s, Reused(p, o, blk))
    ensures EntriesOk(Reuse(s, p, o, blk))
  {
    assert ListOk(s, o);
    assert TableOk(s.tables[p], |s.bufs|);
  }

  // ----- Changes that leave all lists alone -----

  /** Only counts, data and dirty marks of buffers change, and what objects count and store. */
  ghost predicate SameLists(s: State, t: State) {
    && t.unused == s.unused && |t.bufs| == |s.bufs| && |t.objs| == |s.objs| && t.inUse == s.inUse
    && (forall b :: 0 <= b < |s.bufs| ==> t.bufs[b].obj == s.bufs[b].obj && t.bufs[b].blk == s.bufs[b].blk)
    && forall o :: 0 <= o < |s.objs| ==> t.objs[o].list == s.objs[o].list
  }

  lemma SameListsKeepPlaces(s: State, t: State)
    requires Places(s) && SameLists(s, t)
    ensures Places(t) && ListedSet(t) == ListedSet(s) && SamePlaces(s, t)
  {
    forall o | 0 <= o < |t.objs| ensures ListOk(t, o) {
      assert ListOk(s, o);
      Selected(s, t, o, SameMap(|s.objs[o].list|));
    }
    SamePlacesKept(s, t);
  }

  lemma UnrefKeepsInv(s: State, p: nat, b: nat)
    requires Inv(s) && Legal(s, Unrefd(p, b))
    ensures Inv(Unref(s, p, b))
  {
    var t := Unref(s, p, b);
    SameListsKeepPlaces(s, t);
    ReferencedIsListed(s, p, b);
    forall d | 0 <= d < |s.bufs| ensures RefsOk(t, d) {
      assert RefsOk(s, d);
      EntryUpdate(s.tables, p, EntryOf(s.tables[p], Some(b)).value, None, Some(d));
      SameListed(s, t, d);
      if d == b { ModDown(Refs(s.tables, b), s.bufs[b].refcnt); }
    }
    forall q | 0 <= q < |s.objs| ensures ObjOk(t, q) {
      assert ObjOk(s, q);
      assert DirtySet(t, q) == DirtySet(s, q);
    }
  }

  lemma RefsUntouched(s: State, t: State)
    requires Inv(s) && SameLists(s, t) && t.tables == s.tables
    requires forall b :: 0 <= b < |s.bufs| ==> t.bufs[b].refcnt == s.bufs[b].refcnt
    ensures forall b :: 0 <= b < |t.bufs| ==> RefsOk(t, b)
  {
    SameListsKeepPlaces(s, t);
    forall b | 0 <= b < |t.bufs| ensures RefsOk(t, b) {
      assert RefsOk(s, b);
      SameListed(s, t, b);
    }
  }

  lemma PutKeepsInv(s: State, b: nat, data: Data)
    requires Inv(s) && Legal(s, Put(b, data))
    ensures Inv(Next(s, Put(b, data)))
  {
    var t := Next(s, Put(b, data));
    SameListsKeepPlaces(s, t);
    RefsUntouched(s, t);
    forall q | 0 <= q < |s.objs| ensures ObjOk(t, q) {
      assert ObjOk(s, q);
      assert DirtySet(t, q) == DirtySet(s, q);
    }
  }

  /** A listed buffer belongs to the dirty set of no object but its own. */
  lemma OtherDirtySets(s: State, b: nat, q: nat)
    requires Places(s) && Listed(s, b) && q < |s.objs| && q != s.bufs[b].obj
    ensures b !in s.objs[q].list
  {
    assert ListOk(s, q);
  }

  lemma DirtyCounts(s: State, b: nat, q: nat)
    requires Inv(s) && Listed(s, b) && !s.bufs[b].dirty && q < |s.objs|
    ensures ObjOk(Dirty(s, b), q)
  {
    var t := Dirty(s, b);
    assert ObjOk(s, q);
    if q == s.bufs[b].obj {
      assert DirtySet(t, q) == DirtySet(s, q) + {b};
      OneMore(DirtySet(s, q), b, s.objs[q].dirtybufs);
    } else {
      OtherDirtySets(s, b, q);
      assert DirtySet(t, q) == DirtySet(s, q);
    }
  }

  lemma DirtyKeepsInv(s: State, b: nat)
    requires Inv(s) && Listed(s, b)
    ensures Inv(Dirty(s, b))
  {
    var t := Dirty(s, b);
    if !s.bufs[b].dirty {
      SameListsKeepPlaces(s, t);
      RefsUntouched(s, t);
      forall q | 0 <= q < |s.objs| ensures ObjOk(t, q) {
        DirtyCounts(s, b, q);
      }
    }
  }

  lemma WriteCounts(s: State, b: nat, q: nat)
    requires Inv(s) && Listed(s, b) && q < |s.objs|
    ensures ObjOk(Write(s, b), q)
  {
    var t := Write(s, b);
    assert ObjOk(s, q);
    if q == s.bufs[b].obj {
      assert DirtySet(t, q) == DirtySet(s, q) - {b};
      if s.bufs[b].dirty {
        assert b in DirtySet(s, q);
        ModDown(|DirtySet(s, q)|, s.objs[q].dirtybufs);
      }
    } else {
      OtherDirtySets(s, b, q);
      assert DirtySet(t, q) == DirtySet(s, q);
    }
  }

  lemma WriteKeepsInv(s: State, b: nat)
    requires Inv(s) && Listed(s, b)
    ensures Inv(Write(s, b))
  {
    var t := Write(s, b);
    SameListsKeepPlaces(s, t);
    RefsUntouched(s, t);
    forall q | 0 <= q < |s.objs| ensures ObjOk(t, q) {
      WriteCounts(s, b, q);
    }
  }

  // ----- Freeing and creating -----

  lemma FreeKeepsLists(s: State, b: nat, q: nat)
    requires Places(s) && Listed(s, b) && q < |s.objs|
    ensures ListOk(Free(s, b), q)
  {
    var t, o := Free(s, b), s.bufs[b].obj;
    assert ListOk(s, q);
    var list := s.objs[q].list;
    if q == o {
      RemovedMembers(list, IndexOf(list, b));
      Selected(s, t, q, RemoveMap(|list|, IndexOf(list, b)));
    } else {
      OtherDirtySets(s, b, q);
      Selected(s, t, q, SameMap(|list|));
    }
  }

  lemma FreeMoves(s: State, b: nat, d: nat)
    requires Places(s) && Listed(s, b) && d < |s.bufs|
    ensures Listed(Free(s, b), d) <==> Listed(s, d) && d != b
    ensures d in s.unused || d == b ==> d in Free(s, b).unused
  {
    var t, o := Free(s, b), s.bufs[b].obj;
    assert ListOk(s, o);
    RemovedMembers(s.objs[o].list, IndexOf(s.objs[o].list, b));
    assert t.unused[|s.unused|] == b;
    if d in s.unused {
      var i :| 0 <= i < |s.unused| && s.unused[i] == d;
      assert t.unused[i] == d;
    }
  }

  lemma FreeKeepsPlaces(s: State, b: nat)
    requires Places(s) && Listed(s, b)
    ensures Places(Free(s, b)) && ListedSet(Free(s, b)) == ListedSet(s) - {b} && !Listed(Free(s, b), b)
    ensures forall d :: 0 <= d < |s.bufs| && d != b ==> (Listed(Free(s, b), d) <==> Listed(s, d))
  {
    var t, o := Free(s, b), s.bufs[b].obj;
    assert ListOk(s, o);
    forall q | 0 <= q < |t.objs| ensures ListOk(t, q) {
      FreeKeepsLists(s, b, q);
    }
    forall d | 0 <= d < |s.bufs|
      ensures Listed(t, d) <==> Listed(s, d) && d != b
      ensures d in s.unused || d == b ==> d in t.unused
    {
      FreeMoves(s, b, d);
    }
  }

  /** An unused record does not matter to any list. */
  lemma FailKeepsPlaces(s: State, f: Buf)
    requires Places(s) && s.unused != []
    ensures Places(Fail(s, f)) && forall d :: 0 <= d < |s.bufs| ==> Listed(Fail(s, f), d) == Listed(s, d)
  {
    var t, b := Fail(s, f), s.unused[|s.unused| - 1];
    assert b in s.unused && b in t.unused;
    forall q | 0 <= q < |s.objs| ensures ListOk(t, q) && b !in s.objs[q].list {
      assert ListOk(s, q);
    }
  }

  lemma FailKeepsInv(s: State, f: Buf)
    requires Inv(s) && Legal(s, Failed(f))
    ensures Inv(Fail(s, f)) && forall d :: 0 <= d < |s.bufs| ==> Listed(Fail(s, f), d) == Listed(s, d)
  {
    var t := Fail(s, f);
    FailKeepsPlaces(s, f);
    Unlisted(s);
    forall q | 0 <= q < |s.objs| ensures ObjOk(t, q) {
      assert ObjOk(s, q) && ListOk(s, q) && s.unused[|s.unused| - 1] in s.unused;
      assert DirtySet(t, q) == DirtySet(s, q);
    }
    forall d | 0 <= d < |s.bufs| ensures RefsOk(t, d) {
      assert RefsOk(s, d);
    }
    assert ListedSet(t) == ListedSet(s);
  }

  lemma FreeKeepsInv(s: State, b: nat)
    requires Inv(s) && Legal(s, Freed(b))
    ensures Inv(Free(s, b))
  {
    var t := Free(s, b);
    FreeKeepsPlaces(s, b);
    assert b in ListedSet(s);
    forall d | 0 <= d < |t.bufs| ensures RefsOk(t, d) {
      assert RefsOk(s, d);
    }
    forall q | 0 <= q < |t.objs| ensures ObjOk(t, q) {
      assert ObjOk(s, q) && ListOk(s, q);
      FreeKeepsDirty(s, b, q);
    }
  }

  /** Freeing a buffer keeps the accounting exactly if nobody refers to it and it is clean. */
  lemma FreeKeepsInvExactly(s: State, b: nat)
    requires Inv(s) && Listed(s, b)
    ensures Inv(Free(s, b)) <==> Refs(s.tables, b) == 0 && !s.bufs[b].dirty
  {
    FreeKeepsPlaces(s, b);
    if Refs(s.tables, b) > 0 {
      assert RefsOk(s, b) && !RefsOk(Free(s, b), b);
    } else if s.bufs[b].dirty {
      FreeMiscounts(s, b);
    } else {
      FreeKeepsInv(s, b);
    }
  }

  /** The counter of dirty buffers is not told. */
  lemma FreeMiscounts(s: State, b: nat)
    requires Inv(s) && Listed(s, b) && s.bufs[b].dirty
    ensures !ObjOk(Free(s, b), s.bufs[b].obj)
  {
    var t, o := Free(s, b), s.bufs[b].obj;
    assert ListOk(s, o) && ObjOk(s, o);
    RemovedMembers(s.objs[o].list, IndexOf(s.objs[o].list, b));
    assert DirtySet(t, o) == DirtySet(s, o) - {b} && b in DirtySet(s, o);
    ModDown(|DirtySet(s, o)|, s.objs[o].dirtybufs);
  }

  lemma FreeKeepsDirty(s: State, b: nat, q: nat)
    requires Places(s) && Listed(s, b) && !s.bufs[b].dirty && q < |s.objs|
    ensures DirtySet(Free(s, b), q) == DirtySet(s, q)
  {
    assert ListOk(s, q);
    if q == s.bufs[b].obj { RemovedMembers(s.objs[q].list, IndexOf(s.objs[q].list, b)); }
  }

  lemma EnterKeepsLists(s: State, o: nat, blk: nat, read: bool, q: nat)
    requires Places(s) && CanEnter(s, o, blk, read) && q < |s.objs|
    ensures ListOk(Enter(s, o, blk, read), q)
  {
    var t, b := Enter(s, o, blk, read), s.unused[|s.unused| - 1];
    assert ListOk(s, q) && b in s.unused && b !in t.unused;
    if q == o {
      OneMoreBuffer(s, t, q, b);
    } else {
      Selected(s, t, q, SameMap(|s.objs[q].list|));
    }
  }

  /** A good list with one more buffer at either end, for a block that it had no buffer for. */
  lemma OneMoreBuffer(s: State, t: State, o: nat, b: nat)
    requires o < |s.objs| == |t.objs| && ListOk(s, o) && |s.bufs| == |t.bufs| && b < |t.bufs| && t.bufs[b].obj == o
    requires var list := s.objs[o].list; t.objs[o].list == list + [b] || t.objs[o].list == [b] + list
    requires forall i :: 0 <= i < |s.objs[o].list| ==> var d := s.objs[o].list[i];
      d != b && d !in t.unused && t.bufs[d] == s.bufs[d] && s.bufs[d].blk != t.bufs[b].blk
    requires b !in t.unused
    ensures ListOk(t, o)
  {
    var list, i0 := s.objs[o].list, if t.objs[o].list == s.objs[o].list + [b] then 0 else 1;
    assert forall i :: 0 <= i < |t.objs[o].list| ==>
      t.objs[o].list[i] == if 0 <= i - i0 < |list| then list[i - i0] else b;
  }

  lemma OneMoreMember(list: seq<nat>, b: nat, d: nat)
    ensures b in list + [b] && b in [b] + list
    ensures d != b ==> (d in list + [b] <==> d in list) && (d in [b] + list <==> d in list)
  {
  }

  lemma EnterMoves(s: State, o: nat, blk: nat, read: bool, d: nat)
    requires Places(s) && CanEnter(s, o, blk, read) && d < |s.bufs|
    ensures var t, b := Enter(s, o, blk, read), s.unused[|s.unused| - 1];
      && !Listed(s, b) && Listed(t, b) && (d != b ==> (Listed(t, d) <==> Listed(s, d)))
      && (d in s.unused ==> d in t.unused || d == b)
  {
    Unlisted(s);
    OneMoreMember(s.objs[o].list, s.unused[|s.unused| - 1], d);
    LastOrBefore(s.unused, d);
  }

  lemma Unlisted(s: State)
    requires Places(s) && s.unused != []
    ensures !Listed(s, s.unused[|s.unused| - 1])
  {
    var b := s.unused[|s.unused| - 1];
    if b < |s.bufs| && s.bufs[b].obj < |s.objs| { assert ListOk(s, s.bufs[b].obj) && b in s.unused; }
  }

  lemma LastOrBefore(list: seq<nat>, d: nat)
    requires list != []
    ensures d in list ==> d in list[..|list| - 1] || d == list[|list| - 1]
  {
  }

  lemma EnterKeepsPlaces(s: State, o: nat, blk: nat, read: bool)
    requires Places(s) && CanEnter(s, o, blk, read)
    ensures var t, b := Enter(s, o, blk, read), s.unused[|s.unused| - 1];
      && Places(t) && !Listed(s, b) && Listed(t, b) && ListedSet(t) == ListedSet(s) + {b}
      && forall d :: 0 <= d < |s.bufs| && d != b ==> (Listed(t, d) <==> Listed(s, d))
  {
    var t, b := Enter(s, o, blk, read), s.unused[|s.unused| - 1];
    forall q | 0 <= q < |t.objs| ensures ListOk(t, q) {
      EnterKeepsLists(s, o, blk, read, q);
    }
    forall d | 0 <= d < |s.bufs|
      ensures !Listed(s, b) && Listed(t, b) && (d != b ==> (Listed(t, d) <==> Listed(s, d)))
      ensures d in s.unused ==> d in t.unused || d == b
    {
      EnterMoves(s, o, blk, read, d);
    }
    EnterMoves(s, o, blk, read, b);
  }

  lemma CreateKeepsPlaces(s: State, p: nat, o: nat, blk: nat, read: bool)
    requires Places(s) && HasRoom(s.tables, p) && CanEnter(s, o, blk, read)
    ensures var t, b := Create(s, p, o, blk, read), s.unused[|s.unused| - 1];
      && Places(t) && !Listed(s, b) && Listed(t, b) && ListedSet(t) == ListedSet(s) + {b}
      && forall d :: 0 <= d < |s.bufs| && d != b ==> (Listed(t, d) <==> Listed(s, d))
  {
    EnterKeepsPlaces(s, o, blk, read);
    OtherTables(Enter(s, o, blk, read), Create(s, p, o, blk, read));
  }

  lemma CreateKeepsInv(s: State, p: nat, o: nat, blk: nat, read: bool)
    requires Inv(s) && Legal(s, Created(p, o, blk, read))
    ensures Inv(Create(s, p, o, blk, read))
  {
    var t, b := Create(s, p, o, blk, read), s.unused[|s.unused| - 1];
    CreateKeepsPlaces(s, p, o, blk, read);
    forall d | 0 <= d < |t.bufs| ensures RefsOk(t, d) {
      CreateRefs(s, p, o, blk, read, d);
    }
    forall q | 0 <= q < |t.objs| ensures ObjOk(t, q) {
      CreateCounts(s, p, o, blk, read, q);
    }
  }

  /** One more reference to b. */
  lemma Registers(s: State, p: nat, b: nat, d: nat)
    requires HasRoom(s.tables, p)
    ensures Refs(Register(s, p, b).tables, d) == Refs(s.tables, d) + if d == b then 1 else 0
  {
    EntryUpdate(s.tables, p, EntryOf(s.tables[p], None).value, Some(b), Some(d));
  }

  /** A record that was unused and unreferenced is listed with one reference. */
  lemma OneReference(s: State, t: State, b: nat, d: nat)
    requires d < |s.bufs| == |t.bufs| && RefsOk(s, d) && !Listed(s, b) && (Listed(t, d) <==> Listed(s, d) || d == b)
    requires Refs(t.tables, d) == Refs(s.tables, d) + if d == b then 1 else 0
    requires t.bufs[d].refcnt == if d == b then 1 else s.bufs[d].refcnt
    ensures RefsOk(t, d)
  {
  }

  lemma CreateRefs(s: State, p: nat, o: nat, blk: nat, read: bool, d: nat)
    requires Inv(s) && Legal(s, Created(p, o, blk, read)) && d < |s.bufs|
    ensures RefsOk(Create(s, p, o, blk, read), d)
  {
    var b := s.unused[|s.unused| - 1];
    assert RefsOk(s, d);
    EnterMoves(s, o, blk, read, d);
    EnterMoves(s, o, blk, read, b);
    var u := Enter(s, o, blk, read);
    Registers(u, p, b, d);
    OneReference(s, Register(u, p, b), b, d);
  }

  lemma CreateCounts(s: State, p: nat, o: nat, blk: nat, read: bool, q: nat)
    requires Inv(s) && Legal(s, Created(p, o, blk, read)) && q < |s.objs|
    ensures ObjOk(Create(s, p, o, blk, read), q)
  {
    assert ObjOk(s, q);
    EnterDirtiesNone(s, o, blk, read, q);
    assert DirtySet(Create(s, p, o, blk, read), q) == DirtySet(Enter(s, o, blk, read), q);
  }

  lemma EnterDirtiesNone(s: State, o: nat, blk: nat, read: bool, q: nat)
    requires Places(s) && CanEnter(s, o, blk, read) && q < |s.objs|
    ensures DirtySet(Enter(s, o, blk, read), q) == DirtySet(s, q)
  {
    var t, b := Enter(s, o, blk, read), s.unused[|s.unused| - 1];
    assert ListOk(s, q) && b in s.unused && b !in s.objs[q].list;
    forall d: nat ensures d in DirtySet(t, q) <==> d in DirtySet(s, q) {
      OneMoreMember(s.objs[q].list, b, d);
    }
  }

  // ----- Runs of the machine begin and go on -----

  predicate EmptyObj(o: Obj) {
    o.list == [] && o.dirtybufs == 0 && forall k :: k in o.disk ==> k < o.size
  }

  predicate EmptyTable(t: Table) { forall i :: 0 <= i < |t| ==> t[i] == None }

  /** After buf_init: all records are unused, and nobody refers to any. */
  ghost predicate IsFirst(s: State) {
    && s.unused == seq(|s.bufs|, i => i) && s.inUse == 0
    && (forall o :: 0 <= o < |s.objs| ==> EmptyObj(s.objs[o]))
    && forall p :: 0 <= p < |s.tables| ==> EmptyTable(s.tables[p])
  }

  lemma {:induction false} NoRefs(tables: seq<Table>, b: nat)
    requires forall p :: 0 <= p < |tables| ==> EmptyTable(tables[p])
    ensures Refs(tables, b) == 0
  {
    if tables != [] {
      NoRefs(tables[..|tables| - 1], b);
      NoneIn(tables[|tables| - 1], b);
    }
  }

  lemma {:induction false} NoneIn(t: Table, b: nat)
    requires EmptyTable(t)
    ensures CountIn(t, Some(b)) == 0
  {
    if t != [] { NoneIn(t[..|t| - 1], b); }
  }

  lemma FirstState(s: State)
    requires IsFirst(s)
    ensures Inv(s)
  {
    forall b | 0 <= b < |s.bufs| ensures b in s.unused && RefsOk(s, b) && !Listed(s, b) {
      assert s.unused[b] == b;
      NoRefs(s.tables, b);
    }
    assert ListedSet(s) == {};
    forall o | 0 <= o < |s.objs| ensures ListOk(s, o) && ObjOk(s, o) {
      assert EmptyObj(s.objs[o]);
      assert DirtySet(s, o) == {};
    }
    forall p | 0 <= p < |s.tables| ensures TableOk(s.tables[p], |s.bufs|) {
      assert EmptyTable(s.tables[p]);
    }
  }

  lemma NextKeepsInv(s: State, e: Event)
    requires Inv(s) && Legal(s, e)
    ensures Inv(Next(s, e))
  {
    match e
    case Reused(p, o, blk) => ReuseKeepsInv(s, p, o, blk);
    case Created(p, o, blk, read) => CreateKeepsInv(s, p, o, blk, read);
    case Failed(f) => FailKeepsInv(s, f);
    case Freed(b) => FreeKeepsInv(s, b);
    case Unrefd(p, b) => UnrefKeepsInv(s, p, b);
    case Dirtied(b) => DirtyKeepsInv(s, b);
    case Wrote(b) => WriteKeepsInv(s, b);
    case Put(b, data) => PutKeepsInv(s, b, data);
  }
}
