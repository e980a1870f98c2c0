/**
 What single events of the cache do to lists, tables and sizes, and how large an object is after a run.
 */
module CacheEffects {
  import opened Common
  import opened Queue
  import opened Cache
  import opened CacheSteps
  import opened CacheContent

  // ----- The size of an object -----

  /** The event writes a block of this object. */
  ghost predicate WritesTo(s: State, e: Event, o: nat) {
    e.Wrote? && e.b < |s.bufs| && s.bufs[e.b].obj == o
  }

  /** bwrite stores one block and extends its object just so far; nothing else changes the driver or a size. */
  lemma WhenSizesChange(s: State, e: Event, o: nat)
    requires Inv(s) && Legal(s, e) && o < |s.objs|
    ensures |Next(s, e).objs| == |s.objs|
    ensures var d := Next(s, e).objs[o];
      if WritesTo(s, e, o) then
        var blk := s.bufs[e.b].blk;
        && d.disk == s.objs[o].disk[blk := s.bufs[e.b].data]
        && blk < d.size && s.objs[o].size <= d.size && (d.size == blk + 1 || d.size == s.objs[o].size)
      else d.disk == s.objs[o].disk && d.size == s.objs[o].size
  {
  }

  /** In every run the size is that of the first state or one more than the greatest block written since. */
  lemma {:induction false} SizeIsGreatestWrite(run: seq<State>, events: seq<Event>, n: nat, o: nat)
    requires IsRun(run, events) && Inv(run[0]) && n < |run| && o < |run[0].objs|
    ensures |run[n].objs| == |run[0].objs| && run[0].objs[o].size <= run[n].objs[o].size
    ensures forall i :: 0 <= i < n && WritesTo(run[i], events[i], o) ==>
      run[i].bufs[events[i].b].blk < run[n].objs[o].size
    ensures run[n].objs[o].size == run[0].objs[o].size ||
      exists i :: 0 <= i < n && WritesTo(run[i], events[i], o) &&
        run[n].objs[o].size == run[i].bufs[events[i].b].blk + 1
  {
    if n > 0 {
      SizeIsGreatestWrite(run, events, n - 1, o);
      RunKeepsInv(run, events, n - 1);
      assert StepOf(run[n - 1], events[n - 1], run[n]);
      WhenSizesChange(run[n - 1], events[n - 1], o);
    }
  }

  /** The block lies behind the end of the first state and behind every block written since. */
  ghost predicate Beyond(run: seq<State>, events: seq<Event>, n: nat, o: nat, blk: nat)
    requires |run| == |events| + 1 && n < |run| && o < |run[0].objs|
  {
    && run[0].objs[o].size <= blk
    && forall i :: 0 <= i < n && WritesTo(run[i], events[i], o) ==> run[i].bufs[events[i].b].blk < blk
  }

  lemma EndOfObject(run: seq<State>, events: seq<Event>, n: nat, o: nat, blk: nat)
    requires IsRun(run, events) && Inv(run[0]) && n < |run| && o < |run[0].objs|
    ensures |run[n].objs| == |run[0].objs| && (run[n].objs[o].size <= blk <==> Beyond(run, events, n, o, blk))
  {
    SizeIsGreatestWrite(run, events, n, o);
  }

  // ----- Lists and tables -----

  /** The first entry of a table that is x has become y. */
  ghost predicate FirstBecomes(t: Table, t': Table, x: Option<nat>, y: Option<nat>) {
    exists k :: 0 <= k < |t| && t[k] == x && (forall j :: 0 <= j < k ==> t[j] != x) && t' == t[k := y]
  }

  lemma EntryIsFirst(t: Table, x: Option<nat>, y: Option<nat>, k: nat)
    requires k <= |t| && EntryFrom(t, x, k).Some? && forall j :: 0 <= j < k ==> t[j] != x
    ensures FirstBecomes(t, t[EntryFrom(t, x, k).value := y], x, y)
    decreases |t| - k
  {
    if t[k] != x { EntryIsFirst(t, x, y, k + 1); }
  }

  /** The same objects, but for the list of one of them. */
  ghost predicate OnlyList(s: State, t: State, o: nat) {
    && |t.objs| == |s.objs| && o < |s.objs| && t.objs[o] == s.objs[o].(list := t.objs[o].list)
    && forall q :: 0 <= q < |s.objs| && q != o ==> t.objs[q] == s.objs[q]
  }

  /**
   A block that is found again gets one more reference, in the first free entry of the table. With BUF_SORT_REUSED
   its buffer is then the first of the list, and the others keep their order; otherwise the list stays.
   */
  lemma ReuseMovesToFront(s: State, p: nat, o: nat, blk: nat)
    requires Inv(s) && Legal(s, Reused(p, o, blk))
    ensures var t, b := Next(s, Reused(p, o, blk)), Cached(s, o, blk).value;
      && b < |s.bufs| && OnlyList(s, t, o) && t.unused == s.unused
      && t.bufs == s.bufs[b := s.bufs[b].(refcnt := t.bufs[b].refcnt)]
      && |t.tables| == |s.tables| && FirstBecomes(s.tables[p], t.tables[p], None, Some(b))
      && (forall q :: 0 <= q < |s.tables| && q != p ==> t.tables[q] == s.tables[q])
      && if s.sortReused then
           t.objs[o].list != [] && t.objs[o].list[0] == b && TakenOut(s.objs[o].list, t.objs[o].list[1..], b)
         else t.objs[o].list == s.objs[o].list
  {
    assert ListOk(s, o);
    var list := s.objs[o].list;
    var i := FirstFrom(s.bufs, list, blk, 0).value;
    EntryIsFirst(s.tables[p], None, Some(list[i]), 0);
    assert ToFront(list, i)[1..] == list[..i] + list[i + 1..];
  }

  /** A new buffer is the last record of the pool; it becomes the last one with BUF_SORT_REUSED, else the first. */
  lemma CreateTakesLast(s: State, p: nat, o: nat, blk: nat, read: bool)
    requires Inv(s) && Legal(s, Created(p, o, blk, read))
    ensures var t, b := Next(s, Created(p, o, blk, read)), s.unused[|s.unused| - 1];
      && b < |s.bufs| && s.unused == t.unused + [b] && OnlyList(s, t, o)
      && t.objs[o].list == (if s.sortReused then s.objs[o].list + [b] else [b] + s.objs[o].list)
      && |t.bufs| == |s.bufs| && t.bufs[b].obj == o && t.bufs[b].blk == blk && t.bufs[b].refcnt == 1 && !t.bufs[b].dirty
      && (forall d :: 0 <= d < |s.bufs| && d != b ==> t.bufs[d] == s.bufs[d])
      && |t.tables| == |s.tables| && FirstBecomes(s.tables[p], t.tables[p], None, Some(b))
      && (forall q :: 0 <= q < |s.tables| && q != p ==> t.tables[q] == s.tables[q])
  {
    var b := s.unused[|s.unused| - 1];
    EntryIsFirst(s.tables[p], None, Some(b), 0);
    assert b in s.unused && s.unused == s.unused[..|s.unused| - 1] + [b];
  }

  /** A buffer that is freed becomes the last record of the pool. */
  lemma FreeReturnsRecord(s: State, b: nat)
    requires Inv(s) && Legal(s, Freed(b))
    ensures var t, o := Next(s, Freed(b)), s.bufs[b].obj;
      && t.unused == s.unused + [b] && t.bufs == s.bufs && t.tables == s.tables && OnlyList(s, t, o)
      && TakenOut(s.objs[o].list, t.objs[o].list, b)
  {
    var list := s.objs[s.bufs[b].obj].list;
    var k := IndexOf(list, b);
    assert list[k] == b && RemoveAt(list, k) == list[..k] + list[k + 1..];
  }

  /** bunrefp erases the first entry for the buffer and lowers its count, and nothing else. */
  lemma UnrefErasesFirst(s: State, p: nat, b: nat)
    requires Inv(s) && Legal(s, Unrefd(p, b))
    ensures var t := Next(s, Unrefd(p, b));
      && t.unused == s.unused && t.objs == s.objs && t.bufs == s.bufs[b := s.bufs[b].(refcnt := t.bufs[b].refcnt)]
      && |t.tables| == |s.tables| && FirstBecomes(s.tables[p], t.tables[p], Some(b), None)
      && (forall q :: 0 <= q < |s.tables| && q != p ==> t.tables[q] == s.tables[q])
  {
    EntryIsFirst(s.tables[p], Some(b), None, 0);
  }
}
