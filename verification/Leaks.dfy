/**
 What the allocator loses: a fragment that is freed while its stack is full is neither live nor free to be
 taken until its owner is killed.
 */
module Leaks {
  import opened Pages
  import opened FragStack
  import opened Heap
  import opened HeapSteps
  import opened Blocks

  predicate InRun(b: Block, p: nat) {
    b.Run? && b.page <= p < b.page + b.num
  }

  /** A page in use belongs to a live run, and a piece of a divided page is live or free to be taken. */
  ghost predicate Accounted(s: State, p: nat, idx: nat)
    requires p < |s.pages|
  {
    var g := s.pages[p];
    g.used && !Locked(g) ==>
      if g.frag == 0 then exists b :: b in s.live && InRun(b, p)
      else idx < Pow2(g.frag) ==> Piece(p, idx, g.frag, g.owner) in s.live || Frag(p, idx) in s.StackOf(g.owner, g.frag)
  }

  ghost predicate NoLeak(s: State) {
    forall p: nat, idx: nat :: p < |s.pages| ==> Accounted(s, p, idx)
  }

  /** A fragment that does not fit on its stack. */
  predicate Loses(e: Event) { e.DroppedPiece? && !e.pushed && e.b.Piece? }

  predicate LosesPiece(e: Event, p: nat, idx: nat) { Loses(e) && e.b.page == p && e.b.idx == idx }

  /** A piece of a divided page that is neither live nor on a stack. */
  ghost predicate Lost(s: State, p: nat, idx: nat, frag: nat, owner: nat) {
    && p < |s.pages| && s.pages[p] == Page(true, frag, false, owner) && frag >= 1 && idx < Pow2(frag)
    && Piece(p, idx, frag, owner) !in s.live && Frag(p, idx) !in s.StackOf(owner, frag)
  }

  lemma LostIsUnaccounted(s: State, p: nat, idx: nat, frag: nat, owner: nat)
    requires Lost(s, p, idx, frag, owner)
    ensures !Accounted(s, p, idx) && !NoLeak(s)
  {
  }

  lemma StaysAccounted(c: Config, s: State, e: Event, s': State, p: nat, idx: nat)
    requires Inv(c, s) && Step(c, s, e, s') && p < |s.pages| && Accounted(s, p, idx) && p < |s'.pages|
    requires !LosesPiece(e, p, idx)
    ensures Accounted(s', p, idx)
  {
    StepKeepsInv(c, s, e, s');
    var g := s.pages[p];
    if g.used && !Locked(g) && g.frag == 0 && s'.pages[p].used {
      var b :| b in s.live && InRun(b, p);
      RunOutlives(c, s, e, s', b, p);
    } else if e.CleanedStack? {
      assert FreedAt(s.pages, s'.pages, FullPages(s.StackOf(e.owner, e.frag), Pow2(e.frag)), p);
    } else if e.TookRun? {
      assert InRun(e.b, p) ==> e.b in s'.live;
    }
  }

  lemma RunOutlives(c: Config, s: State, e: Event, s': State, b: Block, p: nat)
    requires Inv(c, s) && Inv(c, s') && Step(c, s, e, s') && p < |s.pages| && s'.pages[p].used
    requires b in s.live && InRun(b, p)
    ensures b in s'.live && s'.pages[p].frag == 0
  {
    assert LiveOk(c, s.pages, b);
    assert s.pages[p] == RunPage(p, b.page + b.num - 1, 0, b.owner);
    if b !in s'.live {
      assert false;
    }
    assert LiveOk(c, s'.pages, b);
    assert s'.pages[p] == RunPage(p, b.page + b.num - 1, 0, b.owner);
  }

  /** A full stack loses the fragment. */
  lemma OverflowLeaks(c: Config, s: State, b: Block, s': State)
    requires Inv(c, s) && Step(c, s, DroppedPiece(b, false), s')
    ensures Lost(s', b.page, b.idx, b.frag, b.owner) && !NoLeak(s')
  {
    assert LiveOk(c, s.pages, b);
    assert Frag(b.page, b.idx) in s.StackOf(b.owner, b.frag) ==> StackedOk(c, s, b.owner, b.frag, Frag(b.page, b.idx));
    LostIsUnaccounted(s', b.page, b.idx, b.frag, b.owner);
  }

  lemma FullPageIsDivided(c: Config, s: State, k: nat, o: nat, p: nat)
    requires Inv(c, s) && p in FullPages(s.StackOf(o, k), Pow2(k))
    ensures p < |s.pages| && s.pages[p] == Page(true, k, false, o)
    ensures forall i :: 0 <= i < Pow2(k) ==> Frag(p, i) in s.StackOf(o, k)
  {
    assert StackedOk(c, s, o, k, Frag(p, 0));
  }

  lemma RunIsWhole(c: Config, pages: seq<Page>, b: Block, p: nat)
    requires LiveOk(c, pages, b) && InRun(b, p)
    ensures p < |pages| && pages[p].frag == 0
  {
    assert pages[p] == RunPage(p, b.page + b.num - 1, 0, b.owner);
  }

  /** The page of a lost fragment never becomes complete, so the fragment stays lost until its owner is killed. */
  lemma LostStaysLost(c: Config, s: State, e: Event, s': State, p: nat, idx: nat, frag: nat, owner: nat)
    requires Inv(c, s) && Step(c, s, e, s') && Lost(s, p, idx, frag, owner) && e != KilledOwner(owner)
    ensures Lost(s', p, idx, frag, owner)
  {
    if e.DroppedRun? && InRun(e.b, p) {
      RunIsWhole(c, s.pages, e.b, p);
    }
    if e.CleanedStack? {
      var full := FullPages(s.StackOf(e.owner, e.frag), Pow2(e.frag));
      assert FreedAt(s.pages, s'.pages, full, p);
      if p in full { FullPageIsDivided(c, s, e.frag, e.owner, p); }
    }
  }

  /** Killing the owner gives the page back. */
  lemma NotKilled(c: Config, s: State, e: Event, s': State, p: nat, idx: nat, frag: nat, owner: nat)
    requires Inv(c, s) && Step(c, s, e, s') && Lost(s, p, idx, frag, owner) && p < |s'.pages| && !Accounted(s', p, idx)
    ensures e != KilledOwner(owner)
  {
  }

  ghost predicate KilledSince(events: seq<Event>, i: nat, n: nat, owner: nat) {
    exists j :: i < j < n && j < |events| && events[j] == KilledOwner(owner)
  }

  /** Event i has lost this piece for the last time, and its owner lives on. */
  ghost predicate LostAt(events: seq<Event>, i: nat, n: nat, p: nat, idx: nat) {
    i < n <= |events| && LosesPiece(events[i], p, idx) && !KilledSince(events, i, n, events[i].b.owner)
  }

  lemma KilledLater(events: seq<Event>, i: nat, n: nat, owner: nat)
    requires i + 1 < n <= |events|
    ensures KilledSince(events, i, n, owner) <==>
      KilledSince(events, i, n - 1, owner) || events[n - 1] == KilledOwner(owner)
  {
  }

  lemma {:induction false} LostSince(c: Config, run: seq<State>, events: seq<Event>, i: nat, n: nat)
    requires IsRun(c, run, events) && Inv(c, run[0]) && i < n < |run| && Loses(events[i])
    requires !KilledSince(events, i, n, events[i].b.owner)
    ensures var b := events[i].b; Lost(run[n], b.page, b.idx, b.frag, b.owner)
  {
    var b := events[i].b;
    RunKeepsInv(c, run, events, n - 1);
    assert Step(c, run[n - 1], events[n - 1], run[n]);
    if i == n - 1 {
      OverflowLeaks(c, run[i], b, run[n]);
    } else {
      KilledLater(events, i, n, b.owner);
      LostSince(c, run, events, i, n - 1);
      LostStaysLost(c, run[n - 1], events[n - 1], run[n], b.page, b.idx, b.frag, b.owner);
    }
  }

  lemma StillLost(c: Config, run: seq<State>, events: seq<Event>, i: nat, n: nat, p: nat, idx: nat)
    requires IsRun(c, run, events) && Inv(c, run[0]) && n < |run| && i + 1 < n && LostAt(events, i, n - 1, p, idx)
    requires p < |run[n].pages| && !Accounted(run[n], p, idx)
    ensures LostAt(events, i, n, p, idx)
  {
    var b := events[i].b;
    LostSince(c, run, events, i, n - 1);
    RunKeepsInv(c, run, events, n - 1);
    assert Step(c, run[n - 1], events[n - 1], run[n]);
    KilledLater(events, i, n, b.owner);
    NotKilled(c, run[n - 1], events[n - 1], run[n], p, idx, b.frag, b.owner);
  }

  /** A piece that is accounted for only before a step is lost by it. */
  lemma LostNow(c: Config, run: seq<State>, events: seq<Event>, n: nat, p: nat, idx: nat)
    requires IsRun(c, run, events) && Inv(c, run[0]) && 0 < n < |run| && p < |run[n].pages|
    requires !Accounted(run[n], p, idx)
    ensures p < |run[n - 1].pages| && (Accounted(run[n - 1], p, idx) ==> LosesPiece(events[n - 1], p, idx))
  {
    RunKeepsInv(c, run, events, n - 1);
    RunKeepsInv(c, run, events, n);
    var s, e := run[n - 1], events[n - 1];
    assert Step(c, s, e, run[n]);
    if Accounted(s, p, idx) && !LosesPiece(e, p, idx) { StaysAccounted(c, s, e, run[n], p, idx); }
  }

  /** A piece that is not accounted for has been lost by some event. */
  lemma {:induction false} WhenLost(c: Config, run: seq<State>, events: seq<Event>, n: nat, p: nat, idx: nat)
    returns (i: nat)
    requires IsRun(c, run, events) && Inv(c, run[0]) && NoLeak(run[0]) && n < |run|
    requires p < |run[n].pages| && !Accounted(run[n], p, idx)
    ensures LostAt(events, i, n, p, idx)
  {
    if n == 0 { assert false; }
    LostNow(c, run, events, n, p, idx);
    if Accounted(run[n - 1], p, idx) {
      i := n - 1;
    } else {
      i := WhenLost(c, run, events, n - 1, p, idx);
      StillLost(c, run, events, i, n, p, idx);
    }
  }

  /** Nothing is lost in a run exactly if the owner of every fragment that did not fit has been killed since. */
  lemma RunLeaksExactly(c: Config, run: seq<State>, events: seq<Event>, n: nat)
    requires IsRun(c, run, events) && Inv(c, run[0]) && NoLeak(run[0]) && n < |run|
    ensures NoLeak(run[n]) <==>
      forall i :: 0 <= i < n && Loses(events[i]) ==> KilledSince(events, i, n, events[i].b.owner)
  {
    if i :| 0 <= i < n && Loses(events[i]) && !KilledSince(events, i, n, events[i].b.owner) {
      var b := events[i].b;
      LostSince(c, run, events, i, n);
      LostIsUnaccounted(run[n], b.page, b.idx, b.frag, b.owner);
    }
    if p: nat, idx: nat :| p < |run[n].pages| && !Accounted(run[n], p, idx) {
      var i := WhenLost(c, run, events, n, p, idx);
      assert Loses(events[i]);
    }
  }

  lemma StepDoesNotLeak(c: Config, s: State, e: Event, s': State)
    requires Inv(c, s) && Step(c, s, e, s') && NoLeak(s) && !Loses(e)
    ensures NoLeak(s')
  {
    StepKeepsInv(c, s, e, s');
    forall p: nat, idx: nat | p < |s'.pages| ensures Accounted(s', p, idx) {
      assert Accounted(s, p, idx);
      StaysAccounted(c, s, e, s', p, idx);
    }
  }

  // ----- When a fragment is lost -----

  /** Is there room for one more on the stack after the cleanup in mem_frag_free? */
  ghost predicate HasRoom(c: Config, s: State, frag: nat, owner: nat)
    requires c.Valid()
  {
    var free := s.StackOf(owner, frag);
    |OffPages(free, FullPages(free, Pow2(frag)))| < StackCapacity(c)
  }
}
