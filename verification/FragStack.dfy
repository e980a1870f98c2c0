/**
 Stacks of free fragments (include/queue.h, include/mem.h) and their cleanup (kern/mem/mem.c): sort the
 stack by page, drop the entries of pages that are completely on the stack, and give these pages back.
 */
module FragStack {
  import opened Common
  import opened Pages
  import PageTable

  datatype Frag = Frag(page: nat, idx: nat)

  // ----- Entries by page -----

  /** Those of the first k entries that belong to page pg. */
  function Only(s: seq<Frag>, k: nat, pg: nat): seq<Frag>
    requires k <= |s|
  {
    if k == 0 then [] else Only(s, k - 1, pg) + if s[k - 1].page == pg then [s[k - 1]] else []
  }

  function Count(s: seq<Frag>, pg: nat): nat { |Only(s, |s|, pg)| }

  /** The first k entries without those of the given pages. */
  function Kept(s: seq<Frag>, k: nat, pgs: set<nat>): seq<Frag>
    requires k <= |s|
  {
    if k == 0 then [] else Kept(s, k - 1, pgs) + if s[k - 1].page in pgs then [] else [s[k - 1]]
  }

  /** The entries of all pages but the given ones, in order. */
  function Without(s: seq<Frag>, pgs: set<nat>): seq<Frag> { Kept(s, |s|, pgs) }

  /** Those of the pages of the first k entries that have exactly n entries on the whole stack. */
  function CompleteBefore(s: seq<Frag>, k: nat, n: nat): set<nat>
    requires k <= |s|
  {
    if k == 0 then {}
    else CompleteBefore(s, k - 1, n) + if Count(s, s[k - 1].page) == n then {s[k - 1].page} else {}
  }

  /** The pages that have exactly n entries. */
  function Complete(s: seq<Frag>, n: nat): set<nat> { CompleteBefore(s, |s|, n) }

  lemma {:induction false} CompleteMember(s: seq<Frag>, k: nat, n: nat, pg: nat)
    requires k <= |s|
    ensures pg in CompleteBefore(s, k, n) <==> Count(s, pg) == n && exists i :: 0 <= i < k && s[i].page == pg
  {
    if k > 0 { CompleteMember(s, k - 1, n, pg); }
  }

  lemma {:induction false} OnlyMultiset(s: seq<Frag>, k: nat, pg: nat, x: Frag)
    requires k <= |s|
    ensures multiset(Only(s, k, pg))[x] == if x.page == pg then multiset(s[..k])[x] else 0
  {
    if k > 0 {
      assert s[..k] == s[..k - 1] + [s[k - 1]];
      OnlyMultiset(s, k - 1, pg, x);
    }
  }

  lemma {:induction false} KeptMultiset(s: seq<Frag>, k: nat, pgs: set<nat>, x: Frag)
    requires k <= |s|
    ensures multiset(Kept(s, k, pgs))[x] == if x.page in pgs then 0 else multiset(s[..k])[x]
  {
    if k > 0 {
      assert s[..k] == s[..k - 1] + [s[k - 1]];
      KeptMultiset(s, k - 1, pgs, x);
    }
  }

  /** Counts, complete pages and what remains do not depend on the order of the stack. */
  lemma SameCounts(a: seq<Frag>, b: seq<Frag>, pg: nat)
    requires multiset(a) == multiset(b)
    ensures Count(a, pg) == Count(b, pg)
  {
    var x, y := Only(a, |a|, pg), Only(b, |b|, pg);
    assert a[..|a|] == a && b[..|b|] == b;
    forall f: Frag ensures multiset(x)[f] == multiset(y)[f] {
      OnlyMultiset(a, |a|, pg, f);
      OnlyMultiset(b, |b|, pg, f);
    }
    assert multiset(x) == multiset(y);
    assert |multiset(x)| == |x| && |multiset(y)| == |y|;
  }

  lemma InBoth(a: seq<Frag>, b: seq<Frag>, i: nat)
    requires multiset(a) == multiset(b) && i < |a|
    ensures a[i] in b
  {
    assert a[i] in multiset(a);
  }

  lemma SameComplete(a: seq<Frag>, b: seq<Frag>, n: nat)
    requires multiset(a) == multiset(b)
    ensures Complete(a, n) <= Complete(b, n)
  {
    forall pg | pg in Complete(a, n) ensures pg in Complete(b, n) {
      CompleteMember(a, |a|, n, pg);
      var i :| 0 <= i < |a| && a[i].page == pg;
      InBoth(a, b, i);
      SameCounts(a, b, pg);
      CompleteMember(b, |b|, n, pg);
    }
  }

  lemma OrderIrrelevant(a: seq<Frag>, b: seq<Frag>, n: nat)
    requires multiset(a) == multiset(b)
    ensures Complete(a, n) == Complete(b, n)
    ensures multiset(Without(a, Complete(a, n))) == multiset(Without(b, Complete(b, n)))
  {
    SameComplete(a, b, n);
    SameComplete(b, a, n);
    var pgs := Complete(a, n);
    assert a[..|a|] == a && b[..|b|] == b;
    forall f: Frag ensures multiset(Without(a, pgs))[f] == multiset(Without(b, pgs))[f] {
      KeptMultiset(a, |a|, pgs, f);
      KeptMultiset(b, |b|, pgs, f);
    }
  }

  lemma {:induction false} OnlyBound(s: seq<Frag>, k: nat, pg: nat)
    requires k <= |s|
    ensures |Only(s, k, pg)| <= k
  {
    if k > 0 { OnlyBound(s, k - 1, pg); }
  }

  lemma {:induction false} KeptAll(s: seq<Frag>, k: nat)
    requires k <= |s|
    ensures Kept(s, k, {}) == s[..k]
  {
    if k > 0 { KeptAll(s, k - 1); }
  }

  /** The early return is right: a stack smaller than a page's fragments has no complete page. */
  lemma TooFewForAPage(s: seq<Frag>, n: nat)
    requires |s| < n
    ensures Complete(s, n) == {} && Without(s, Complete(s, n)) == s
  {
    forall pg: nat ensures pg !in Complete(s, n) {
      OnlyBound(s, |s|, pg);
      CompleteMember(s, |s|, n, pg);
    }
    assert Complete(s, n) == {};
    KeptAll(s, |s|);
  }

  // ----- Sorted stacks -----

  predicate Sorted(s: seq<Frag>) {
    forall i, j :: 0 <= i < j < |s| ==> InOrder(s, i, j)
  }

  predicate InOrder(s: seq<Frag>, i: nat, j: nat)
    requires i < j < |s|
  {
    s[i].page <= s[j].page
  }

  /** Is [src, end) all that a sorted stack holds for its page? */
  ghost predicate IsGroup(s: seq<Frag>, src: nat, end: nat) {
    && src < end <= |s|
    && (forall i :: src <= i < end ==> s[i].page == s[src].page)
    && (end < |s| ==> s[end].page != s[src].page)
    && (src > 0 ==> s[src - 1].page != s[src].page)
  }

  /** In a sorted stack a page's entries lie together. */
  lemma GroupIsWholePage(s: seq<Frag>, src: nat, end: nat)
    requires Sorted(s) && IsGroup(s, src, end)
    ensures forall i :: 0 <= i < src ==> s[i].page < s[src].page
    ensures forall i :: end <= i < |s| ==> s[src].page < s[i].page
  {
    forall i | 0 <= i < src ensures s[i].page < s[src].page {
      if i < src - 1 { assert InOrder(s, i, src - 1); }
      assert InOrder(s, src - 1, src);
    }
    forall i | end <= i < |s| ensures s[src].page < s[i].page {
      if i > end { assert InOrder(s, end, i); }
      assert InOrder(s, src, end);
    }
  }

  /** The size of a page's entries after a stretch of other pages or of its own. */
  lemma {:induction false} OnlyStretch(s: seq<Frag>, from: nat, to: nat, pg: nat)
    requires from <= to <= |s|
    ensures (forall i :: from <= i < to ==> s[i].page != pg) ==> Only(s, to, pg) == Only(s, from, pg)
    ensures (forall i :: from <= i < to ==> s[i].page == pg) ==> |Only(s, to, pg)| == |Only(s, from, pg)| + to - from
  {
    if from < to { OnlyStretch(s, from, to - 1, pg); }
  }

  lemma GroupCount(s: seq<Frag>, src: nat, end: nat)
    requires Sorted(s) && IsGroup(s, src, end)
    ensures Count(s, s[src].page) == end - src
  {
    GroupIsWholePage(s, src, end);
    OnlyStretch(s, 0, src, s[src].page);
    OnlyStretch(s, src, end, s[src].page);
    OnlyStretch(s, end, |s|, s[src].page);
  }

  lemma {:induction false} KeptGroup(s: seq<Frag>, src: nat, end: nat, pgs: set<nat>)
    requires src < end <= |s|
    requires forall i :: src <= i < end ==> s[i].page == s[src].page
    ensures Kept(s, end, pgs) == Kept(s, src, pgs) + if s[src].page in pgs then [] else s[src..end]
  {
    if src + 1 == end {
      assert s[src..end] == [s[src]];
    } else {
      KeptGroup(s, src, end - 1, pgs);
      assert s[src..end] == s[src..end - 1] + [s[end - 1]];
    }
  }

  lemma {:induction false} CompleteGroup(t: seq<Frag>, src: nat, end: nat, n: nat)
    requires src < end <= |t| && forall i :: src <= i < end ==> t[i].page == t[src].page
    ensures CompleteBefore(t, end, n) ==
      CompleteBefore(t, src, n) + if Count(t, t[src].page) == n then {t[src].page} else {}
  {
    if src + 1 < end { CompleteGroup(t, src, end - 1, n); }
  }

  /** What the group [src, end) adds to the kept entries and to the complete pages. */
  ghost predicate Adds(t: seq<Frag>, src: nat, end: nat, n: nat) {
    && src < end <= |t| && (end == |t| || t[end - 1].page != t[end].page)
    && t[src].page !in CompleteBefore(t, src, n)
    && (if end - src == n then
          && CompleteBefore(t, end, n) == CompleteBefore(t, src, n) + {t[src].page}
          && Kept(t, end, Complete(t, n)) == Kept(t, src, Complete(t, n))
        else
          && CompleteBefore(t, end, n) == CompleteBefore(t, src, n)
          && Kept(t, end, Complete(t, n)) == Kept(t, src, Complete(t, n)) + t[src..end])
  }

  lemma GroupAdds(t: seq<Frag>, src: nat, end: nat, n: nat)
    requires Sorted(t) && IsGroup(t, src, end)
    ensures Adds(t, src, end, n)
  {
    var pg := t[src].page;
    GroupIsWholePage(t, src, end);
    GroupCount(t, src, end);
    CompleteGroup(t, src, end, n);
    CompleteMember(t, src, n, pg);
    CompleteMember(t, |t|, n, pg);
    KeptGroup(t, src, end, Complete(t, n));
  }

  // ----- The page table under a cleanup -----

  /** A page that is divided into fragments. */
  predicate IsFragPage(pt: seq<Page>, p: nat) {
    1 <= p < |pt| && pt[p].used && pt[p].frag != 0 && !pt[p].cont
  }

  /** The given pages are free, all others as before. */
  ghost predicate FreedPages(pt: seq<Page>, pt': seq<Page>, pgs: set<nat>) {
    |pt'| == |pt| && forall q :: 0 <= q < |pt| ==> FreedAt(pt, pt', pgs, q)
  }

  predicate FreedAt(pt: seq<Page>, pt': seq<Page>, pgs: set<nat>, q: nat)
    requires q < |pt| == |pt'|
  {
    pt'[q] == if q in pgs then FREE else pt[q]
  }

  /** Giving pages of fragments back leaves the chains in order. */
  lemma FreedKeepsChains(pt: seq<Page>, pt': seq<Page>, pgs: set<nat>)
    requires Chained(pt) && FreedPages(pt, pt', pgs) && forall p :: p in pgs ==> IsFragPage(pt, p)
    ensures Chained(pt')
  {
    forall p | 0 <= p < |pt'| ensures ChainedAt(pt', p) {
      assert ChainedAt(pt, p) && FreedAt(pt, pt', pgs, p);
      if p + 1 < |pt| { assert FreedAt(pt, pt', pgs, p + 1); }
    }
  }

  // ----- The stack itself -----

  class Stack {
    const entries: array<Frag>
    var index: nat

    ghost predicate Valid()
      reads this
    {
      index <= entries.Length
    }

    ghost function Contents(): seq<Frag>
      requires Valid()
      reads this, entries
    {
      entries[..index]
    }

    constructor (capacity: nat)
      ensures Valid() && fresh(entries) && entries.Length == capacity && Contents() == []
    {
      entries := new Frag[capacity](_ => Frag(0, 0));
      index := 0;
    }

    /** STACK_PUSH: nothing happens if the stack is full. */
    method Push(f: Frag) returns (ok: bool)
      requires Valid()
      modifies this, entries
      ensures Valid() && ok == (old(index) < entries.Length)
      ensures Contents() == if ok then old(Contents()) + [f] else old(Contents())
    {
      ok := index < entries.Length;
      if ok {
        entries[index] := f;
        index := index + 1;
      }
    }

    /** STACK_POP: the last entry, if any. */
    method Pop() returns (f: Option<Frag>)
      requires Valid()
      modifies this
      ensures Valid()
      ensures old(Contents()) == match f case None => [] case Some(x) => Contents() + [x]
      ensures f.None? ==> Contents() == []
    {
      if index == 0 { return None; }
      index := index - 1;
      f := Some(entries[index]);
    }

    method Swap(i: nat, j: nat)
      requires Valid() && i < j < index
      modifies entries
      ensures Contents() == old(Contents())[i := old(entries[j])][j := old(entries[i])]
      ensures multiset(Contents()) == old(multiset(Contents()))
    {
      ghost var s := entries[..index];
      var f := entries[i];
      entries[i] := entries[j];
      entries[j] := f;
      assert entries[..index] == s[i := s[j]][j := s[i]];
    }

    /** Exchanges two entries whose pages are in the wrong order. */
    method Order(i: nat, j: nat)
      requires Valid() && i < j < index && Below(Contents(), i)
      modifies entries
      ensures multiset(Contents()) == old(multiset(Contents()))
      ensures Contents()[..i] == old(Contents())[..i] && Below(Contents(), i)
      ensures Contents()[i].page <= old(Contents())[i].page && Contents()[i].page <= Contents()[j].page
      ensures forall k :: i < k < j ==> Contents()[k] == old(Contents())[k]
    {
      BelowSwap(Contents(), i, j);
      if entries[i].page > entries[j].page { Swap(i, j); }
    }

    /** The inner loop of mem_frag_sort: the smallest page of the rest comes to position i. */
    method SelectSmallest(i: nat)
      requires Valid() && i < index && Below(Contents(), i)
      modifies entries
      ensures multiset(Contents()) == old(multiset(Contents()))
      ensures Contents()[..i] == old(Contents())[..i] && Below(Contents(), i)
      ensures forall k :: i < k < index ==> Contents()[i].page <= Contents()[k].page
    {
      var j := i + 1;
      while j < index
        invariant i < j <= index
        invariant multiset(Contents()) == old(multiset(Contents()))
        invariant Contents()[..i] == old(Contents())[..i] && Below(Contents(), i)
        invariant forall k :: i < k < j ==> Contents()[i].page <= Contents()[k].page
      {
        Order(i, j);
        j := j + 1;
      }
    }

    /** mem_frag_sort */
    method Sort()
      requires Valid()
      modifies entries
      ensures Sorted(Contents()) && multiset(Contents()) == old(multiset(Contents()))
    {
      var i := 0;
      while i < index - 1
        invariant 0 <= i <= index
        invariant multiset(Contents()) == old(multiset(Contents()))
        invariant Sorted(Contents()[..i]) && Below(Contents(), i)
      {
        SelectSmallest(i);
        ghost var t := Contents();
        ghost var u := t[..i + 1];
        forall k, m | 0 <= k < m < i + 1 ensures InOrder(u, k, m) {
          if m < i { assert InOrder(t[..i], k, m); }
        }
        i := i + 1;
      }
      SortedWhole(Contents(), i);
    }
  }

  /** The first i entries belong to no larger page than any of the rest. */
  predicate Below(s: seq<Frag>, i: nat)
    requires i <= |s|
  {
    forall k, m :: 0 <= k < i <= m < |s| ==> s[k].page <= s[m].page
  }

  lemma BelowSwap(s: seq<Frag>, i: nat, j: nat)
    requires i < j < |s| && Below(s, i)
    ensures var t := s[i := s[j]][j := s[i]]; Below(t, i) && t[..i] == s[..i]
  {
  }

  lemma SortedWhole(s: seq<Frag>, i: nat)
    requires i <= |s| && |s| <= i + 1 && Sorted(s[..i]) && Below(s, i)
    ensures Sorted(s)
  {
    forall k, m | 0 <= k < m < |s| ensures InOrder(s, k, m) {
      if m < i { assert InOrder(s[..i], k, m); }
    }
  }

  // ----- mem_frag_clean_stack -----

  /** The end of the group of entries that starts at src. */
  method GroupEnd(st: Stack, src: nat) returns (id: nat)
    requires st.Valid() && src < st.index
    ensures 1 <= id && src + id <= st.index
    ensures forall i :: src <= i < src + id ==> st.entries[i].page == st.entries[src].page
    ensures src + id < st.index ==> st.entries[src + id].page != st.entries[src].page
  {
    var pg := st.entries[src].page;
    id := 1;
    while src + id < st.index && st.entries[src + id].page == pg
      invariant 1 <= id && src + id <= st.index
      invariant forall i :: src <= i < src + id ==> st.entries[i].page == pg
    {
      id := id + 1;
    }
  }

  /** Copy id entries from src down to dst. */
  method MoveDown(st: Stack, src: nat, dst: nat, id: nat)
    requires st.Valid() && dst <= src && src + id <= st.index
    modifies st.entries
    ensures Moved(old(st.Contents()), st.Contents(), src, dst, id)
  {
    ghost var e := st.Contents();
    for k := 0 to id
      invariant Moved(e, st.Contents(), src, dst, k)
    {
      st.entries[dst + k] := st.entries[src + k];
    }
  }

  /** The first k entries from src have been copied to dst, nothing behind them has changed. */
  ghost predicate Moved(e: seq<Frag>, e': seq<Frag>, src: nat, dst: nat, k: nat) {
    && dst <= src && src + k <= |e| == |e'|
    && (forall i :: 0 <= i < dst ==> e'[i] == e[i])
    && (forall i :: dst <= i < dst + k ==> e'[i] == e[src + i - dst])
    && (forall i :: src + k <= i < |e| ==> e'[i] == e[i])
  }

  /** The stack's array is not one of the page table's. */
  predicate Apart(st: Stack, table: PageTable.Table) {
    st.entries as object != table.bits as object && st.entries as object != table.list as object
  }

  /** What is known about a page's group when its turn comes. */
  ghost predicate Ready(pt: seq<Page>, s: seq<Frag>) {
    Chained(pt) && forall i :: 0 <= i < |s| ==> ReadyAt(pt, s, i)
  }

  predicate ReadyAt(pt: seq<Page>, s: seq<Frag>, i: nat)
    requires i < |s|
  {
    IsFragPage(pt, s[i].page)
  }

  /**
   mem_frag_clean_stack. Exactly the entries of incomplete pages stay, and each complete page is given
   back once, so the number of free pages grows by the number of complete pages.
   */
  method CleanStack(st: Stack, frags: nat, table: PageTable.Table)
    requires st.Valid() && table.Valid() && frags >= 2 && Ready(table.pages, st.Contents())
    requires Apart(st, table)
    modifies st, st.entries, table`pages, table`numFree, table.bits, table.list
    ensures st.Valid() && table.Valid()
    ensures var s := old(st.Contents());
      && multiset(st.Contents()) == multiset(Without(s, Complete(s, frags)))
      && FreedPages(old(table.pages), table.pages, Complete(s, frags))
      && table.numFree == old(table.numFree) + |Complete(s, frags)|
  {
    ghost var s := st.Contents();
    ghost var pt := table.pages;
    if st.index < frags {
      TooFewForAPage(s, frags);
      return;
    }
    st.Sort();
    ghost var t := st.Contents();
    ReadyInAnyOrder(pt, s, t);
    FilterStack(st, frags, table, t);
    OrderIrrelevant(s, t, frags);
  }

  /** The filter over the sorted stack. */
  method FilterStack(st: Stack, frags: nat, table: PageTable.Table, ghost t: seq<Frag>)
    requires st.Valid() && table.Valid() && Apart(st, table)
    requires t == st.Contents() && Sorted(t) && Ready(table.pages, t)
    modifies st, st.entries, table`pages, table`numFree, table.bits, table.list
    ensures st.Valid() && table.Valid() && st.Contents() == Without(t, Complete(t, frags))
    ensures GivenBack(old(table.pages), table.pages, table.numFree - old(table.numFree), Complete(t, frags))
  {
    ghost var pt, free0 := table.pages, table.numFree;
    var src, dst := 0, 0;
    ghost var kept: seq<Frag>, done: set<nat> := [], {};
    while src < st.index
      invariant st.Valid() && table.Valid() && st.index == |t|
      invariant Filtering(st.Contents(), pt, table.pages, table.numFree - free0, t, src, dst, frags, kept, done)
    {
      src, dst, kept, done := FilterGroup(st, src, dst, frags, table, t, kept, pt, done, free0);
    }
    st.index := dst;
  }

  /** Before each round: entries moved, pages given back, and both are what they should be so far. */
  ghost predicate Filtering(e: seq<Frag>, pt: seq<Page>, pages: seq<Page>, gained: int, t: seq<Frag>,
                            src: nat, dst: nat,
                            n: nat, kept: seq<Frag>, done: set<nat>) {
    Compacted(e, t, src, dst, kept) && GivenBack(pt, pages, gained, done) && Boundary(t, src, n, kept, done)
  }

  /** One round: find the next page's group and deal with it. */
  method FilterGroup(st: Stack, src: nat, dst: nat, frags: nat, table: PageTable.Table, ghost t: seq<Frag>,
                     ghost kept: seq<Frag>, ghost pt: seq<Page>, ghost done: set<nat>, ghost free0: int)
    returns (src': nat, dst': nat, ghost kept': seq<Frag>, ghost done': set<nat>)
    requires st.Valid() && table.Valid() && Apart(st, table) && src < st.index == |t|
    requires Sorted(t) && Ready(pt, t) && Chained(pt)
    requires Filtering(st.Contents(), pt, table.pages, table.numFree - free0, t, src, dst, frags, kept, done)
    modifies st.entries, table`pages, table`numFree, table.bits, table.list
    ensures table.Valid() && src < src'
    ensures Filtering(st.Contents(), pt, table.pages, table.numFree - free0, t, src', dst', frags, kept', done')
  {
    var id := FindGroup(st, src, t, dst, kept);
    FreshPage(t, src, id, frags, kept, done, pt);
    kept', done' := NextBoundary(t, src, id, frags, kept, done);
    dst' := ApplyGroup(st, src, dst, id, frags, table, t, kept, pt, done, free0);
    src' := src + id;
  }

  /** One round of the loop: the next page's entries are dropped with the page, or kept. */
  method ApplyGroup(st: Stack, src: nat, dst: nat, id: nat, frags: nat, table: PageTable.Table, ghost t: seq<Frag>,
                    ghost kept: seq<Frag>, ghost pt: seq<Page>, ghost done: set<nat>, ghost free0: int)
    returns (dst': nat)
    requires st.Valid() && table.Valid() && Apart(st, table) && 1 <= id && src + id <= |t|
    requires Compacted(st.Contents(), t, src, dst, kept) && GivenBack(pt, table.pages, table.numFree - free0, done)
    requires Chained(pt) && t[src].page !in done && IsFragPage(pt, t[src].page)
    requires forall p :: p in done ==> IsFragPage(pt, p)
    modifies st.entries, table`pages, table`numFree, table.bits, table.list
    ensures table.Valid() && Compacted(st.Contents(), t, src + id, dst', KeptNext(t, src, id, frags, kept))
    ensures GivenBack(pt, table.pages, table.numFree - free0, if id == frags then done + {t[src].page} else done)
  {
    ghost var e := st.Contents();
    assert e[src] == e[src..][0] == t[src..][0];
    if id == frags {
      CompactedDropped(e, t, src, dst, id, kept);
      DropGroup(table, st.entries[src].page, pt, done, free0);
      assert st.Contents() == e;
      return dst;
    }
    dst' := KeepGroup(st, src, dst, id, t, kept);
  }

  /** The given pages have been freed and counted. */
  ghost predicate GivenBack(pt: seq<Page>, pt': seq<Page>, gained: int, pgs: set<nat>) {
    FreedPages(pt, pt', pgs) && gained == |pgs|
  }

  /** Between two groups: what is kept and which pages are given back so far. */
  ghost predicate Boundary(t: seq<Frag>, src: nat, n: nat, kept: seq<Frag>, done: set<nat>) {
    && src <= |t| && (src == 0 || src == |t| || t[src - 1].page != t[src].page)
    && kept == KeptSoFar(t, src, n) && done == DoneSoFar(t, src, n)
  }

  ghost function KeptSoFar(t: seq<Frag>, src: nat, n: nat): seq<Frag>
    requires src <= |t|
  {
    Kept(t, src, Complete(t, n))
  }

  ghost function DoneSoFar(t: seq<Frag>, src: nat, n: nat): set<nat>
    requires src <= |t|
  {
    CompleteBefore(t, src, n)
  }

  /** The group that starts at src. */
  ghost predicate GroupAt(t: seq<Frag>, src: nat, id: nat) {
    && 1 <= id && src + id <= |t|
    && (forall i :: src <= i < src + id ==> t[i].page == t[src].page)
    && (src + id < |t| ==> t[src + id].page != t[src].page)
  }

  ghost function KeptNext(t: seq<Frag>, src: nat, id: nat, n: nat, kept: seq<Frag>): seq<Frag>
    requires src + id <= |t|
  {
    if id == n then kept else kept + t[src..src + id]
  }

  lemma NextBoundary(t: seq<Frag>, src: nat, id: nat, n: nat, kept: seq<Frag>, done: set<nat>)
    returns (kept': seq<Frag>, done': set<nat>)
    requires Sorted(t) && Boundary(t, src, n, kept, done) && GroupAt(t, src, id)
    ensures Boundary(t, src + id, n, kept', done')
    ensures kept' == KeptNext(t, src, id, n, kept)
    ensures done' == if id == n then done + {t[src].page} else done
  {
    GroupAdds(t, src, src + id, n);
    kept' := KeptNext(t, src, id, n, kept);
    done' := if id == n then done + {t[src].page} else done;
  }

  lemma FreshPage(t: seq<Frag>, src: nat, id: nat, n: nat, kept: seq<Frag>, done: set<nat>, pt: seq<Page>)
    requires Sorted(t) && Boundary(t, src, n, kept, done) && GroupAt(t, src, id) && Ready(pt, t)
    ensures t[src].page !in done && IsFragPage(pt, t[src].page) && forall p :: p in done ==> IsFragPage(pt, p)
  {
    GroupAdds(t, src, src + id, n);
    CompleteAreFragPages(pt, t, src, n);
    assert ReadyAt(pt, t, src);
  }

  /** The next page's group of entries. */
  method FindGroup(st: Stack, src: nat, ghost t: seq<Frag>, ghost dst: nat, ghost kept: seq<Frag>) returns (id: nat)
    requires st.Valid() && src < st.index && Compacted(st.Contents(), t, src, dst, kept)
    ensures GroupAt(t, src, id) && st.entries[src] == t[src]
  {
    ghost var e := st.Contents();
    EntriesAre(e, t, src);
    id := GroupEnd(st, src);
    assert forall i :: src <= i < src + id ==> t[i] == e[i] == st.entries[i];
    assert src + id < |t| ==> t[src + id] == e[src + id] == st.entries[src + id];
  }

  lemma ReadyInAnyOrder(pt: seq<Page>, s: seq<Frag>, t: seq<Frag>)
    requires Ready(pt, s) && multiset(s) == multiset(t)
    ensures Ready(pt, t)
  {
    forall i | 0 <= i < |t| ensures ReadyAt(pt, t, i) {
      InBoth(t, s, i);
      var j :| 0 <= j < |s| && s[j] == t[i];
      assert ReadyAt(pt, s, j);
    }
  }

  /** In the middle of the filter: kept entries below dst, entries still to be looked at from src on. */
  ghost predicate Compacted(e: seq<Frag>, t: seq<Frag>, src: nat, dst: nat, kept: seq<Frag>) {
    dst <= src <= |t| == |e| && e[src..] == t[src..] && e[..dst] == kept
  }

  /** An incomplete page's group stays: it is already in place or moves down. */
  method KeepGroup(st: Stack, src: nat, dst: nat, id: nat, ghost t: seq<Frag>, ghost kept: seq<Frag>)
    returns (dst': nat)
    requires st.Valid() && Compacted(st.Contents(), t, src, dst, kept) && src + id <= |t|
    modifies st.entries
    ensures Compacted(st.Contents(), t, src + id, dst', kept + t[src..src + id])
  {
    ghost var e := st.Contents();
    TailSlices(e, t, src, id);
    if src == dst {
      assert e[..src + id] == e[..src] + e[src..src + id];
      return src + id;
    }
    MoveDown(st, src, dst, id);
    MovedSlices(e, st.Contents(), src, dst, id);
    return dst + id;
  }

  lemma CompactedDropped(e: seq<Frag>, t: seq<Frag>, src: nat, dst: nat, id: nat, kept: seq<Frag>)
    requires Compacted(e, t, src, dst, kept) && src + id <= |t|
    ensures Compacted(e, t, src + id, dst, kept)
  {
    TailSlices(e, t, src, id);
  }

  lemma MovedSlices(e: seq<Frag>, e': seq<Frag>, src: nat, dst: nat, id: nat)
    requires Moved(e, e', src, dst, id)
    ensures e'[..dst + id] == e[..dst] + e[src..src + id] && e'[src + id..] == e[src + id..]
  {
  }

  lemma TailSlices(e: seq<Frag>, t: seq<Frag>, src: nat, id: nat)
    requires |e| == |t| && src + id <= |t| && e[src..] == t[src..]
    ensures e[src..src + id] == t[src..src + id] && e[src + id..] == t[src + id..]
  {
    EntriesAre(e, t, src);
  }

  lemma CompleteAreFragPages(pt: seq<Page>, t: seq<Frag>, k: nat, n: nat)
    requires k <= |t| && Ready(pt, t)
    ensures forall pg :: pg in CompleteBefore(t, k, n) ==> IsFragPage(pt, pg)
  {
    forall pg | pg in CompleteBefore(t, k, n) ensures IsFragPage(pt, pg) {
      CompleteMember(t, k, n, pg);
      var i :| 0 <= i < k && t[i].page == pg;
      assert ReadyAt(pt, t, i);
    }
  }

  lemma EntriesAre(e: seq<Frag>, t: seq<Frag>, src: nat)
    requires |e| == |t| && src <= |t| && e[src..] == t[src..]
    ensures forall i :: src <= i < |t| ==> e[i] == t[i]
  {
    forall i | src <= i < |t| ensures e[i] == t[i] {
      assert e[i] == e[src..][i - src];
    }
  }

  /** A complete page goes back to the page allocator. */
  method DropGroup(table: PageTable.Table, pg: nat, ghost pt: seq<Page>, ghost done: set<nat>, ghost free0: int)
    requires table.Valid() && Chained(pt) && GivenBack(pt, table.pages, table.numFree - free0, done)
    requires pg !in done && IsFragPage(pt, pg) && forall p :: p in done ==> IsFragPage(pt, p)
    modifies table`pages, table`numFree, table.bits, table.list
    ensures table.Valid() && GivenBack(pt, table.pages, table.numFree - free0, done + {pg})
  {
    FreedKeepsChains(pt, table.pages, done);
    assert FreedAt(pt, table.pages, done, pg);
    ghost var before := table.pages;
    UnrefFragments(before, pg);
    table.PagesUnref(pg);
    forall q | 0 <= q < |pt| ensures FreedAt(pt, table.pages, done + {pg}, q) {
      assert FreedAt(pt, before, done, q);
    }
  }
}
