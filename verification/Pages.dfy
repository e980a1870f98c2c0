/**
 Pages and page chains as values (include/mem.h, kern/mem/mem.c): the configuration, the page-info byte
 and what allocating, freeing and killing do to the sequence of all pages.
 */
module Pages {
  import opened Bytes

  // ----- Configuration -----

  function Pow2(n: nat): (r: nat)
    ensures r >= 1
  {
    if n == 0 then 1 else 2 * Pow2(n - 1)
  }

  /**
   PAGESIZE_LOG, FRAGSIZEMIN_LOG and the number of pages. PFRAG is a mask only if FRAGMENT_SIZES + 1 is a
   power of two, and ADDR2FRAGIDX casts an offset within a page to a byte, so a page has at most 256.
   */
  datatype Config = Config(pageLog: nat, minLog: nat, numPages: nat)
  {
    predicate Valid() {
      3 <= pageLog <= 8 && minLog < pageLog && (Sizes() == 1 || Sizes() == 3 || Sizes() == 7)
      && 8 <= numPages <= 0x1_0000 && numPages % 8 == 0
    }

    /** FRAGMENT_SIZES */
    function Sizes(): int { pageLog - minLog }

    /** PAGESIZE */
    function PageSize(): nat { Pow2(pageLog) }

    /** FRAGSIZE of a page with this logarithmic fragment size. */
    function FragSize(fs: nat): nat
      requires fs <= pageLog
    {
      Pow2(pageLog - fs)
    }

    /** How many owner ids the page-info byte can hold. */
    function Owners(): nat { if Sizes() == 1 then 64 else if Sizes() == 3 then 32 else 16 }
  }

  // ----- The page-info byte -----

  /** A page as PAGE_USED, FRAGLOG, PAGE_CONT and PAGE_PROC show it. */
  datatype Page = Page(used: bool, frag: nat, cont: bool, owner: nat)

  const FREE := Page(false, 0, false, 0)

  /** PAGEINFO_SET: fsize | (cont ? PCONT : 0) | PCONT * 2 * proc, stored in a byte. */
  function Encode(sizes: nat, frag: nat, cont: bool, owner: nat): Byte {
    (frag + (if cont then sizes + 1 else 0) + 2 * (sizes + 1) * owner) % 0x100
  }

  /** FRAGLOG: info & PFRAG */
  function InfoFrag(sizes: nat, info: Byte): nat { info % (sizes + 1) }

  /** PAGE_CONT: info & PCONT */
  predicate InfoCont(sizes: nat, info: Byte) { info / (sizes + 1) % 2 == 1 }

  /** PAGE_PROC: info / PCONT / 2 */
  function InfoOwner(sizes: nat, info: Byte): nat { info / (sizes + 1) / 2 }

  function Decode(sizes: nat, used: bool, info: Byte): Page {
    Page(used, InfoFrag(sizes, info), InfoCont(sizes, info), InfoOwner(sizes, info))
  }

  /** The byte keeps everything exactly if the owner id fits; otherwise the id is cut off. */
  lemma InfoRoundTrip(c: Config, used: bool, frag: nat, cont: bool, owner: nat)
    requires c.Valid() && frag <= c.Sizes()
    ensures Decode(c.Sizes(), used, Encode(c.Sizes(), frag, cont, owner)) == Page(used, frag, cont, owner % c.Owners())
    ensures Decode(c.Sizes(), used, Encode(c.Sizes(), frag, cont, owner)) == Page(used, frag, cont, owner) <==>
      owner < c.Owners()
  {
    if c.Sizes() == 1 { Info1(frag, cont, owner); }
    else if c.Sizes() == 3 { Info3(frag, cont, owner); }
    else { Info7(frag, cont, owner); }
  }

  lemma ByteOf(b: int, k: int, n: int)
    requires 0 <= b < 0x100 && n == b + 0x100 * k
    ensures n % 0x100 == b
  {
  }

  lemma Info1(frag: nat, cont: bool, owner: nat)
    requires frag <= 1
    ensures var i := Encode(1, frag, cont, owner);
      InfoFrag(1, i) == frag && InfoCont(1, i) == cont && InfoOwner(1, i) == owner % 64
  {
    var bit, o := if cont then 1 else 0, owner % 64;
    var info := Encode(1, frag, cont, owner);
    assert info == frag + 2 * bit + 4 * o by { ByteOf(frag + 2 * bit + 4 * o, owner / 64, frag + 2 * bit + 4 * owner); }
    assert info == frag + 2 * (bit + 2 * o);
    assert info / 2 == bit + 2 * o;
  }

  lemma Info3(frag: nat, cont: bool, owner: nat)
    requires frag <= 3
    ensures var i := Encode(3, frag, cont, owner);
      InfoFrag(3, i) == frag && InfoCont(3, i) == cont && InfoOwner(3, i) == owner % 32
  {
    var bit, o := if cont then 1 else 0, owner % 32;
    var info := Encode(3, frag, cont, owner);
    assert info == frag + 4 * bit + 8 * o by { ByteOf(frag + 4 * bit + 8 * o, owner / 32, frag + 4 * bit + 8 * owner); }
    assert info == frag + 4 * (bit + 2 * o);
    assert info / 4 == bit + 2 * o;
  }

  lemma Info7(frag: nat, cont: bool, owner: nat)
    requires frag <= 7
    ensures var i := Encode(7, frag, cont, owner);
      InfoFrag(7, i) == frag && InfoCont(7, i) == cont && InfoOwner(7, i) == owner % 16
  {
    var bit, o := if cont then 1 else 0, owner % 16;
    var info := Encode(7, frag, cont, owner);
    assert info == frag + 8 * bit + 16 * o by {
      ByteOf(frag + 8 * bit + 16 * o, owner / 16, frag + 8 * bit + 16 * owner);
    }
    assert info == frag + 8 * (bit + 2 * o);
    assert info / 8 == bit + 2 * o;
  }

  // ----- All pages -----

  /** PAGE_LOCKED */
  predicate Locked(g: Page) { g.cont && g.frag != 0 }

  /** Is the page continued by the next one? */
  predicate Continued(g: Page) { g.cont && !Locked(g) }

  /**
   The pages are in order: free pages carry no information, and a page that is continued is followed by
   a page of the same owner that is in use for whole pages. So the last page of a chain lacks PCONT.
   */
  ghost predicate Chained(pt: seq<Page>) {
    forall p :: 0 <= p < |pt| ==> ChainedAt(pt, p)
  }

  predicate ChainedAt(pt: seq<Page>, p: nat)
    requires p < |pt|
  {
    && (!pt[p].used ==> pt[p] == FREE)
    && (Continued(pt[p]) ==> p + 1 < |pt| && Follows(pt[p], pt[p + 1]))
  }

  predicate Follows(g: Page, h: Page) {
    h.used && h.frag == 0 && h.owner == g.owner
  }

  function CountFree(pt: seq<Page>): (n: nat)
    ensures n <= |pt|
  {
    if pt == [] then 0 else CountFree(pt[..|pt| - 1]) + if pt[|pt| - 1].used then 0 else 1
  }

  lemma {:induction false} CountFreeUpdate(pt: seq<Page>, p: nat, g: Page)
    requires p < |pt|
    ensures CountFree(pt[p := g]) == CountFree(pt) + (if g.used then 0 else 1) - (if pt[p].used then 0 else 1)
  {
    var last := |pt| - 1;
    if p == last {
      assert pt[p := g][..last] == pt[..last];
    } else {
      assert pt[p := g][..last] == pt[..last][p := g];
      CountFreeUpdate(pt[..last], p, g);
    }
  }

  /** Nothing is free exactly if the count is 0. */
  lemma {:induction false} CountFreeZero(pt: seq<Page>)
    ensures CountFree(pt) == 0 <==> forall p :: 0 <= p < |pt| ==> pt[p].used
  {
    if pt != [] {
      var last := |pt| - 1;
      CountFreeZero(pt[..last]);
      assert forall p :: 0 <= p < last ==> pt[..last][p] == pt[p];
    }
  }

  // ----- Runs of pages -----

  /** A page of a run that ends with page last. */
  function RunPage(p: int, last: int, frag: nat, owner: nat): Page {
    Page(true, frag, p != last, owner)
  }

  /** mem_pages_ref: mark num pages from p as used, all but the last with PCONT. */
  function RefRun(pt: seq<Page>, p: nat, num: nat, frag: nat, owner: nat): (r: seq<Page>)
    requires p + num <= |pt|
    ensures |r| == |pt|
    ensures forall q :: 0 <= q < |pt| ==>
      r[q] == if p <= q < p + num then RunPage(q, p + num - 1, frag, owner) else pt[q]
    decreases num
  {
    if num == 0 then pt
    else RefRun(pt[p := Page(true, frag, num != 1, owner)], p + 1, num - 1, frag, owner)
  }

  /** Is [p, p + num) a whole chain of this owner? */
  ghost predicate IsChain(pt: seq<Page>, p: nat, num: nat, owner: nat) {
    && num >= 1 && p + num <= |pt|
    && (forall q :: p <= q < p + num ==> pt[q] == RunPage(q, p + num - 1, 0, owner))
    && !(p >= 1 && Continued(pt[p - 1]))
  }

  /** PAGE_FREE of num pages from p. */
  function FreeRun(pt: seq<Page>, p: nat, num: nat): (r: seq<Page>)
    requires p + num <= |pt|
    ensures |r| == |pt|
    ensures forall q :: 0 <= q < |pt| ==> r[q] == if p <= q < p + num then FREE else pt[q]
    decreases num
  {
    if num == 0 then pt else FreeRun(pt[p := FREE], p + 1, num - 1)
  }

  lemma FreeRunStep(pt: seq<Page>, p: nat, num: nat)
    requires p + num < |pt|
    ensures FreeRun(pt, p, num + 1) == FreeRun(pt, p, num)[p + num := FREE]
  {
  }

  /** How many pages the loop of mem_pages_unref frees from p on. */
  ghost function ChainLength(pt: seq<Page>, p: nat): (n: nat)
    requires p < |pt|
    ensures 1 <= n && p + n <= |pt|
    decreases |pt| - p
  {
    if pt[p].cont && p + 1 < |pt| then 1 + ChainLength(pt, p + 1) else 1
  }

  /** In ordered pages, every used unlocked page begins a stretch of one owner whose last page alone lacks PCONT. */
  lemma {:induction false} ChainHasOneOwner(pt: seq<Page>, p: nat)
    requires Chained(pt) && p < |pt| && pt[p].used && !Locked(pt[p])
    ensures forall q :: p <= q < p + ChainLength(pt, p) ==> pt[q].used && !Locked(pt[q]) && pt[q].owner == pt[p].owner
    ensures forall q :: p <= q < p + ChainLength(pt, p) ==> pt[q].cont == (q != p + ChainLength(pt, p) - 1)
    decreases |pt| - p
  {
    assert ChainedAt(pt, p);
    if pt[p].cont { ChainHasOneOwner(pt, p + 1); }
  }

  /** mem_pages_unref: nothing for a page that continues the previous one, otherwise the chain from p. */
  ghost function Unref(pt: seq<Page>, p: nat): seq<Page>
    requires 1 <= p < |pt|
  {
    if Continued(pt[p - 1]) then pt else FreeRun(pt, p, ChainLength(pt, p))
  }

  lemma {:induction false} ChainLengthOfRun(pt: seq<Page>, p: nat, num: nat, owner: nat)
    requires num >= 1 && p + num <= |pt|
    requires forall q :: p <= q < p + num ==> pt[q] == RunPage(q, p + num - 1, 0, owner)
    ensures ChainLength(pt, p) == num
    decreases num
  {
    assert pt[p] == RunPage(p, p + num - 1, 0, owner);
    if num > 1 { ChainLengthOfRun(pt, p + 1, num - 1, owner); }
  }

  /** Freeing the first page of a chain frees exactly the chain. */
  lemma UnrefChain(pt: seq<Page>, p: nat, num: nat, owner: nat)
    requires p >= 1 && IsChain(pt, p, num, owner)
    ensures Unref(pt, p) == FreeRun(pt, p, num)
  {
    ChainLengthOfRun(pt, p, num, owner);
  }

  /** Freeing a page of fragments frees that page alone. */
  lemma UnrefFragments(pt: seq<Page>, p: nat)
    requires 1 <= p < |pt| && Chained(pt) && pt[p].used && pt[p].frag != 0 && !pt[p].cont
    ensures Unref(pt, p) == pt[p := FREE]
  {
    assert ChainedAt(pt, p - 1);
    assert FreeRun(pt, p, 1) == pt[p := FREE];
  }

  lemma {:induction false} CountFreeRefRun(pt: seq<Page>, p: nat, num: nat, frag: nat, owner: nat)
    requires p + num <= |pt|
    requires forall q :: p <= q < p + num ==> !pt[q].used
    ensures CountFree(RefRun(pt, p, num, frag, owner)) == CountFree(pt) - num
    decreases num
  {
    if num > 0 {
      var g := Page(true, frag, num != 1, owner);
      CountFreeUpdate(pt, p, g);
      CountFreeRefRun(pt[p := g], p + 1, num - 1, frag, owner);
    }
  }

  lemma {:induction false} CountFreeFreeRun(pt: seq<Page>, p: nat, num: nat)
    requires p + num <= |pt|
    requires forall q :: p <= q < p + num ==> pt[q].used
    ensures CountFree(FreeRun(pt, p, num)) == CountFree(pt) + num
    decreases num
  {
    if num > 0 {
      CountFreeUpdate(pt, p, FREE);
      CountFreeFreeRun(pt[p := FREE], p + 1, num - 1);
    }
  }

  /** PAGE_LOCK for num pages from p: those that are locked already stay as they are. */
  function LockRun(pt: seq<Page>, p: nat, num: nat): (r: seq<Page>)
    requires p + num <= |pt|
    ensures |r| == |pt|
    ensures forall q :: 0 <= q < |pt| ==>
      r[q] == if p <= q < p + num && !Locked(pt[q]) then Page(true, 1, true, 0) else pt[q]
  {
    if num == 0 then pt
    else
      var r := LockRun(pt, p, num - 1);
      if Locked(pt[p + num - 1]) then r else r[p + num - 1 := Page(true, 1, true, 0)]
  }

  /** How many pages that locks. */
  function NewlyLocked(pt: seq<Page>, p: nat, num: nat): nat
    requires p + num <= |pt|
  {
    if num == 0 then 0 else NewlyLocked(pt, p, num - 1) + if Locked(pt[p + num - 1]) then 0 else 1
  }

  lemma CountFreeLock(before: seq<Page>, after: seq<Page>, pt: seq<Page>, q: nat)
    requires q < |before| == |pt| && before[q] == pt[q] && (Locked(pt[q]) || !pt[q].used)
    requires after == if Locked(pt[q]) then before else before[q := Page(true, 1, true, 0)]
    ensures CountFree(after) == CountFree(before) - if Locked(pt[q]) then 0 else 1
  {
    if !Locked(pt[q]) { CountFreeUpdate(before, q, Page(true, 1, true, 0)); }
  }

  lemma {:induction false} CountFreeLockRun(pt: seq<Page>, p: nat, num: nat)
    requires p + num <= |pt|
    requires forall q :: p <= q < p + num ==> Locked(pt[q]) || !pt[q].used
    ensures CountFree(LockRun(pt, p, num)) == CountFree(pt) - NewlyLocked(pt, p, num)
  {
    if num > 0 {
      CountFreeLockRun(pt, p, num - 1);
      CountFreeLock(LockRun(pt, p, num - 1), LockRun(pt, p, num), pt, p + num - 1);
    }
  }

  // ----- Killing an owner -----

  predicate OwnedBy(g: Page, owner: nat) { g.used && !Locked(g) && g.owner == owner }

  /** mem_kill_proc on the first n pages. */
  function Kill(pt: seq<Page>, owner: nat, n: nat): (r: seq<Page>)
    requires n <= |pt|
    ensures |r| == |pt|
    ensures forall q :: 0 <= q < |pt| ==> r[q] == if q < n && OwnedBy(pt[q], owner) then FREE else pt[q]
  {
    if n == 0 then pt
    else
      var r := Kill(pt, owner, n - 1);
      if OwnedBy(pt[n - 1], owner) then r[n - 1 := FREE] else r
  }

  /** How many pages that frees. */
  function Killed(pt: seq<Page>, owner: nat, n: nat): nat
    requires n <= |pt|
  {
    if n == 0 then 0 else Killed(pt, owner, n - 1) + if OwnedBy(pt[n - 1], owner) then 1 else 0
  }

  lemma {:induction false} CountFreeKill(pt: seq<Page>, owner: nat, n: nat)
    requires n <= |pt|
    ensures CountFree(Kill(pt, owner, n)) == CountFree(pt) + Killed(pt, owner, n)
  {
    if n > 0 {
      CountFreeKill(pt, owner, n - 1);
      CountFreeUpdate(Kill(pt, owner, n - 1), n - 1, FREE);
    }
  }

  /** Killing an owner frees exactly its unlocked pages and leaves all other chains in order. */
  lemma KillKeepsChains(pt: seq<Page>, owner: nat)
    requires Chained(pt)
    ensures Chained(Kill(pt, owner, |pt|))
  {
    var r := Kill(pt, owner, |pt|);
    forall p | 0 <= p < |r| ensures ChainedAt(r, p) {
      assert ChainedAt(pt, p);
    }
  }
}
