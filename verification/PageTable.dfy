/**
 The page allocator (kern/mem/mem.c): bitmap, page-info table, counter and the pages themselves, changed
 in place. Addresses are pairs of a page number and an offset within the page.
 */
module PageTable {
  import Bitmap
  import opened Bytes
  import opened Pages

  /** A run that the search of mem_pages_alloc can find: it passes over a byte's first page behind eight used ones. */
  ghost predicate CanSeek(pages: seq<Page>, num: nat, p: nat) {
    && p + num < |pages| && !pages[p].used && (forall q :: p <= q < p + num ==> !pages[q].used)
    && (p > 0 && p % 8 == 0 ==> exists q :: p - 8 <= q < p && !pages[q].used)
  }

  /** The first such run, or 0. */
  ghost predicate IsSought(pages: seq<Page>, num: nat, first: nat) {
    if first == 0 then CanSeek(pages, num, 0) || forall p: nat :: !CanSeek(pages, num, p)
    else CanSeek(pages, num, first) && forall p: nat :: p < first ==> !CanSeek(pages, num, p)
  }

  class Table {
    const cfg: Config
    const bits: array<bv8>           // page_map
    const list: array<Byte>          // page_list
    const ram: array2<Byte>          // one row per page
    var numFree: int                 // mem_num_pages_free
    var numLocked: int               // mem_num_pages_locked
    ghost var pages: seq<Page>

    ghost const Repr: set<object> := {this, bits, list, ram}

    ghost predicate Valid()
      reads this`pages, bits, list
    {
      && cfg.Valid() && 8 * bits.Length == cfg.numPages && list.Length == cfg.numPages
      && ram.Length0 == cfg.numPages && ram.Length1 == cfg.PageSize()
      && |pages| == cfg.numPages
      && forall i :: 0 <= i < |pages| ==> Mirrors(i)
    }

    /** Bitmap and page-info byte of this page say what pages[i] says. */
    ghost predicate Mirrors(i: nat)
      requires cfg.Valid() && i < |pages| && i < list.Length && i < 8 * bits.Length
      reads this`pages, bits, list
    {
      pages[i] == Decode(cfg.Sizes(), Bitmap.Get(bits[..], i), list[i])
    }

    /** The tables as mem_init has cleared them; the pages hold whatever was there before. */
    constructor (cfg: Config)
      requires cfg.Valid()
      ensures Valid() && fresh(Repr) && this.cfg == cfg
      ensures pages == seq(cfg.numPages, _ => FREE) && numFree == cfg.numPages && numLocked == 0
    {
      this.cfg := cfg;
      bits := new bv8[cfg.numPages / 8](_ => 0);
      list := new Byte[cfg.numPages](_ => 0);
      ram := new Byte[cfg.numPages, cfg.PageSize()];
      numFree, numLocked := cfg.numPages, 0;
      pages := seq(cfg.numPages, _ => FREE);
      new;
      InfoRoundTrip(cfg, false, 0, false, 0);
      forall i | 0 <= i < cfg.numPages ensures !Bitmap.Get(bits[..], i) {
        assert bits[..][i / 8] == 0;
      }
      assert forall i :: 0 <= i < cfg.numPages ==> Mirrors(i);
    }

    method GetUsed(p: nat) returns (used: bool)
      requires Valid() && p < |pages|
      ensures used == pages[p].used
    {
      assert Mirrors(p);
      used := Bitmap.BitSet(bits[p / 8], p % 8);
    }

    method GetLocked(p: nat) returns (locked: bool)
      requires Valid() && p < |pages|
      ensures locked == Locked(pages[p])
    {
      assert Mirrors(p);
      locked := InfoCont(cfg.Sizes(), list[p]) && InfoFrag(cfg.Sizes(), list[p]) != 0;
    }

    /** page_alloc, and the same with FALSE and zeros: PAGE_FREE without the counter. */
    method SetPage(p: nat, ghost g: Page, used: bool, frag: nat, cont: bool, owner: nat)
      requires Valid() && p < |pages| && frag <= cfg.Sizes() && owner < cfg.Owners()
      requires g == Page(used, frag, cont, owner)
      modifies this`pages, bits, list
      ensures Valid() && pages == old(pages)[p := g]
    {
      ghost var b0: seq<bv8>, l0: seq<Byte> := bits[..], list[..];
      ghost var pt := pages;
      forall i | 0 <= i < |pt| ensures pt[i] == Decode(cfg.Sizes(), Bitmap.Get(b0, i), l0[i]) {
        assert Mirrors(i);
      }
      Bitmap.Set(bits, p, used);
      list[p] := Encode(cfg.Sizes(), frag, cont, owner);
      InfoRoundTrip(cfg, used, frag, cont, owner);
      pages := pages[p := g];
      forall i | 0 <= i < |pages| ensures Mirrors(i) {
        assert i != p ==> Bitmap.Get(bits[..], i) == Bitmap.Get(b0, i) && list[i] == l0[i];
      }
    }

    method PageAlloc(p: nat, frag: nat, cont: bool, owner: nat)
      requires Valid() && p < |pages| && frag <= cfg.Sizes() && owner < cfg.Owners()
      modifies this`pages, this`numFree, bits, list
      ensures Valid() && pages == old(pages)[p := Page(true, frag, cont, owner)] && numFree == old(numFree) - 1
    {
      numFree := numFree - 1;
      SetPage(p, Page(true, frag, cont, owner), true, frag, cont, owner);
    }

    /** PAGE_FREE */
    method PageFree(p: nat)
      requires Valid() && p < |pages|
      modifies this`pages, this`numFree, bits, list
      ensures Valid() && pages == old(pages)[p := FREE] && numFree == old(numFree) + 1
    {
      SetPage(p, FREE, false, 0, false, 0);
      numFree := numFree + 1;
    }

    /** bzero of a part of a page */
    method Bzero(p: nat, off: nat, len: nat)
      requires ram.Length0 > p && off + len <= ram.Length1
      modifies ram
      ensures forall q, o :: 0 <= q < ram.Length0 && 0 <= o < ram.Length1 ==>
        ram[q, o] == if q == p && off <= o < off + len then 0 else old(ram[q, o])
    {
      for i := 0 to len
        invariant forall q, o :: 0 <= q < ram.Length0 && 0 <= o < ram.Length1 ==>
          ram[q, o] == if q == p && off <= o < off + i then 0 else old(ram[q, o])
      {
        ram[p, off + i] := 0;
      }
    }

    /** mem_pages_ref: mark a run of pages as used and clear them. */
    method PagesRef(first: nat, num: nat, frag: nat, owner: nat)
      requires Valid() && first + num <= |pages| && frag <= cfg.Sizes() && owner < cfg.Owners()
      modifies this`pages, this`numFree, bits, list, ram
      ensures Valid() && pages == RefRun(old(pages), first, num, frag, owner) && numFree == old(numFree) - num
      ensures forall q, o :: 0 <= q < ram.Length0 && 0 <= o < ram.Length1 ==>
        ram[q, o] == if first <= q < first + num then 0 else old(ram[q, o])
    {
      var p, n := first, num;
      while n != 0
        invariant 0 <= n && first <= p && p + n == first + num && Valid()
        invariant RefRun(pages, p, n, frag, owner) == RefRun(old(pages), first, num, frag, owner)
        invariant numFree == old(numFree) - (num - n)
        invariant forall q, o :: 0 <= q < ram.Length0 && 0 <= o < ram.Length1 ==>
          ram[q, o] == if first <= q < p then 0 else old(ram[q, o])
        decreases n
      {
        n := n - 1;
        PageAlloc(p, frag, n != 0, owner);
        Bzero(p, 0, cfg.PageSize());
        p := p + 1;
      }
    }

    /** The loop of mem_pages_unref: PAGE_FREE along the chain. */
    method FreeChain(first: nat)
      requires Valid() && Chained(pages) && first < |pages| && pages[first].used && !Locked(pages[first])
      modifies this`pages, this`numFree, bits, list
      ensures Valid() && pages == FreeRun(old(pages), first, ChainLength(old(pages), first))
      ensures numFree == old(numFree) + ChainLength(old(pages), first)
    {
      var p := first;
      var cont := true;
      ghost var pt, n := pages, 0;
      while cont
        invariant p == first + n <= |pt| && Valid() && 0 <= n
        invariant pages == FreeRun(pt, first, n) && numFree == old(numFree) + n
        invariant cont ==> p < |pt| && !Locked(pt[p]) && n + ChainLength(pt, p) == ChainLength(pt, first)
        invariant !cont ==> n == ChainLength(pt, first)
        decreases |pages| - p, cont
      {
        assert Mirrors(p) && ChainedAt(pt, p);
        cont := InfoCont(cfg.Sizes(), list[p]);
        assert cont == pt[p].cont;
        FreeRunStep(pt, first, n);
        PageFree(p);
        p, n := p + 1, n + 1;
      }
    }

    /** mem_pages_unref */
    method PagesUnref(first: nat)
      requires Valid() && Chained(pages) && 1 <= first < |pages| && pages[first].used && !Locked(pages[first])
      modifies this`pages, this`numFree, bits, list
      ensures Valid() && pages == Unref(old(pages), first)
      ensures numFree == old(numFree) + if Continued(old(pages)[first - 1]) then 0 else ChainLength(old(pages), first)
    {
      var locked := GetLocked(first - 1);
      assert Mirrors(first - 1);
      if !locked && InfoCont(cfg.Sizes(), list[first - 1]) { return; }
      FreeChain(first);
    }

    /** PAGE_LOCK */
    method PageLock(p: nat)
      requires Valid() && p < |pages|
      modifies this, bits, list
      ensures Valid() && pages == if Locked(old(pages)[p]) then old(pages) else old(pages)[p := Page(true, 1, true, 0)]
      ensures var n := if Locked(old(pages)[p]) then 0 else 1;
        numFree == old(numFree) - n && numLocked == old(numLocked) + n
    {
      var locked := GetLocked(p);
      if !locked {
        PageAlloc(p, 1, true, 0);
        numLocked := numLocked + 1;
      }
    }

    /** mem_pages_lock: lock those pages of a run that are not locked yet. */
    method PagesLock(first: nat, num: nat)
      requires Valid() && first + num <= |pages|
      modifies this, bits, list
      ensures Valid() && pages == LockRun(old(pages), first, num)
      ensures var n := NewlyLocked(old(pages), first, num);
        numFree == old(numFree) - n && numLocked == old(numLocked) + n
    {
      var p, n := first, num;
      ghost var pt := pages;
      while n != 0
        invariant 0 <= n && first <= p && p + n == first + num && Valid()
        invariant pages == LockRun(pt, first, p - first)
        invariant numFree == old(numFree) - NewlyLocked(pt, first, p - first)
        invariant numLocked == old(numLocked) + NewlyLocked(pt, first, p - first)
        decreases n
      {
        n := n - 1;
        PageLock(p);
        p := p + 1;
      }
    }

    /** mem_page_alloc: the highest free page but page 0, or 0. */
    method SinglePageAlloc(frag: nat, owner: nat) returns (page: nat)
      requires Valid() && frag <= cfg.Sizes() && owner < cfg.Owners()
      modifies this`pages, this`numFree, bits, list, ram
      ensures Valid()
      ensures page < |pages| && forall q :: page < q < |pages| ==> old(pages)[q].used
      ensures page == 0 ==> pages == old(pages) && numFree == old(numFree) && unchanged(ram)
      ensures page != 0 ==>
        && !old(pages)[page].used && pages == old(pages)[page := Page(true, frag, false, owner)]
        && numFree == old(numFree) - 1
        && forall q, o :: 0 <= q < ram.Length0 && 0 <= o < ram.Length1 ==>
          ram[q, o] == if q == page then 0 else old(ram[q, o])
    {
      page := Bitmap.SeekTop(bits);
      forall q | 0 <= q < |pages| ensures pages[q].used == Bitmap.Get(bits[..], q) {
        assert Mirrors(q);
      }
      if page != 0 {
        PagesRef(page, 1, frag, owner);
      }
    }

    lemma CandidateIsRun(num: nat, p: nat)
      requires Valid()
      ensures Bitmap.Candidate(bits[..], cfg.numPages, 0, num, p) <==> CanSeek(pages, num, p)
    {
      forall q | 0 <= q < |pages| ensures pages[q].used == Bitmap.Get(bits[..], q) {
        assert Mirrors(q);
      }
      if p < |pages| && p > 0 && p % 8 == 0 {
        Bitmap.FullByteOfMap(bits[..], p / 8 - 1);
      }
      if 8 <= p < |pages| { Bitmap.EntryFromStart(bits[..], p / 8 - 1); }
    }

    /** mem_pages_alloc: a run of free pages, or 0. Single pages are taken from the top of memory. */
    method PagesAlloc(num: nat, frag: nat, owner: nat) returns (first: nat)
      requires Valid() && num <= |pages| && frag <= cfg.Sizes() && owner < cfg.Owners()
      modifies this`pages, this`numFree, bits, list, ram
      ensures Valid()
      ensures first == 0 ==> pages == old(pages) && numFree == old(numFree) && unchanged(ram)
      ensures first == 0 && num == 1 ==> forall q :: 1 <= q < |pages| ==> pages[q].used
      ensures num != 1 ==> IsSought(old(pages), num, first)
      ensures first != 0 ==>
        && first + num <= |pages| && (forall q :: first <= q < first + num ==> !old(pages)[q].used)
        && pages == RefRun(old(pages), first, num, frag, owner)
        && numFree == old(numFree) - num
        && forall q, o :: 0 <= q < ram.Length0 && 0 <= o < ram.Length1 ==>
             ram[q, o] == if first <= q < first + num then 0 else old(ram[q, o])
    {
      if num == 1 {
        first := SinglePageAlloc(frag, owner);
        return;
      }
      first := Bitmap.Seek(bits, cfg.numPages, 0, num);
      forall p: nat ensures Bitmap.Candidate(bits[..], cfg.numPages, 0, num, p) <==> CanSeek(pages, num, p) {
        CandidateIsRun(num, p);
      }
      if first != 0 {
        forall q | first <= q < first + num ensures !pages[q].used {
          assert !Bitmap.Get(bits[..], q) && Mirrors(q);
        }
        PagesRef(first, num, frag, owner);
      }
    }

    method KillPage(p: nat, owner: nat)
      requires Valid() && p < |pages|
      modifies this`pages, this`numFree, bits, list
      ensures Valid() && pages == if OwnedBy(old(pages)[p], owner) then old(pages)[p := FREE] else old(pages)
      ensures numFree == old(numFree) + if OwnedBy(old(pages)[p], owner) then 1 else 0
    {
      var locked := GetLocked(p);
      var used := GetUsed(p);
      assert Mirrors(p);
      if !locked && used && InfoOwner(cfg.Sizes(), list[p]) == owner {
        PageFree(p);
      }
    }

    /** mem_kill_proc */
    method KillProc(owner: nat)
      requires Valid()
      modifies this`pages, this`numFree, bits, list
      ensures Valid() && pages == Kill(old(pages), owner, |old(pages)|)
      ensures numFree == old(numFree) + Killed(old(pages), owner, |old(pages)|)
    {
      var p := 0;
      ghost var pt := pages;
      while p < cfg.numPages
        invariant 0 <= p <= cfg.numPages && Valid()
        invariant pages == Kill(pt, owner, p) && numFree == old(numFree) + Killed(pt, owner, p)
      {
        KillPage(p, owner);
        p := p + 1;
      }
    }
  }
}
