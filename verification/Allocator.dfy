/**
 The allocator itself (kern/mem/mem.c): pmalloc2, freep and what they call, on the page table and the
 fragment stacks of processes. A ghost history records every step, so what holds for runs of HeapSteps
 holds for every sequence of calls.
 */
module Allocator {
  import opened Bytes
  import opened Pages
  import opened FragStack
  import opened FragSets
  import opened Heap
  import opened HeapSteps
  import opened Leaks
  import opened Blocks
  import opened Owners
  import PageTable

  // ----- Memory as a value -----

  function ClearPages(ram: Ram, first: nat, num: nat): (r: Ram)
    ensures ClearedPages(ram, r, first, num)
  {
    var r: Ram := seq(|ram|, p requires 0 <= p < |ram| =>
      if first <= p < first + num then seq(|ram[p]|, _ => 0) else ram[p]);
    assert forall p :: 0 <= p < |ram| ==> ClearedPage(ram[p], r[p], first <= p < first + num);
    r
  }

  /** A row with len bytes cleared from off on. */
  function ClearBytes(row: seq<Byte>, off: nat, len: nat): (r: seq<Byte>)
    ensures |r| == |row| && forall i :: 0 <= i < |row| ==> r[i] == if off <= i < off + len then 0 else row[i]
  {
    seq(|row|, i requires 0 <= i < |row| => if off <= i < off + len then 0 else row[i])
  }

  function WithByte(ram: Ram, page: nat, off: nat, x: Byte): Ram
    requires page < |ram| && off < |ram[page]|
  {
    var row: seq<Byte> := ram[page];
    ram[page := row[..off] + [x] + row[off + 1..]]
  }

  /** Does the array hold what the value says? */
  ghost predicate RamIs(a: array2<Byte>, ram: Ram)
    reads a
  {
    |ram| == a.Length0 && forall p :: 0 <= p < |ram| ==> RowIs(a, ram, p)
  }

  ghost predicate RowIs(a: array2<Byte>, ram: Ram, p: nat)
    requires p < |ram| == a.Length0
    reads a
  {
    |ram[p]| == a.Length1 && forall o :: 0 <= o < a.Length1 ==> a[p, o] == ram[p][o]
  }

  // ----- The layout of memory -----

  /** Pages that mem_init sets aside for a table: rounded down, but at least one. */
  function PagesFor(bytes: nat, size: nat): (n: nat)
    requires size >= 1
    ensures n >= 1
  {
    if bytes / size != 0 then bytes / size else 1
  }

  /** Where the kernel, the allocator's own tables and the kernel's stack are. */
  datatype Layout = Layout(mmStart: nat, kernelStart: nat, kernelPages: nat, stackStart: nat, stackPages: nat)
  {
    /** The first page behind the bitmap and the page-info table. */
    function TablesEnd(c: Config): nat {
      mmStart + PagesFor(c.numPages / 8, c.PageSize()) + PagesFor(c.numPages, c.PageSize())
    }

    predicate Reserved(c: Config, q: int) {
      || q == 0 || mmStart <= q < TablesEnd(c)
      || kernelStart <= q < kernelStart + kernelPages || stackStart <= q < stackStart + stackPages
    }

    /** There is room for everything, and the kernel's fragment stacks get pages of their own. */
    predicate Fits(c: Config)
      requires c.Valid()
    {
      && TablesEnd(c) + c.Sizes() <= c.numPages
      && kernelStart + kernelPages <= c.numPages && stackStart + stackPages <= c.numPages
      && forall q :: TablesEnd(c) <= q < TablesEnd(c) + c.Sizes() ==> !Reserved(c, q)
    }
  }

  /** A stretch of memory. */
  datatype Area = Area(first: nat, len: nat)
  {
    predicate Apart(a: Area) { first + len <= a.first || a.first + a.len <= first }
  }

  /** Some byte of the area lies on page q. */
  predicate Touches(c: Config, a: Area, q: nat) {
    a.first < q * c.PageSize() + c.PageSize() && q * c.PageSize() < a.first + a.len
  }

  /** page_map: a bit for each page, from the first page of the memory manager on. */
  function PageMap(c: Config, layout: Layout): Area {
    Area(layout.mmStart * c.PageSize(), c.numPages / 8)
  }

  /** page_list: a byte for each page, from the page behind those of page_map on. */
  function PageList(c: Config, layout: Layout): Area {
    Area((layout.mmStart + PagesFor(c.numPages / 8, c.PageSize())) * c.PageSize(), c.numPages)
  }

  /** The page of the kernel's stack number i. */
  function StackPageArea(c: Config, layout: Layout, i: nat): Area {
    Area((layout.TablesEnd(c) + i) * c.PageSize(), c.PageSize())
  }

  /** As many bytes fit on the pages that mem_init sets aside for them. */
  predicate RoundsWell(bytes: nat, size: nat)
    requires size >= 1
  {
    bytes < size || bytes % size == 0
  }

  lemma PagesHoldExactly(bytes: nat, size: nat)
    requires size >= 1
    ensures bytes <= PagesFor(bytes, size) * size <==> RoundsWell(bytes, size)
  {
    assert bytes == (bytes / size) * size + bytes % size;
  }

  /** A stretch from page lo on that ends before page hi touches no other pages. */
  lemma TouchesWithin(c: Config, a: Area, lo: nat, hi: nat, q: nat)
    requires a.first == lo * c.PageSize() && a.first + a.len <= hi * c.PageSize() && Touches(c, a, q)
    ensures lo <= q < hi
  {
    var z := c.PageSize();
    assert (q + 1) * z == q * z + z;
    if q + 1 <= lo { MulMonotone(q + 1, lo, z); }
    if hi <= q { MulMonotone(hi, q, z); }
  }

  /** Where the tables and the stacks begin. */
  lemma AreasFollow(c: Config, layout: Layout, i: nat)
    ensures PageMap(c, layout).first == layout.mmStart * c.PageSize()
    ensures PageList(c, layout).first ==
      PageMap(c, layout).first + PagesFor(c.numPages / 8, c.PageSize()) * c.PageSize()
    ensures StackPageArea(c, layout, i).first ==
      PageList(c, layout).first + PagesFor(c.numPages, c.PageSize()) * c.PageSize() + i * c.PageSize()
  {
    var z, mm := c.PageSize(), layout.mmStart;
    var n, m := PagesFor(c.numPages / 8, z), PagesFor(c.numPages, z);
    Distributes(mm, n, z);
    Distributes(mm + n, m, z);
    Distributes(mm + n + m, i, z);
  }

  lemma Distributes(a: nat, b: nat, z: nat)
    ensures (a + b) * z == a * z + b * z
  {
  }

  ghost predicate TablesApart(c: Config, layout: Layout)
    requires c.Valid()
  {
    && PageMap(c, layout).Apart(PageList(c, layout))
    && forall i :: 0 <= i < c.Sizes() ==>
         PageMap(c, layout).Apart(StackPageArea(c, layout, i)) && PageList(c, layout).Apart(StackPageArea(c, layout, i))
  }

  /** Three areas one behind the other with room for some bytes each, the last dist bytes further on. */
  lemma InARow(a: Area, b: Area, d: Area, room1: nat, room2: nat, dist: nat)
    requires a.len > 0 && b.len > 0 && d.len > 0 && room1 > 0 && room2 > 0
    requires b.first == a.first + room1 && d.first == b.first + room2 + dist
    ensures a.Apart(b) <==> a.len <= room1
    ensures a.len <= room1 && b.len <= room2 ==> a.Apart(d) && b.Apart(d)
    ensures dist == 0 ==> (b.Apart(d) <==> b.len <= room2)
  {
  }

  lemma RoomIsPositive(bytes: nat, size: nat)
    requires size >= 1
    ensures PagesFor(bytes, size) * size > 0
  {
    MulMonotone(1, PagesFor(bytes, size), size);
  }

  lemma TablesInARow(c: Config, layout: Layout, i: nat)
    requires c.Valid()
    ensures PageMap(c, layout).Apart(PageList(c, layout)) <==> RoundsWell(c.numPages / 8, c.PageSize())
    ensures TablesRound(c) ==>
      PageMap(c, layout).Apart(StackPageArea(c, layout, i)) && PageList(c, layout).Apart(StackPageArea(c, layout, i))
    ensures i == 0 ==>
      (PageList(c, layout).Apart(StackPageArea(c, layout, i)) <==> RoundsWell(c.numPages, c.PageSize()))
  {
    var z := c.PageSize();
    PagesHoldExactly(c.numPages / 8, z);
    PagesHoldExactly(c.numPages, z);
    RoomIsPositive(c.numPages / 8, z);
    RoomIsPositive(c.numPages, z);
    AreasFollow(c, layout, i);
    MulMonotone(0, i, z);
    InARow(PageMap(c, layout), PageList(c, layout), StackPageArea(c, layout, i),
           PagesFor(c.numPages / 8, z) * z, PagesFor(c.numPages, z) * z, i * z);
  }

  lemma TablesApartExactly(c: Config, layout: Layout)
    requires c.Valid()
    ensures TablesApart(c, layout) <==> TablesRound(c)
  {
    TablesInARow(c, layout, 0);
    assert TablesApart(c, layout) ==> PageList(c, layout).Apart(StackPageArea(c, layout, 0));
    if TablesRound(c) {
      forall i | 0 <= i < c.Sizes()
        ensures PageMap(c, layout).Apart(StackPageArea(c, layout, i))
        ensures PageList(c, layout).Apart(StackPageArea(c, layout, i))
      {
        TablesInARow(c, layout, i);
      }
    }
  }

  /** Both tables lie on locked pages, apart from each other and from the stacks. */
  ghost predicate TablesSafe(c: Config, layout: Layout, pages: seq<Page>)
    requires c.Valid()
  {
    && TablesApart(c, layout)
    && forall q: nat :: Touches(c, PageMap(c, layout), q) || Touches(c, PageList(c, layout), q) ==>
         q < |pages| && pages[q] == LOCKED
  }

  predicate TablesRound(c: Config) {
    RoundsWell(c.numPages / 8, c.PageSize()) && RoundsWell(c.numPages, c.PageSize())
  }

  lemma TablesTouchReserved(c: Config, layout: Layout, q: nat)
    requires c.Valid() && layout.Fits(c) && TablesRound(c)
    requires Touches(c, PageMap(c, layout), q) || Touches(c, PageList(c, layout), q)
    ensures q < c.numPages && layout.Reserved(c, q)
  {
    var z, mm := c.PageSize(), layout.mmStart;
    var n, m := PagesFor(c.numPages / 8, z), PagesFor(c.numPages, z);
    PagesHoldExactly(c.numPages / 8, z);
    PagesHoldExactly(c.numPages, z);
    Distributes(mm, n, z);
    Distributes(mm + n, m, z);
    if Touches(c, PageMap(c, layout), q) {
      TouchesWithin(c, PageMap(c, layout), mm, mm + n, q);
    } else {
      TouchesWithin(c, PageList(c, layout), mm + n, mm + n + m, q);
    }
  }

  /** The tables are safe exactly if each is smaller than a page or a multiple of it, as pages are rounded down. */
  lemma TablesSafeExactly(c: Config, layout: Layout, pages: seq<Page>)
    requires c.Valid() && layout.Fits(c) && |pages| == c.numPages
    requires forall q :: 0 <= q < c.numPages && layout.Reserved(c, q) ==> pages[q] == LOCKED
    ensures TablesSafe(c, layout, pages) <==> TablesRound(c)
  {
    TablesApartExactly(c, layout);
    if TablesRound(c) {
      forall q: nat | Touches(c, PageMap(c, layout), q) || Touches(c, PageList(c, layout), q)
        ensures q < |pages| && pages[q] == LOCKED
      {
        TablesTouchReserved(c, layout, q);
      }
    }
  }

  /** A page that must not be given to anyone: page 0, those of the tables, of the kernel and of its stack. */
  predicate Needed(c: Config, layout: Layout, q: nat) {
    || q == 0 || Touches(c, PageMap(c, layout), q) || Touches(c, PageList(c, layout), q)
    || layout.kernelStart <= q < layout.kernelStart + layout.kernelPages
    || layout.stackStart <= q < layout.stackStart + layout.stackPages
  }

  /** A page among those set aside for some bytes holds one of them. */
  lemma TouchesAll(c: Config, a: Area, lo: nat, q: nat)
    requires c.Valid() && a.first == lo * c.PageSize() && a.len > 0
    requires lo <= q < lo + PagesFor(a.len, c.PageSize())
    ensures Touches(c, a, q)
  {
    var z := c.PageSize();
    Distributes(lo, q - lo, z);
    MulMonotone(lo, q, z);
    MulMonotone(q - lo, PagesFor(a.len, z) - 1, z);
    Distributes(PagesFor(a.len, z) - 1, 1, z);
    assert a.len == (a.len / z) * z + a.len % z;
  }

  lemma ReservedIsNeeded(c: Config, layout: Layout, q: nat)
    requires c.Valid() && layout.Reserved(c, q)
    ensures Needed(c, layout, q)
  {
    var n := PagesFor(c.numPages / 8, c.PageSize());
    if layout.mmStart <= q < layout.mmStart + n {
      TouchesAll(c, PageMap(c, layout), layout.mmStart, q);
    } else if layout.mmStart + n <= q < layout.TablesEnd(c) {
      TouchesAll(c, PageList(c, layout), layout.mmStart + n, q);
    }
  }

  /** The pages that are locked are the needed ones, if the tables fit on theirs. */
  ghost predicate LocksNeeded(c: Config, layout: Layout, pages: seq<Page>) {
    forall q :: 0 <= q < |pages| ==>
      && (pages[q] == LOCKED ==> Needed(c, layout, q))
      && (TablesRound(c) && Needed(c, layout, q) ==> pages[q] == LOCKED)
  }

  lemma ReservedAreNeeded(c: Config, layout: Layout, pages: seq<Page>)
    requires c.Valid() && layout.Fits(c) && |pages| == c.numPages
    requires forall q :: 0 <= q < c.numPages ==> (pages[q] == LOCKED <==> layout.Reserved(c, q))
    ensures LocksNeeded(c, layout, pages)
  {
    forall q | 0 <= q < |pages|
      ensures pages[q] == LOCKED ==> Needed(c, layout, q)
      ensures TablesRound(c) && Needed(c, layout, q) ==> pages[q] == LOCKED
    {
      if layout.Reserved(c, q) {
        ReservedIsNeeded(c, layout, q);
      } else if TablesRound(c) && (Touches(c, PageMap(c, layout), q) || Touches(c, PageList(c, layout), q)) {
        TablesTouchReserved(c, layout, q);
      }
    }
  }

  /** With the sizes of the documented configuration each table has a page, 96 and 97. */
  lemma DocumentedTables(c: Config, layout: Layout)
    requires c == Config(8, 5, 256) && layout == Layout(96, 0, 96, 240, 16)
    ensures c.Valid() && layout.Fits(c) && TablesRound(c)
    ensures PageMap(c, layout) == Area(0x6000, 32) && PageList(c, layout) == Area(0x6100, 256)
    ensures StackPageArea(c, layout, 0) == Area(0x6200, 256)
  {
    assert Pow2(4) == 16 && Pow2(8) == 256;
  }

  /** With pages of 16 bytes the list of 24 pages gets a single page, and runs into the first stack. */
  lemma TablesOverlap(c: Config, layout: Layout)
    requires c == Config(4, 1, 24) && layout == Layout(2, 0, 2, 20, 4)
    ensures c.Valid() && layout.Fits(c) && !PageList(c, layout).Apart(StackPageArea(c, layout, 0))
  {
    assert Pow2(4) == 16;
  }

  const LOCKED := Page(true, 1, true, 0)

  /** The locks that mem_init sets. */
  method LockPages(table: PageTable.Table, layout: Layout)
    requires table.Valid() && layout.Fits(table.cfg) && table.pages == seq(table.cfg.numPages, _ => FREE)
    requires table.numFree == table.cfg.numPages
    modifies table, table.bits, table.list
    ensures table.Valid() && PagesOk(table.cfg, table.pages, table.numFree)
    ensures forall q :: 0 <= q < table.cfg.numPages ==>
      table.pages[q] == if layout.Reserved(table.cfg, q) then LOCKED else FREE
  {
    AllFree(table.cfg.numPages);
    var tables := layout.TablesEnd(table.cfg) - layout.mmStart;
    LockMore(table, 0, 1);
    LockMore(table, layout.mmStart, tables);
    LockMore(table, layout.kernelStart, layout.kernelPages);
    LockMore(table, layout.stackStart, layout.stackPages);
  }

  method LockMore(table: PageTable.Table, p: nat, num: nat)
    requires table.Valid() && p + num <= |table.pages|
    requires FreeOrLocked(table.pages) && Chained(table.pages) && table.numFree == CountFree(table.pages)
    modifies table, table.bits, table.list
    ensures table.Valid() && |table.pages| == |old(table.pages)|
    ensures FreeOrLocked(table.pages) && Chained(table.pages) && table.numFree == CountFree(table.pages)
    ensures forall q :: 0 <= q < |table.pages| ==>
      table.pages[q] == if p <= q < p + num then LOCKED else old(table.pages)[q]
  {
    LocksKeepOrder(table.pages, p, num);
    table.PagesLock(p, num);
  }

  ghost predicate FreeOrLocked(pt: seq<Page>) {
    forall q :: 0 <= q < |pt| ==> pt[q] == FREE || pt[q] == LOCKED
  }

  lemma LocksKeepOrder(pt: seq<Page>, p: nat, num: nat)
    requires FreeOrLocked(pt) && Chained(pt) && p + num <= |pt|
    ensures FreeOrLocked(LockRun(pt, p, num)) && Chained(LockRun(pt, p, num))
    ensures CountFree(LockRun(pt, p, num)) == CountFree(pt) - NewlyLocked(pt, p, num)
  {
    LockKeepsChains(pt, p, num);
    CountFreeLockRun(pt, p, num);
  }

  lemma {:induction false} AllFree(n: nat)
    ensures var pt := seq(n, _ => FREE); Chained(pt) && FreeOrLocked(pt) && CountFree(pt) == n
  {
    var pt := seq(n, _ => FREE);
    if n > 0 {
      AllFree(n - 1);
      assert pt[..n - 1] == seq(n - 1, _ => FREE);
    }
    assert forall q :: 0 <= q < n ==> ChainedAt(pt, q);
  }

  ghost function RamOf(a: array2<Byte>): (ram: Ram)
    reads a
    ensures RamIs(a, ram)
  {
    seq(a.Length0, p requires 0 <= p < a.Length0 reads a =>
      seq(a.Length1, o requires 0 <= o < a.Length1 reads a => a[p, o]))
  }

  /** bzero of whole pages, on both sides. */
  lemma ClearedRamIs(a: array2<Byte>, ram: Ram, first: nat, num: nat, ram': Ram)
    requires ClearedPages(ram, ram', first, num) && |ram| == a.Length0
    requires forall p :: 0 <= p < |ram| ==> |ram[p]| == a.Length1
    requires forall q, o :: 0 <= q < a.Length0 && 0 <= o < a.Length1 ==>
      a[q, o] == if first <= q < first + num then 0 else ram[q][o]
    ensures RamIs(a, ram')
  {
    forall p | 0 <= p < |ram'| ensures RowIs(a, ram', p) {
      assert ClearedPage(ram[p], ram'[p], first <= p < first + num);
    }
  }

  lemma RamEntries(a: array2<Byte>, ram: Ram)
    requires RamIs(a, ram)
    ensures |ram| == a.Length0 && forall p :: 0 <= p < |ram| ==> |ram[p]| == a.Length1
    ensures forall q, o :: 0 <= q < a.Length0 && 0 <= o < a.Length1 ==> a[q, o] == ram[q][o]
  {
    forall q | 0 <= q < a.Length0
      ensures |ram[q]| == a.Length1 && forall o :: 0 <= o < a.Length1 ==> a[q, o] == ram[q][o]
    {
      assert RowIs(a, ram, q);
    }
  }

  // ----- The allocator -----

  class Memory {
    const cfg: Config
    const table: PageTable.Table
    ghost var model: State
    ghost var run: seq<State>
    ghost var events: seq<Event>

    /** Everything that has happened so far is a run. */
    ghost predicate Recorded()
      reads this
    {
      IsRun(cfg, run, events) && Inv(cfg, run[0]) && run[|events|] == model
    }

    ghost predicate TableIs()
      reads this`model, table, table.bits, table.list
    {
      table.Valid() && table.cfg == cfg && model.pages == table.pages && model.free == table.numFree
    }

    ghost predicate Valid()
      reads this, table, table.bits, table.list, table.ram
    {
      TableIs() && RamIs(table.ram, model.ram) && Inv(cfg, model) && Recorded()
    }

    /** The process's stacks are what the model says, and not the allocator's tables. */
    ghost predicate Knows(proc: Proc)
      requires cfg.Valid()
      reads this`model, proc.Repr()
    {
      proc.Holds(cfg, model.stacks) && table.bits !in proc.Arrays() && table.list !in proc.Arrays()
    }

    ghost method Did(e: Event, s': State)
      requires Recorded() && Inv(cfg, model) && Step(cfg, model, e, s')
      modifies this`model, this`run, this`events
      ensures Recorded() && Inv(cfg, model) && model == s' && run == old(run) + [s'] && events == old(events) + [e]
    {
      StepKeepsInv(cfg, model, e, s');
      model, run, events := s', run + [s'], events + [e];
    }

    constructor Tables(cfg: Config, layout: Layout)
      requires cfg.Valid() && layout.Fits(cfg)
      ensures Valid() && this.cfg == cfg && fresh(table) && fresh(table.bits) && fresh(table.list) && fresh(table.ram)
      ensures model.live == {} && model.held == {} && model.stacks == map[] && |events| == 0
      ensures forall q :: 0 <= q < cfg.numPages ==>
        model.pages[q] == if layout.Reserved(cfg, q) then LOCKED else FREE
    {
      this.cfg := cfg;
      table := new PageTable.Table(cfg);
      new;
      LockPages(table, layout);
      ghost var ram := RamOf(table.ram);
      model := State(table.pages, table.numFree, map[], {}, {}, ram);
      run, events := [model], [];
      EmptyKeepsInv(cfg, table.pages, table.numFree, ram);
    }

    /** A run of pages for an owner: the end of pmalloc2, and mem_init's pages for stacks. */
    method TakePages(first: nat, num: nat, owner: nat)
      requires Valid() && num >= 1 && Unused(model.pages, first, num) && owner < cfg.Owners()
      modifies this`model, this`run, this`events, table`pages, table`numFree, table.bits, table.list, table.ram
      ensures Valid() && TakesRun(cfg, old(model), model, Run(first, num, owner))
      ensures events == old(events) + [TookRun(Run(first, num, owner))] && run == old(run) + [model]
    {
      RamEntries(table.ram, model.ram);
      table.PagesRef(first, num, 0, owner);
      ghost var b := Run(first, num, owner);
      ghost var ram := ClearPages(model.ram, first, num);
      ClearedRamIs(table.ram, old(model.ram), first, num, ram);
      Did(TookRun(b), model.(pages := table.pages, free := table.numFree, live := model.live + {b}, ram := ram));
    }

    /** A page for fragments, entered in the model with all of its pieces. */
    method NewFragPage(fs: nat, owner: nat) returns (page: nat)
      requires Valid() && 1 <= fs <= cfg.Sizes() && owner < cfg.Owners() && model.StackOf(owner, fs) == {}
      modifies this`model, this`run, this`events, table`pages, table`numFree, table.bits, table.list, table.ram
      ensures Valid()
      ensures page == 0 ==> Unmoved(old(model), old(run), old(events)) && AllUsed()
      ensures page != 0 ==> AddsPage(cfg, old(model), model, page, fs, owner)
      ensures page != 0 ==> events == old(events) + [AddedPage(page, fs, owner)] && run == old(run) + [model]
    {
      RamEntries(table.ram, model.ram);
      page := table.SinglePageAlloc(fs, owner);
      if page == 0 { return; }
      ghost var ram := ClearPages(model.ram, page, 1);
      ClearedRamIs(table.ram, old(model.ram), page, 1, ram);
      Did(AddedPage(page, fs, owner),
          model.(pages := table.pages, free := table.numFree, ram := ram,
                 stacks := model.stacks[(owner, fs) := PagePieces(page, Pow2(fs))]));
    }

    /** Nothing has happened. */
    ghost predicate Unmoved(model0: State, run0: seq<State>, events0: seq<Event>)
      reads this
    {
      model == model0 && run == run0 && events == events0
    }

    /** mem_frag_add_page: a new page of fragments, all of them on the empty stack, or 0. */
    method FragAddPage(proc: Proc, fs: nat) returns (page: nat)
      requires Valid() && Knows(proc) && 1 <= fs <= cfg.Sizes() && proc.stacks[fs - 1].index == 0
      modifies this`model, this`run, this`events, table`pages, table`numFree, table.bits, table.list, table.ram
      modifies proc.stacks[fs - 1], proc.stacks[fs - 1].entries
      ensures Valid() && Knows(proc) && (page == 0) == (proc.stacks[fs - 1].index == 0)
      ensures page == 0 ==> Unmoved(old(model), old(run), old(events)) && OutOfFragPages(fs)
      ensures page != 0 ==> AddsPage(cfg, old(model), model, page, fs, proc.id)
      ensures page != 0 ==> events == old(events) + [AddedPage(page, fs, proc.id)] && run == old(run) + [model]
    {
      proc.StackSize(cfg, model.stacks, fs);
      if StackRoom(cfg) < EntryBytes(cfg) * Pow2(fs) { return 0; }
      page := NewFragPage(fs, proc.id);
      if page == 0 { return; }
      RoomForAll(cfg, fs);
      proc.Fill(cfg, old(model.stacks), fs, page);
    }

    /** Why no page can be added. */
    ghost predicate OutOfFragPages(fs: nat)
      reads this`model
    {
      StackRoom(cfg) < EntryBytes(cfg) * Pow2(fs) || AllUsed()
    }

    /** Page 0 counts as no page. */
    ghost predicate AllUsed()
      reads this`model
    {
      forall q :: 1 <= q < |model.pages| ==> model.pages[q].used
    }

    /** No fragment of the class for this size is free, and no page can be added for it. */
    ghost predicate OutOfFrags(size: nat, owner: nat)
      requires cfg.Valid()
      reads this`model
    {
      exists fs :: IsClass(cfg, size, fs) && model.StackOf(owner, fs) == {} && OutOfFragPages(fs)
    }

    /** FRAG_POP: one of the free fragments becomes a block. */
    method PopFrag(proc: Proc, fs: nat) returns (f: Frag)
      requires Valid() && Knows(proc) && 1 <= fs <= cfg.Sizes() && proc.stacks[fs - 1].index > 0
      modifies this`model, this`run, this`events, proc.stacks[fs - 1]
      ensures Valid() && Knows(proc)
      ensures TakesPiece(cfg, old(model), model, Piece(f.page, f.idx, fs, proc.id))
      ensures events == old(events) + [TookPiece(Piece(f.page, f.idx, fs, proc.id))] && run == old(run) + [model]
    {
      f := proc.Take(cfg, model.stacks, fs);
      ghost var b := Piece(f.page, f.idx, fs, proc.id);
      ghost var left := model.StackOf(proc.id, fs) - {f};
      Did(TookPiece(b), model.(live := model.live + {b}, stacks := model.stacks[(proc.id, fs) := left]));
    }

    /** mem_frag_alloc behind the choice of the size class. */
    method FragAllocClass(fs: nat, proc: Proc) returns (pos: nat, ghost b: Block)
      requires Valid() && Knows(proc) && 1 <= fs <= cfg.Sizes()
      modifies this`model, this`run, this`events, table`pages, table`numFree, table.bits, table.list, table.ram
      modifies proc.stacks[fs - 1], proc.stacks[fs - 1].entries
      ensures Valid() && Knows(proc) && old(run) <= run && old(events) <= events
      ensures pos == 0 ==>
        Unmoved(old(model), old(run), old(events)) && model.StackOf(proc.id, fs) == {} && OutOfFragPages(fs)
      ensures pos != 0 ==> Granted(cfg, old(model), model, b, proc.id, pos) && b.Piece? && b.frag == fs
    {
      if proc.stacks[fs - 1].index == 0 {
        proc.StackSize(cfg, model.stacks, fs);
        var page := FragAddPage(proc, fs);
        if page == 0 { return 0, Piece(0, 0, fs, proc.id); }
      }
      ghost var mid := model;
      var f := PopFrag(proc, fs);
      b := Piece(f.page, f.idx, fs, proc.id);
      PoppedIsGranted(cfg, mid, model, b);
      pos := f.page * cfg.PageSize() + f.idx * cfg.FragSize(fs);
    }

    /** mem_frag_alloc */
    method FragAlloc(size: nat, proc: Proc) returns (pos: nat, ghost b: Block)
      requires Valid() && Knows(proc) && 1 <= size <= cfg.PageSize() / 2
      modifies this`model, this`run, this`events, table`pages, table`numFree, table.bits, table.list, table.ram
      modifies proc.Repr()
      ensures Valid() && Knows(proc) && old(run) <= run && old(events) <= events
      ensures pos == 0 ==> Unmoved(old(model), old(run), old(events)) && OutOfFrags(size, proc.id)
      ensures pos != 0 ==> Granted(cfg, old(model), model, b, proc.id, pos) && b.Piece? && size <= BytesOf(cfg, b)
    {
      var fs := SizeClass(cfg, size);
      pos, b := FragAllocClass(fs, proc);
    }

    /** mem_pages_alloc: a run of pages, or 0. Asking for no pages at all takes none. */
    method RunAlloc(num: nat, owner: nat) returns (first: nat)
      requires Valid() && num <= cfg.numPages && owner < cfg.Owners()
      modifies this`model, this`run, this`events, table`pages, table`numFree, table.bits, table.list, table.ram
      ensures Valid() && model.stacks == old(model.stacks)
      ensures first == 0 || num == 0 ==> Unmoved(old(model), old(run), old(events))
      ensures if num == 1 then first == 0 ==> AllUsed() else PageTable.IsSought(old(model).pages, num, first)
      ensures first != 0 && num != 0 ==> TakesRun(cfg, old(model), model, Run(first, num, owner))
      ensures first != 0 && num != 0 ==>
        events == old(events) + [TookRun(Run(first, num, owner))] && run == old(run) + [model]
    {
      RamEntries(table.ram, model.ram);
      first := table.PagesAlloc(num, 0, owner);
      if first == 0 { return; }
      ghost var ram := ClearPages(model.ram, first, num);
      ClearedRamIs(table.ram, old(model.ram), first, num, ram);
      if num == 0 {
        UnclearedIsSame(model.ram, ram, first);
        return;
      }
      ghost var b := Run(first, num, owner);
      Did(TookRun(b), model.(pages := table.pages, free := table.numFree, live := model.live + {b}, ram := ram));
    }

    /** pmalloc2. Requests whose page count does not fit pagenum_t get a block that is too small, or none. */
    method Pmalloc2(size: nat, proc: Proc) returns (pos: nat, ghost b: Block)
      requires Valid() && Knows(proc) && Rounded(cfg, size) % PageNumbers(cfg) <= cfg.numPages
      modifies this`model, this`run, this`events, table`pages, table`numFree, table.bits, table.list, table.ram
      modifies proc.Repr()
      ensures Valid() && Knows(proc) && old(run) <= run && old(events) <= events
      ensures pos == 0 || WrapsToNone(cfg, size) ==> Unmoved(old(model), old(run), old(events))
      ensures size == 0 ==> pos == 0
      ensures pos == 0 && 1 <= size <= cfg.PageSize() / 2 ==> OutOfFrags(size, proc.id)
      ensures size > cfg.PageSize() / 2 ==>
        var num := Rounded(cfg, size) % PageNumbers(cfg);
        && b == Run(b.page, num, proc.id) && pos == b.page * cfg.PageSize()
        && if num == 1 then pos == 0 ==> AllUsed() else PageTable.IsSought(old(model).pages, num, b.page)
      ensures pos != 0 && !WrapsToNone(cfg, size) ==>
        && Granted(cfg, old(model), model, b, proc.id, pos)
        && (size <= BytesOf(cfg, b) <==> Rounded(cfg, size) < PageNumbers(cfg))
    {
      pos, b := 0, Run(0, 0, proc.id);
      if size == 0 { return; }
      RunIsLargeEnough(cfg, size);
      if size <= cfg.PageSize() / 2 {
        RoundedSmall(cfg, size);
        pos, b := FragAlloc(size, proc);
        return;
      }
      var num := Rounded(cfg, size) % PageNumbers(cfg);
      var first := RunAlloc(num, proc.id);
      b := Run(first, num, proc.id);
      if first != 0 {
        if num != 0 { TakenIsGranted(cfg, old(model), model, b); }
        MulMonotone(1, first, cfg.PageSize());
      }
      pos := first * cfg.PageSize();
    }

    /** mem_page_free: nothing for an unused page or one inside a run, otherwise the run that begins there. */
    method PageFree(pos: nat, ghost b: Block)
      requires Valid() && PageOf(cfg, pos) < cfg.numPages
      requires model.pages[PageOf(cfg, pos)].frag == 0
      requires !Ignored(cfg, model, pos) ==> Owned(cfg, model, b) && b.Run? && b.page == PageOf(cfg, pos)
      modifies this`model, this`run, this`events, table`pages, table`numFree, table.bits, table.list
      ensures Valid() && model.stacks == old(model.stacks)
      ensures Ignored(cfg, old(model), pos) ==> Unmoved(old(model), old(run), old(events))
      ensures !Ignored(cfg, old(model), pos) ==>
        DropsRun(cfg, old(model), model, b) && events == old(events) + [DroppedRun(b)] && run == old(run) + [model]
    {
      var p := PageOf(cfg, pos);
      var used := table.GetUsed(p);
      if !used { return; }
      ghost var ignored := Ignored(cfg, model, pos);
      if !ignored {
        assert LiveOk(cfg, model.pages, b);
        UnrefChain(model.pages, p, b.num, b.owner);
        ChainLengthOfRun(model.pages, p, b.num, b.owner);
        assert model.pages[p] == RunPage(p, b.page + b.num - 1, 0, b.owner);
      }
      table.PagesUnref(p);
      if !ignored {
        Did(DroppedRun(b), model.(pages := table.pages, free := table.numFree, live := model.live - {b}));
      }
    }

    /** The cleanup in mem_frag_free. */
    method CleanFrags(proc: Proc, fs: nat)
      requires Inv(cfg, model) && Recorded() && TableIs() && Knows(proc) && 1 <= fs <= cfg.Sizes()
      modifies this`model, this`run, this`events, table`pages, table`numFree, table.bits, table.list
      modifies proc.stacks[fs - 1], proc.stacks[fs - 1].entries
      ensures Inv(cfg, model) && Recorded() && TableIs() && Knows(proc)
      ensures CleansStack(cfg, old(model), model, fs, proc.id)
      ensures events == old(events) + [CleanedStack(fs, proc.id)] && run == old(run) + [model]
    {
      ghost var fs0 := model.StackOf(proc.id, fs);
      forall f | f in fs0 ensures PieceOk(cfg, model.pages, f.page, f.idx, fs, proc.id) {
        assert StackedOk(cfg, model, proc.id, fs, f);
      }
      proc.Clean(cfg, model.stacks, fs, table);
      Did(CleanedStack(fs, proc.id),
          model.(pages := table.pages, free := table.numFree,
                 stacks := model.stacks[(proc.id, fs) := OffPages(fs0, FullPages(fs0, Pow2(fs)))]));
    }

    /** The push in mem_frag_free: the block is a free fragment again, or lost if the stack is full. */
    method PushFrag(proc: Proc, fs: nat, f: Frag, ghost ram: Ram) returns (pushed: bool)
      requires Inv(cfg, model) && Recorded() && TableIs() && Knows(proc) && 1 <= fs <= cfg.Sizes()
      requires Owned(cfg, model, Piece(f.page, f.idx, fs, proc.id)) && RamIs(table.ram, ram)
      requires ChangedWithin(cfg, model.ram, ram, Piece(f.page, f.idx, fs, proc.id))
      requires ZeroBlock(cfg, ram, Piece(f.page, f.idx, fs, proc.id))
      modifies this`model, this`run, this`events, proc.stacks[fs - 1], proc.stacks[fs - 1].entries
      ensures Valid() && Knows(proc) && pushed == (|old(model).StackOf(proc.id, fs)| < StackCapacity(cfg))
      ensures DropsPiece(cfg, old(model), model, Piece(f.page, f.idx, fs, proc.id), pushed)
      ensures events == old(events) + [DroppedPiece(Piece(f.page, f.idx, fs, proc.id), pushed)]
      ensures run == old(run) + [model]
    {
      ghost var b := Piece(f.page, f.idx, fs, proc.id);
      assert f in model.StackOf(proc.id, fs) ==> StackedOk(cfg, model, proc.id, fs, f);
      pushed := proc.Give(cfg, model.stacks, fs, f);
      Did(DroppedPiece(b, pushed),
          model.(live := model.live - {b}, ram := ram,
                 stacks := model.stacks[(proc.id, fs) := model.StackOf(proc.id, fs) + if pushed then {f} else {}]));
    }

    /** Reads FRAGLOG. */
    method GetFrag(p: nat) returns (fs: nat)
      requires TableIs() && p < |model.pages|
      ensures fs == model.pages[p].frag
    {
      assert table.Mirrors(p);
      fs := InfoFrag(cfg.Sizes(), table.list[p]);
    }

    /** mem_frag_free: nothing for an address within a fragment; otherwise clear it, clean up and push it. */
    method FragFree(pos: nat, proc: Proc, ghost b: Block) returns (pushed: bool)
      requires Valid() && Knows(proc) && PageOf(cfg, pos) < cfg.numPages
      requires 1 <= model.pages[PageOf(cfg, pos)].frag <= cfg.Sizes()
      requires !IllegalFrag(cfg, pos, model.pages[PageOf(cfg, pos)].frag) ==>
        Named(cfg, model, b, proc.id, pos) && b.Piece?
      modifies this`model, this`run, this`events, table`pages, table`numFree, table.bits, table.list, table.ram
      modifies proc.Repr()
      ensures Valid() && Knows(proc) && old(run) <= run && old(events) <= events
      ensures IllegalFrag(cfg, pos, old(model).pages[PageOf(cfg, pos)].frag) ==>
        Unmoved(old(model), old(run), old(events))
      ensures !IllegalFrag(cfg, pos, old(model).pages[PageOf(cfg, pos)].frag) ==>
        && model.live == old(model).live - {b} && model.held == old(model).held
        && pushed == HasRoom(cfg, old(model), b.frag, proc.id)
        && events == old(events) + [CleanedStack(b.frag, proc.id), DroppedPiece(b, pushed)]
    {
      var p := PageOf(cfg, pos);
      var fs := GetFrag(p);
      if IllegalFrag(cfg, pos, fs) { return false; }
      assert LiveOk(cfg, model.pages, b);
      AddressRoundTrip(cfg, b.page, b.idx, b.frag, b.owner);
      PieceIsStretch(cfg, fs, b.idx, 0);
      ClearedPieceIsZero(cfg, model.ram, b);
      pushed := FragFreeAt(proc, fs, Frag(p, FragIdx(cfg, pos, fs)), b);
    }

    method FragFreeAt(proc: Proc, fs: nat, f: Frag, ghost b: Block) returns (pushed: bool)
      requires Valid() && Knows(proc) && 1 <= fs <= cfg.Sizes() && f.page < cfg.numPages && f.idx < Pow2(fs)
      requires b == Piece(f.page, f.idx, fs, proc.id) && Owned(cfg, model, b)
      modifies this`model, this`run, this`events, table`pages, table`numFree, table.bits, table.list, table.ram
      modifies proc.stacks[fs - 1], proc.stacks[fs - 1].entries
      ensures Valid() && Knows(proc) && old(run) <= run
      ensures model.live == old(model).live - {b} && model.held == old(model).held
      ensures pushed == HasRoom(cfg, old(model), fs, proc.id)
      ensures events == old(events) + [CleanedStack(fs, proc.id), DroppedPiece(b, pushed)]
    {
      ghost var ram := ClearPiece(cfg, model.ram, b);
      ClearedPieceIsZero(cfg, model.ram, b);
      ClearInPlace(f.page, f.idx, fs, b);
      CleanFrags(proc, fs);
      pushed := PushFrag(proc, fs, f, ram);
    }

    /** bzero of a fragment */
    method ClearInPlace(page: nat, idx: nat, fs: nat, ghost b: Block)
      requires cfg.Valid() && TableIs() && RamIs(table.ram, model.ram) && RamOk(cfg, model.ram)
      requires 1 <= fs <= cfg.Sizes() && page < cfg.numPages && idx < Pow2(fs) && b.Piece? && b.page == page
      requires b.idx == idx && b.frag == fs
      modifies table.ram
      ensures RamIs(table.ram, ClearPiece(cfg, model.ram, b))
    {
      RamEntries(table.ram, model.ram);
      PieceIsStretch(cfg, fs, idx, 0);
      table.Bzero(page, idx * cfg.FragSize(fs), cfg.FragSize(fs));
      ghost var ram := ClearPiece(cfg, model.ram, b);
      forall p | 0 <= p < |ram| ensures RowIs(table.ram, ram, p) {
        assert p < |model.ram| && old(RowIs(table.ram, model.ram, p));
      }
    }

    /** freep */
    method Freep(pos: nat, proc: Proc, ghost b: Block)
      requires Valid() && Knows(proc) && PageOf(cfg, pos) < cfg.numPages
      requires !Ignored(cfg, model, pos) ==> Named(cfg, model, b, proc.id, pos)
      modifies this`model, this`run, this`events, table`pages, table`numFree, table.bits, table.list, table.ram
      modifies proc.Repr()
      ensures Valid() && Knows(proc) && old(run) <= run && old(events) <= events
      ensures Ignored(cfg, old(model), pos) ==> Unmoved(old(model), old(run), old(events))
      ensures !Ignored(cfg, old(model), pos) ==>
        && model.live == old(model).live - {b} && model.held == old(model).held
        && events == old(events) + if b.Run? then [DroppedRun(b)]
             else [CleanedStack(b.frag, proc.id), DroppedPiece(b, HasRoom(cfg, old(model), b.frag, proc.id))]
    {
      var p := PageOf(cfg, pos);
      var fs := GetFrag(p);
      KindOfBlock(cfg, model, b, proc.id, pos);
      if fs == 0 {
        PageFree(pos, b);
      } else {
        var pushed := FragFree(pos, proc, b);
      }
    }

    /** A client writes a byte of its block. */
    method Poke(page: nat, off: nat, x: Byte, ghost b: Block)
      requires Valid() && page < cfg.numPages && off < cfg.PageSize()
      requires b in model.live && b !in model.held && Covers(cfg, b, page, off)
      modifies this`model, this`run, this`events, table.ram
      ensures Valid() && model == old(model).(ram := WithByte(old(model).ram, page, off, x))
      ensures events == old(events) + [Wrote(b)] && run == old(run) + [model]
    {
      RamEntries(table.ram, model.ram);
      table.ram[page, off] := x;
      ghost var ram := WithByte(model.ram, page, off, x);
      forall p | 0 <= p < |ram| ensures RowIs(table.ram, ram, p) && RowChangedWithin(cfg, model.ram[p], ram[p], b, p) {
        assert old(RowIs(table.ram, model.ram, p));
      }
      Did(Wrote(b), model.(ram := ram));
    }

    /** mem_kill_proc: all pages of the owner go back, and with them its blocks and stacks. */
    method KillProc(owner: nat)
      requires Valid()
      modifies this`model, this`run, this`events, table`pages, table`numFree, table.bits, table.list
      ensures Valid() && KillsOwner(cfg, old(model), model, owner)
      ensures events == old(events) + [KilledOwner(owner)] && run == old(run) + [model]
    {
      table.KillProc(owner);
      ghost var live := set b | b in model.live && b.owner != owner;
      Did(KilledOwner(owner),
          model.(pages := table.pages, free := table.numFree, live := live, held := model.held * live,
                 stacks := map k | k in model.stacks && k.0 != owner :: model.stacks[k]));
    }

    /** The block holds one of the allocator's own stacks from now on. */
    ghost method Hold(b: Block)
      requires Valid() && b in model.live
      modifies this`model, this`run, this`events
      ensures Valid() && model == old(model).(held := old(model).held + {b}) && run == old(run) + [model]
      ensures events == old(events) + [HeldBlock(b)]
    {
      Did(HeldBlock(b), model.(held := model.held + {b}));
    }

    /** n more blocks hold stacks, each a page of the owner. */
    ghost predicate NewStacks(s: State, owner: nat, n: nat)
      reads this`model
    {
      var added := model.held - s.held;
      s.held <= model.held && |added| == n && forall b :: b in added ==> b.Run? && b.num == 1 && b.owner == owner
    }

    /** A page for one more stack. */
    method StackPage(owner: nat, ghost s0: State, ghost n: nat) returns (page: nat)
      requires Valid() && owner < cfg.Owners() && NewStacks(s0, owner, n)
      modifies this`model, this`run, this`events, table`pages, table`numFree, table.bits, table.list, table.ram
      ensures Valid() && old(run) <= run && model.stacks == old(model.stacks) && old(model).live <= model.live
      ensures if page == 0 then AllUsed() else NewStacks(s0, owner, n + 1)
    {
      ghost var s := model;
      page := RunAlloc(1, owner);
      if page == 0 { return; }
      ghost var b := Run(page, 1, owner);
      TakenIsGranted(cfg, s, model, b);
      Hold(b);
      assert model.held - s0.held == (s.held - s0.held) + {b};
    }

    /** mem_init_proc: a page for each of the process's stacks. The page is zero, so the stack is empty. */
    method InitProc(owner: nat) returns (proc: Proc?)
      requires Valid() && owner < cfg.Owners() && forall k :: FreeOf(model.stacks, owner, k) == {}
      modifies this`model, this`run, this`events, table`pages, table`numFree, table.bits, table.list, table.ram
      ensures Valid() && old(run) <= run && model.stacks == old(model.stacks) && old(model).live <= model.live
      ensures proc == null ==> AllUsed()
      ensures proc != null ==> Knows(proc) && fresh(proc) && fresh(proc.Repr()) && proc.id == owner
      ensures proc != null ==> NewStacks(old(model), owner, cfg.Sizes())
    {
      var stacks: seq<Stack> := [];
      while |stacks| < cfg.Sizes()
        invariant |stacks| <= cfg.Sizes() && EmptyStacks(cfg, stacks)
        invariant forall st :: st in stacks ==> fresh(st) && fresh(st.entries)
        invariant Valid() && old(run) <= run && model.stacks == old(model.stacks) && old(model).live <= model.live
        invariant NewStacks(old(model), owner, |stacks|)
        decreases cfg.Sizes() - |stacks|
      {
        var page := StackPage(owner, old(model), |stacks|);
        if page == 0 { return null; }
        stacks := AnotherStack(cfg, stacks);
      }
      proc := new Proc(owner, stacks);
      EmptyStacksHold(cfg, proc, model.stacks);
    }
  }

  /** New stacks, none of them sharing its array with another. */
  ghost predicate EmptyStacks(c: Config, stacks: seq<Stack>)
    requires c.Valid()
    reads stacks
  {
    && (forall i :: 0 <= i < |stacks| ==> stacks[i].index == 0 && stacks[i].entries.Length == StackCapacity(c))
    && (forall i, j :: 0 <= i < |stacks| && 0 <= j < |stacks| && i != j ==>
      stacks[i] != stacks[j] && stacks[i].entries != stacks[j].entries)
  }

  lemma EmptyStacksHold(c: Config, proc: Proc, m: Stacks)
    requires c.Valid() && EmptyStacks(c, proc.stacks) && |proc.stacks| == c.Sizes() && proc.id < c.Owners()
    requires forall k :: FreeOf(m, proc.id, k) == {}
    ensures proc.Holds(c, m)
  {
    forall i | 0 <= i < |proc.stacks| ensures proc.Is(m, i) {
      assert proc.stacks[i].index == 0 && FreeOf(m, proc.id, i + 1) == {};
      assert proc.stacks[i].Contents() == [];
    }
  }

  method AnotherStack(c: Config, stacks: seq<Stack>) returns (r: seq<Stack>)
    requires c.Valid() && EmptyStacks(c, stacks)
    ensures EmptyStacks(c, r) && |r| == |stacks| + 1 && r[..|stacks|] == stacks && fresh(r[|stacks|])
    ensures fresh(r[|stacks|].entries)
  {
    var st := new Stack(StackCapacity(c));
    r := stacks + [st];
  }

  /** A block that a client may free. */
  ghost predicate Owned(c: Config, s: State, b: Block) {
    b in s.live && b !in s.held && (b.Piece? ==> b.frag <= c.pageLog)
  }

  /** The address names this block of the owner: within the first page of a run, or where a fragment begins. */
  ghost predicate Named(c: Config, s: State, b: Block, owner: nat, pos: nat) {
    Owned(c, s, b) && b.owner == owner && if b.Run? then b.page == PageOf(c, pos) else pos == Address(c, b)
  }

  /** Addresses that freep ignores: on a free page, inside a run, or within a fragment. */
  ghost predicate Ignored(c: Config, s: State, pos: nat)
    requires c.Valid()
  {
    var p := PageOf(c, pos);
    p < |s.pages| &&
    var g := s.pages[p];
      || !g.used
      || (g.frag == 0 && p >= 1 && Continued(s.pages[p - 1]))
      || (1 <= g.frag <= c.Sizes() && IllegalFrag(c, pos, g.frag))
  }

  /** A block's address tells its page, and the page tells which kind of block it is. */
  lemma KindOfBlock(c: Config, s: State, b: Block, owner: nat, pos: nat)
    requires Inv(c, s) && PageOf(c, pos) < c.numPages
    requires !Ignored(c, s, pos) ==> Named(c, s, b, owner, pos)
    ensures var g := s.pages[PageOf(c, pos)];
      if Ignored(c, s, pos) then g.frag == 0 || (1 <= g.frag <= c.Sizes() && IllegalFrag(c, pos, g.frag))
      else if g.frag == 0 then b.Run? && b.page == PageOf(c, pos)
      else b.Piece? && 1 <= g.frag <= c.Sizes() && !IllegalFrag(c, pos, g.frag)
  {
    var p := PageOf(c, pos);
    assert ChainedAt(s.pages, p);
    if !Ignored(c, s, pos) {
      assert LiveOk(c, s.pages, b);
      if b.Run? {
        assert s.pages[b.page] == RunPage(b.page, b.page + b.num - 1, 0, b.owner);
      } else {
        AddressRoundTrip(c, b.page, b.idx, b.frag, b.owner);
      }
    }
  }

  /** Memory with a fragment cleared. */
  ghost function ClearPiece(c: Config, ram: Ram, b: Block): (r: Ram)
    requires b.Piece? && b.frag <= c.pageLog && b.page < |ram|
  {
    ram[b.page := ClearBytes(ram[b.page], b.idx * c.FragSize(b.frag), c.FragSize(b.frag))]
  }

  lemma ClearedPieceIsZero(c: Config, ram: Ram, b: Block)
    requires c.Valid() && b.Piece? && b.frag <= c.pageLog && b.idx < Pow2(b.frag) && b.page < |ram| && RamOk(c, ram)
    ensures var r := ClearPiece(c, ram, b); ChangedWithin(c, ram, r, b) && ZeroBlock(c, r, b)
  {
    var r, z := ClearPiece(c, ram, b), c.FragSize(b.frag);
    forall p | 0 <= p < |ram| ensures RowChangedWithin(c, ram[p], r[p], b, p) && ZeroIn(c, r[p], b, p) {
      forall off | 0 <= off < |ram[p]|
        ensures Covers(c, b, p, off) <==> p == b.page && b.idx * z <= off < b.idx * z + z
      {
        PieceIsStretch(c, b.frag, b.idx, off);
      }
    }
  }

  /** The page count of this request is cut off to 0. */
  predicate WrapsToNone(c: Config, size: nat) {
    size > c.PageSize() / 2 && Rounded(c, size) % PageNumbers(c) == 0
  }

  lemma RoundedSmall(c: Config, size: nat)
    requires 1 <= size <= c.PageSize() / 2
    ensures Rounded(c, size) == 1
  {
    DivRange(size, c.PageSize(), 0);
  }

  lemma UnclearedIsSame(ram: Ram, ram': Ram, first: nat)
    requires ClearedPages(ram, ram', first, 0)
    ensures ram' == ram
  {
    forall p | 0 <= p < |ram| ensures ram'[p] == ram[p] {
      assert ClearedPage(ram[p], ram'[p], false);
    }
  }

  lemma TakenIsGranted(c: Config, s: State, s': State, b: Block)
    requires Inv(c, s) && TakesRun(c, s, s', b)
    ensures Granted(c, s, s', b, b.owner, Address(c, b))
  {
    TakesRunKeepsInv(c, s, s', b);
    assert b in s.live ==> LiveOk(c, s.pages, b);
    assert !s.pages[b.page].used;
  }

  /** A new block for an owner: zero, and nothing else has changed hands. */
  ghost predicate Granted(c: Config, s: State, s': State, b: Block, owner: nat, pos: nat) {
    && b.owner == owner && b !in s.live && s'.live == s.live + {b} && s'.held == s.held
    && ZeroBlock(c, s'.ram, b) && (b.Piece? ==> b.frag <= c.pageLog) && pos == Address(c, b)
  }

  lemma PoppedIsGranted(c: Config, s: State, s': State, b: Block)
    requires Inv(c, s) && TakesPiece(c, s, s', b)
    ensures b.frag <= c.pageLog && Granted(c, s, s', b, b.owner, Address(c, b)) && Address(c, b) > 0
  {
    assert StackedOk(c, s, b.owner, b.frag, Frag(b.page, b.idx));
    TakesPieceKeepsInv(c, s, s', b);
    PieceNotAtZero(c, b);
  }

  lemma PieceNotAtZero(c: Config, b: Block)
    requires b.Piece? && b.page >= 1 && b.frag <= c.pageLog
    ensures Address(c, b) > 0
  {
    MulMonotone(1, b.page, c.PageSize());
    MulMonotone(0, b.idx, c.FragSize(b.frag));
  }

  /** The pages that mem_init wires for the kernel's stacks. */
  ghost function KernelStacks(c: Config, layout: Layout, n: nat): set<Block>
    requires c.Valid()
  {
    if n == 0 then {} else KernelStacks(c, layout, n - 1) + {Run(layout.TablesEnd(c) + n - 1, 1, 0)}
  }

  /** After n stacks have got their pages. */
  ghost predicate Wired(c: Config, layout: Layout, s: State, n: nat)
    requires c.Valid()
  {
    && |s.pages| == c.numPages && NoLeak(s) && s.stacks == map[] && s.live == s.held == KernelStacks(c, layout, n)
    && (forall q :: 0 <= q < c.numPages ==> (s.pages[q] == LOCKED <==> layout.Reserved(c, q)))
    && forall q :: 0 <= q < c.numPages ==>
         s.pages[q].used == (layout.Reserved(c, q) || layout.TablesEnd(c) <= q < layout.TablesEnd(c) + n)
  }

  method WireStack(mem: Memory, layout: Layout, n: nat)
    requires mem.Valid() && layout.Fits(mem.cfg) && n < mem.cfg.Sizes() && Wired(mem.cfg, layout, mem.model, n)
    modifies mem, mem.table, mem.table.bits, mem.table.list, mem.table.ram
    ensures mem.Valid() && Wired(mem.cfg, layout, mem.model, n + 1)
  {
    var p := layout.TablesEnd(mem.cfg) + n;
    ghost var s, b := mem.model, Run(p, 1, 0);
    mem.TakePages(p, 1, 0);
    StepDoesNotLeak(mem.cfg, s, TookRun(b), mem.model);
    s := mem.model;
    mem.Hold(b);
    StepDoesNotLeak(mem.cfg, s, HeldBlock(b), mem.model);
  }

  /** The loop of mem_init. */
  method WireStacks(mem: Memory, layout: Layout) returns (stacks: seq<Stack>)
    requires mem.Valid() && layout.Fits(mem.cfg) && Wired(mem.cfg, layout, mem.model, 0)
    modifies mem, mem.table, mem.table.bits, mem.table.list, mem.table.ram
    ensures mem.Valid() && Wired(mem.cfg, layout, mem.model, mem.cfg.Sizes())
    ensures |stacks| == mem.cfg.Sizes() && EmptyStacks(mem.cfg, stacks)
    ensures forall st :: st in stacks ==> fresh(st) && fresh(st.entries)
  {
    stacks := [];
    while |stacks| < mem.cfg.Sizes()
      invariant |stacks| <= mem.cfg.Sizes() && EmptyStacks(mem.cfg, stacks)
      invariant mem.Valid() && Wired(mem.cfg, layout, mem.model, |stacks|)
      invariant forall st :: st in stacks ==> fresh(st) && fresh(st.entries)
      decreases mem.cfg.Sizes() - |stacks|
    {
      WireStack(mem, layout, |stacks|);
      stacks := AnotherStack(mem.cfg, stacks);
    }
  }

  /** mem_init: the first state of every run. */
  method MemInit(c: Config, layout: Layout) returns (mem: Memory, kernel: Proc)
    requires c.Valid() && layout.Fits(c)
    ensures fresh(mem) && mem.cfg == c && mem.Valid() && mem.Knows(kernel) && kernel.id == 0
    ensures Wired(c, layout, mem.model, c.Sizes())
    ensures TablesSafe(c, layout, mem.model.pages) <==> TablesRound(c)
    ensures LocksNeeded(c, layout, mem.model.pages)
  {
    mem := new Memory.Tables(c, layout);
    var stacks := WireStacks(mem, layout);
    kernel := new Proc(0, stacks);
    EmptyStacksHold(c, kernel, mem.model.stacks);
    TablesSafeExactly(c, layout, mem.model.pages);
    ReservedAreNeeded(c, layout, mem.model.pages);
  }
}
