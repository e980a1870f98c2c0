/**
 What the allocator's operations (kern/mem/mem.c) and its clients do to a state, as relations. Every step
 keeps the invariant, so in every run blocks stay apart and each new block is zero.
 */
module HeapSteps {
  import opened Bytes
  import opened Pages
  import opened FragStack
  import opened Heap

  // ----- Memory -----

  /** Memory where the given pages have been cleared. */
  ghost predicate ClearedPages(ram: Ram, ram': Ram, first: nat, num: nat) {
    |ram'| == |ram| && forall p :: 0 <= p < |ram| ==> ClearedPage(ram[p], ram'[p], first <= p < first + num)
  }

  predicate ClearedPage(row: seq<Byte>, row': seq<Byte>, clear: bool) {
    |row'| == |row| && forall off :: 0 <= off < |row| ==> row'[off] == if clear then 0 else row[off]
  }

  /** Only bytes of this block have changed. */
  ghost predicate ChangedWithin(c: Config, ram: Ram, ram': Ram, b: Block) {
    |ram'| == |ram| && forall p :: 0 <= p < |ram| ==> RowChangedWithin(c, ram[p], ram'[p], b, p)
  }

  ghost predicate RowChangedWithin(c: Config, row: seq<Byte>, row': seq<Byte>, b: Block, p: nat) {
    |row'| == |row| && forall off :: 0 <= off < |row| && !Covers(c, b, p, off) ==> row'[off] == row[off]
  }

  /** Every byte of the block is zero. */
  ghost predicate ZeroBlock(c: Config, ram: Ram, b: Block) {
    forall p :: 0 <= p < |ram| ==> ZeroIn(c, ram[p], b, p)
  }

  ghost predicate ZeroIn(c: Config, row: seq<Byte>, b: Block, p: nat) {
    forall off :: 0 <= off < |row| && Covers(c, b, p, off) ==> row[off] == 0
  }

  // ----- Steps -----

  datatype Event =
    | TookRun(b: Block)                                      // pmalloc2 for more than half a page
    | AddedPage(page: nat, frag: nat, owner: nat)            // mem_frag_add_page
    | TookPiece(b: Block)                                    // the pop of mem_frag_alloc
    | DroppedRun(b: Block)                                   // freep of whole pages
    | CleanedStack(frag: nat, owner: nat)                    // mem_frag_clean_stack
    | DroppedPiece(b: Block, pushed: bool)                   // the rest of mem_frag_free
    | KilledOwner(owner: nat)                                // mem_kill_proc
    | HeldBlock(b: Block)                                    // mem_init_proc uses the block as a stack
    | Wrote(b: Block)                                        // a client writes into its block

  ghost predicate Unused(pages: seq<Page>, first: nat, num: nat) {
    1 <= first && first + num <= |pages| && forall q :: first <= q < first + num ==> !pages[q].used
  }

  ghost predicate TakesRun(c: Config, s: State, s': State, b: Block) {
    && b.Run? && b.num >= 1 && Unused(s.pages, b.page, b.num)
    && s'.pages == RefRun(s.pages, b.page, b.num, 0, b.owner) && s'.free == s.free - b.num
    && s'.stacks == s.stacks && s'.live == s.live + {b} && s'.held == s.held
    && ClearedPages(s.ram, s'.ram, b.page, b.num)
  }

  function PagePieces(page: nat, n: nat): (r: set<Frag>)
    ensures forall f :: f in r <==> f.page == page && f.idx < n
  {
    set i | 0 <= i < n :: Frag(page, i)
  }

  ghost predicate AddsPage(c: Config, s: State, s': State, page: nat, frag: nat, owner: nat) {
    && 1 <= frag <= c.Sizes() && Unused(s.pages, page, 1) && s.StackOf(owner, frag) == {}
    && s'.pages == s.pages[page := Page(true, frag, false, owner)] && s'.free == s.free - 1
    && s'.stacks == s.stacks[(owner, frag) := PagePieces(page, Pow2(frag))]
    && s'.live == s.live && s'.held == s.held && ClearedPages(s.ram, s'.ram, page, 1)
  }

  ghost predicate TakesPiece(c: Config, s: State, s': State, b: Block) {
    && b.Piece? && Frag(b.page, b.idx) in s.StackOf(b.owner, b.frag)
    && s' == s.(live := s.live + {b},
                stacks := s.stacks[(b.owner, b.frag) := s.StackOf(b.owner, b.frag) - {Frag(b.page, b.idx)}])
  }

  ghost predicate DropsRun(c: Config, s: State, s': State, b: Block) {
    && b.Run? && b in s.live && b !in s.held && b.page + b.num <= |s.pages|
    && s' == s.(pages := FreeRun(s.pages, b.page, b.num), free := s.free + b.num, live := s.live - {b})
  }

  /** The pages all of whose n pieces are in the set. */
  ghost function FullPages(fs: set<Frag>, n: nat): set<nat> {
    set f | f in fs && (forall i :: 0 <= i < n ==> Frag(f.page, i) in fs) :: f.page
  }

  ghost function OffPages(fs: set<Frag>, pgs: set<nat>): set<Frag> {
    set f | f in fs && f.page !in pgs
  }

  ghost predicate CleansStack(c: Config, s: State, s': State, frag: nat, owner: nat) {
    var full := FullPages(s.StackOf(owner, frag), Pow2(frag));
    && FreedPages(s.pages, s'.pages, full) && s'.free == s.free + |full|
    && s'.stacks == s.stacks[(owner, frag) := OffPages(s.StackOf(owner, frag), full)]
    && s'.live == s.live && s'.held == s.held && s'.ram == s.ram
  }

  /** The fragment is cleared and pushed; a full stack loses it. */
  ghost predicate DropsPiece(c: Config, s: State, s': State, b: Block, pushed: bool) {
    && b.Piece? && b in s.live && b !in s.held
    && s' == s.(live := s.live - {b}, ram := s'.ram,
                stacks := s.stacks[(b.owner, b.frag) :=
                  s.StackOf(b.owner, b.frag) + if pushed then {Frag(b.page, b.idx)} else {}])
    && ChangedWithin(c, s.ram, s'.ram, b) && ZeroBlock(c, s'.ram, b)
  }

  ghost predicate KillsOwner(c: Config, s: State, s': State, owner: nat) {
    && s'.pages == Kill(s.pages, owner, |s.pages|) && s'.free == s.free + Killed(s.pages, owner, |s.pages|)
    && (forall o, k :: s'.StackOf(o, k) == if o == owner then {} else s.StackOf(o, k))
    && s'.live == (set b | b in s.live && b.owner != owner) && s'.held == s.held * s'.live && s'.ram == s.ram
  }

  ghost predicate Holds(c: Config, s: State, s': State, b: Block) {
    b in s.live && s' == s.(held := s.held + {b})
  }

  ghost predicate Writes(c: Config, s: State, s': State, b: Block) {
    b in s.live && b !in s.held && s' == s.(ram := s'.ram) && ChangedWithin(c, s.ram, s'.ram, b)
  }

  ghost predicate Step(c: Config, s: State, e: Event, s': State) {
    match e
    case TookRun(b) => TakesRun(c, s, s', b)
    case AddedPage(page, frag, owner) => AddsPage(c, s, s', page, frag, owner)
    case TookPiece(b) => TakesPiece(c, s, s', b)
    case DroppedRun(b) => DropsRun(c, s, s', b)
    case CleanedStack(frag, owner) => CleansStack(c, s, s', frag, owner)
    case DroppedPiece(b, pushed) => DropsPiece(c, s, s', b, pushed)
    case KilledOwner(owner) => KillsOwner(c, s, s', owner)
    case HeldBlock(b) => Holds(c, s, s', b)
    case Wrote(b) => Writes(c, s, s', b)
  }

  // ----- Taking -----

  lemma RefKeepsChains(pt: seq<Page>, p: nat, num: nat, frag: nat, owner: nat)
    requires Chained(pt) && Unused(pt, p, num) && num >= 1 && (frag == 0 || num == 1)
    ensures Chained(RefRun(pt, p, num, frag, owner))
  {
    var r := RefRun(pt, p, num, frag, owner);
    forall q | 0 <= q < |r| ensures ChainedAt(r, q) {
      assert ChainedAt(pt, q);
      if p <= q < p + num { assert r[q] == RunPage(q, p + num - 1, frag, owner); }
      if q + 1 < |r| && p <= q + 1 < p + num { assert !pt[q + 1].used; }
    }
  }

  /** Blocks on pages in use are not touched by taking unused pages. */
  lemma OthersKept(c: Config, pt: seq<Page>, p: nat, num: nat, frag: nat, owner: nat, d: Block)
    requires Chained(pt) && Unused(pt, p, num) && num >= 1 && LiveOk(c, pt, d)
    ensures LiveOk(c, RefRun(pt, p, num, frag, owner), d)
  {
    var r := RefRun(pt, p, num, frag, owner);
    if d.Run? {
      forall q | d.page <= q < d.page + d.num ensures r[q] == pt[q] {
        assert pt[q] == RunPage(q, d.page + d.num - 1, 0, d.owner);
      }
      assert pt[d.page] == RunPage(d.page, d.page + d.num - 1, 0, d.owner);
      assert p <= d.page - 1 < p + num ==> d.page - 1 == p + num - 1;
    }
  }

  lemma StackedKept(c: Config, s: State, s': State, p: nat, num: nat, frag: nat, owner: nat, o: nat, k: nat, f: Frag)
    requires c.Valid() && Unused(s.pages, p, num) && StackedOk(c, s, o, k, f)
    requires s'.pages == RefRun(s.pages, p, num, frag, owner) && ClearedPages(s.ram, s'.ram, p, num)
    requires Piece(f.page, f.idx, k, o) !in s'.live
    ensures StackedOk(c, s', o, k, f)
  {
    assert ClearedPage(s.ram[f.page], s'.ram[f.page], p <= f.page < p + num);
  }

  lemma ClearedRamOk(c: Config, ram: Ram, ram': Ram, p: nat, num: nat)
    requires RamOk(c, ram) && ClearedPages(ram, ram', p, num)
    ensures RamOk(c, ram')
  {
    forall q | 0 <= q < |ram'| ensures |ram'[q]| == c.PageSize() {
      assert ClearedPage(ram[q], ram'[q], p <= q < p + num);
    }
  }

  lemma TakesRunKeepsInv(c: Config, s: State, s': State, b: Block)
    requires Inv(c, s) && TakesRun(c, s, s', b)
    ensures Inv(c, s') && ZeroBlock(c, s'.ram, b)
  {
    RefKeepsChains(s.pages, b.page, b.num, 0, b.owner);
    CountFreeRefRun(s.pages, b.page, b.num, 0, b.owner);
    ClearedRamOk(c, s.ram, s'.ram, b.page, b.num);
    forall d | d in s.live ensures LiveOk(c, s'.pages, d) {
      OthersKept(c, s.pages, b.page, b.num, 0, b.owner, d);
    }
    assert ChainedAt(s.pages, b.page - 1);
    assert LiveOk(c, s'.pages, b);
    forall o: nat, k: nat, f: Frag | f in s'.StackOf(o, k) ensures StackedOk(c, s', o, k, f) {
      assert f in s.StackOf(o, k) && StackedOk(c, s, o, k, f);
      StackedKept(c, s, s', b.page, b.num, 0, b.owner, o, k, f);
    }
    forall p | 0 <= p < |s'.ram| ensures ZeroIn(c, s'.ram[p], b, p) {
      assert ClearedPage(s.ram[p], s'.ram[p], b.page <= p < b.page + b.num);
    }
  }

  lemma AddsPageKeepsInv(c: Config, s: State, s': State, page: nat, frag: nat, owner: nat)
    requires Inv(c, s) && AddsPage(c, s, s', page, frag, owner)
    ensures Inv(c, s')
  {
    assert s'.pages == RefRun(s.pages, page, 1, frag, owner);
    RefKeepsChains(s.pages, page, 1, frag, owner);
    CountFreeRefRun(s.pages, page, 1, frag, owner);
    ClearedRamOk(c, s.ram, s'.ram, page, 1);
    forall d | d in s.live ensures LiveOk(c, s'.pages, d) {
      OthersKept(c, s.pages, page, 1, frag, owner, d);
    }
    forall o: nat, k: nat, f: Frag | f in s'.StackOf(o, k) ensures StackedOk(c, s', o, k, f) {
      if (o, k) == (owner, frag) {
        NewPieceOk(c, s, s', page, frag, owner, f);
      } else {
        assert f in s.StackOf(o, k) && StackedOk(c, s, o, k, f);
        StackedKept(c, s, s', page, 1, frag, owner, o, k, f);
      }
    }
  }

  lemma NewPieceOk(c: Config, s: State, s': State, page: nat, frag: nat, owner: nat, f: Frag)
    requires Inv(c, s) && AddsPage(c, s, s', page, frag, owner) && f in PagePieces(page, Pow2(frag))
    ensures StackedOk(c, s', owner, frag, f)
  {
    var b := Piece(page, f.idx, frag, owner);
    assert b in s.live ==> LiveOk(c, s.pages, b);
    assert ClearedPage(s.ram[page], s'.ram[page], page <= page < page + 1);
  }

  lemma TakesPieceKeepsInv(c: Config, s: State, s': State, b: Block)
    requires Inv(c, s) && TakesPiece(c, s, s', b)
    ensures Inv(c, s') && ZeroBlock(c, s'.ram, b)
  {
    assert StackedOk(c, s, b.owner, b.frag, Frag(b.page, b.idx));
    forall o: nat, k: nat, f: Frag | f in s'.StackOf(o, k) ensures StackedOk(c, s', o, k, f) {
      assert f in s.StackOf(o, k) && StackedOk(c, s, o, k, f);
    }
  }

  // ----- Dropping -----

  lemma DropsRunKeepsInv(c: Config, s: State, s': State, b: Block)
    requires Inv(c, s) && DropsRun(c, s, s', b)
    ensures Inv(c, s')
  {
    assert LiveOk(c, s.pages, b);
    forall q | b.page <= q < b.page + b.num ensures s.pages[q].used {
      assert s.pages[q] == RunPage(q, b.page + b.num - 1, 0, b.owner);
    }
    CountFreeFreeRun(s.pages, b.page, b.num);
    forall q | 0 <= q < |s'.pages| ensures ChainedAt(s'.pages, q) {
      assert ChainedAt(s.pages, q);
    }
    forall d | d in s'.live ensures LiveOk(c, s'.pages, d) {
      OthersOutlive(c, s, b, d);
    }
    forall o: nat, k: nat, f: Frag | f in s'.StackOf(o, k) ensures StackedOk(c, s', o, k, f) {
      assert f in s.StackOf(o, k) && StackedOk(c, s, o, k, f);
      RunOrPiece(c, s.pages, b, Piece(f.page, f.idx, k, o), f.page);
    }
  }

  /** Freeing a run leaves every other block alone. */
  lemma OthersOutlive(c: Config, s: State, b: Block, d: Block)
    requires Inv(c, s) && b in s.live && b.Run? && b.page + b.num <= |s.pages| && d in s.live && d != b
    ensures LiveOk(c, FreeRun(s.pages, b.page, b.num), d)
  {
    assert LiveOk(c, s.pages, b) && LiveOk(c, s.pages, d);
    var r := FreeRun(s.pages, b.page, b.num);
    if d.Piece? {
      RunOrPiece(c, s.pages, b, d, d.page);
    } else {
      forall q | d.page <= q < d.page + d.num ensures r[q] == RunPage(q, d.page + d.num - 1, 0, d.owner) {
        if b.page <= q < b.page + b.num {
          SameChain(s.pages, b.page, b.num, b.owner, d.page, d.num, d.owner, q);
        }
      }
    }
  }

  lemma {:induction false} CountFreeFreed(pt: seq<Page>, pt': seq<Page>, pgs: set<nat>)
    requires FreedPages(pt, pt', pgs) && forall p :: p in pgs ==> p < |pt| && pt[p].used
    ensures CountFree(pt') == CountFree(pt) + |pgs|
    decreases |pgs|
  {
    if pgs == {} {
      forall q | 0 <= q < |pt| ensures pt'[q] == pt[q] { assert FreedAt(pt, pt', pgs, q); }
      assert pt' == pt;
    } else {
      var p :| p in pgs;
      var rest, mid := pgs - {p}, pt'[p := pt[p]];
      forall q | 0 <= q < |pt| ensures FreedAt(pt, mid, rest, q) { assert FreedAt(pt, pt', pgs, q); }
      CountFreeFreed(pt, mid, rest);
      CountFreeUpdate(pt', p, pt[p]);
      assert FreedAt(pt, pt', pgs, p);
    }
  }

  /** What it means that a page is completely on the stack: none of its pieces is live. */
  lemma FullPageIsFree(c: Config, s: State, frag: nat, owner: nat, p: nat)
    requires Inv(c, s) && p in FullPages(s.StackOf(owner, frag), Pow2(frag))
    ensures 1 <= p < |s.pages| && s.pages[p] == Page(true, frag, false, owner) && 1 <= frag <= c.Sizes()
    ensures forall i :: 0 <= i < Pow2(frag) ==> Piece(p, i, frag, owner) !in s.live
  {
    var fs := s.StackOf(owner, frag);
    var f :| f in fs && f.page == p && forall i :: 0 <= i < Pow2(frag) ==> Frag(f.page, i) in fs;
    assert StackedOk(c, s, owner, frag, f);
    forall i | 0 <= i < Pow2(frag) ensures Piece(p, i, frag, owner) !in s.live {
      assert StackedOk(c, s, owner, frag, Frag(f.page, i));
    }
  }

  lemma CleansStackKeepsInv(c: Config, s: State, s': State, frag: nat, owner: nat)
    requires Inv(c, s) && CleansStack(c, s, s', frag, owner)
    ensures Inv(c, s')
  {
    var full := FullPages(s.StackOf(owner, frag), Pow2(frag));
    forall p | p in full
      ensures 1 <= p < |s.pages| && s.pages[p] == Page(true, frag, false, owner) && IsFragPage(s.pages, p)
      ensures forall i :: 0 <= i < Pow2(frag) ==> Piece(p, i, frag, owner) !in s.live
    {
      FullPageIsFree(c, s, frag, owner, p);
    }
    CountFreeFreed(s.pages, s'.pages, full);
    FreedKeepsChains(s.pages, s'.pages, full);
    assert FreedAt(s.pages, s'.pages, full, 0);
    forall d | d in s'.live ensures LiveOk(c, s'.pages, d) {
      LiveAfterCleanup(c, s, s'.pages, full, frag, owner, d);
    }
    forall o: nat, k: nat, f: Frag | f in s'.StackOf(o, k) ensures StackedOk(c, s', o, k, f) {
      assert f in s.StackOf(o, k) && StackedOk(c, s, o, k, f);
      assert FreedAt(s.pages, s'.pages, full, f.page);
    }
  }

  lemma LiveAfterCleanup(c: Config, s: State, pt': seq<Page>, full: set<nat>, frag: nat, owner: nat, d: Block)
    requires Inv(c, s) && d in s.live && FreedPages(s.pages, pt', full)
    requires forall p :: p in full ==> 1 <= frag && 1 <= p < |s.pages| && s.pages[p] == Page(true, frag, false, owner)
    requires forall p, i :: p in full && 0 <= i < Pow2(frag) ==> Piece(p, i, frag, owner) !in s.live
    ensures LiveOk(c, pt', d)
  {
    assert LiveOk(c, s.pages, d);
    if d.Piece? {
      assert FreedAt(s.pages, pt', full, d.page);
    } else {
      forall q | d.page <= q < d.page + d.num ensures pt'[q] == RunPage(q, d.page + d.num - 1, 0, d.owner) {
        assert FreedAt(s.pages, pt', full, q);
      }
      assert FreedAt(s.pages, pt', full, d.page - 1);
    }
  }

  // ----- Writing -----

  lemma ChangedRamOk(c: Config, ram: Ram, ram': Ram, b: Block)
    requires RamOk(c, ram) && ChangedWithin(c, ram, ram', b)
    ensures RamOk(c, ram')
  {
    forall q | 0 <= q < |ram'| ensures |ram'[q]| == c.PageSize() {
      assert RowChangedWithin(c, ram[q], ram'[q], b, q);
    }
  }

  /** Whatever happens within a live block, free fragments stay zero. */
  lemma FreeStayZero(c: Config, s: State, ram': Ram, b: Block, o: nat, k: nat, f: Frag)
    requires Inv(c, s) && b in s.live && ChangedWithin(c, s.ram, ram', b) && f in s.StackOf(o, k)
    ensures ZeroPiece(c, ram', f.page, f.idx, k)
  {
    assert StackedOk(c, s, o, k, f);
    var row := ram'[f.page];
    assert RowChangedWithin(c, s.ram[f.page], row, b, f.page);
    forall off | 0 <= off < |row| && off / c.FragSize(k) == f.idx ensures row[off] == 0 {
      StackedIsNotLive(c, s, o, k, f, b, off);
    }
  }

  lemma WritesKeepInv(c: Config, s: State, s': State, b: Block)
    requires Inv(c, s) && Writes(c, s, s', b)
    ensures Inv(c, s')
  {
    ChangedRamOk(c, s.ram, s'.ram, b);
    forall o: nat, k: nat, f: Frag | f in s'.StackOf(o, k) ensures StackedOk(c, s', o, k, f) {
      assert f in s.StackOf(o, k) && StackedOk(c, s, o, k, f);
      FreeStayZero(c, s, s'.ram, b, o, k, f);
    }
  }

  lemma DropsPieceKeepsInv(c: Config, s: State, s': State, b: Block, pushed: bool)
    requires Inv(c, s) && DropsPiece(c, s, s', b, pushed)
    ensures Inv(c, s')
  {
    assert LiveOk(c, s.pages, b);
    ChangedRamOk(c, s.ram, s'.ram, b);
    forall o: nat, k: nat, f: Frag | f in s'.StackOf(o, k) ensures StackedOk(c, s', o, k, f) {
      if f in s.StackOf(o, k) {
        assert StackedOk(c, s, o, k, f);
        FreeStayZero(c, s, s'.ram, b, o, k, f);
      } else {
        assert ZeroIn(c, s'.ram[b.page], b, b.page);
      }
    }
  }

  // ----- Killing -----

  lemma KillsOwnerKeepsInv(c: Config, s: State, s': State, owner: nat)
    requires Inv(c, s) && KillsOwner(c, s, s', owner)
    ensures Inv(c, s')
  {
    KillKeepsChains(s.pages, owner);
    CountFreeKill(s.pages, owner, |s.pages|);
    forall d | d in s'.live ensures LiveOk(c, s'.pages, d) {
      assert LiveOk(c, s.pages, d);
    }
    forall o: nat, k: nat, f: Frag | f in s'.StackOf(o, k) ensures StackedOk(c, s', o, k, f) {
      assert f in s.StackOf(o, k) && StackedOk(c, s, o, k, f);
    }
  }

  // ----- Runs -----

  lemma StepKeepsInv(c: Config, s: State, e: Event, s': State)
    requires Inv(c, s) && Step(c, s, e, s')
    ensures Inv(c, s')
  {
    match e
    case TookRun(b) => TakesRunKeepsInv(c, s, s', b);
    case AddedPage(page, frag, owner) => AddsPageKeepsInv(c, s, s', page, frag, owner);
    case TookPiece(b) => TakesPieceKeepsInv(c, s, s', b);
    case DroppedRun(b) => DropsRunKeepsInv(c, s, s', b);
    case CleanedStack(frag, owner) => CleansStackKeepsInv(c, s, s', frag, owner);
    case DroppedPiece(b, pushed) => DropsPieceKeepsInv(c, s, s', b, pushed);
    case KilledOwner(owner) => KillsOwnerKeepsInv(c, s, s', owner);
    case HeldBlock(b) =>
      forall o: nat, k: nat, f: Frag | f in s'.StackOf(o, k) ensures StackedOk(c, s', o, k, f) {
        assert f in s.StackOf(o, k) && StackedOk(c, s, o, k, f);
      }
    case Wrote(b) => WritesKeepInv(c, s, s', b);
  }

  /** A run: one state more than events. */
  ghost predicate IsRun(c: Config, run: seq<State>, events: seq<Event>) {
    |run| == |events| + 1 && forall i :: 0 <= i < |events| ==> Step(c, run[i], events[i], run[i + 1])
  }

  lemma {:induction false} RunKeepsInv(c: Config, run: seq<State>, events: seq<Event>, n: nat)
    requires IsRun(c, run, events) && Inv(c, run[0]) && n < |run|
    ensures Inv(c, run[n])
  {
    if n > 0 {
      RunKeepsInv(c, run, events, n - 1);
      StepKeepsInv(c, run[n - 1], events[n - 1], run[n]);
    }
  }

  /** In every run all live blocks are disjoint, and the free count is the number of clear bits. */
  lemma RunKeepsBlocksApart(c: Config, run: seq<State>, events: seq<Event>, n: nat,
                            b: Block, d: Block, p: nat, off: nat)
    requires IsRun(c, run, events) && Inv(c, run[0]) && n < |run|
    requires b in run[n].live && d in run[n].live && b != d && Covers(c, b, p, off)
    ensures !Covers(c, d, p, off) && 1 <= p < |run[n].pages| && !Locked(run[n].pages[p])
    ensures run[n].free == CountFree(run[n].pages)
  {
    RunKeepsInv(c, run, events, n);
    LiveBlocksUnlocked(c, run[n], b, p, off);
    if Covers(c, d, p, off) { LiveBlocksDisjoint(c, run[n], b, d, p, off); }
  }

  /** In every run each block is new and zero when it is handed out. */
  lemma NewBlocksAreZero(c: Config, run: seq<State>, events: seq<Event>, n: nat, b: Block)
    requires IsRun(c, run, events) && Inv(c, run[0]) && n < |events|
    requires events[n] == TookRun(b) || events[n] == TookPiece(b)
    ensures b !in run[n].live && b in run[n + 1].live && ZeroBlock(c, run[n + 1].ram, b)
  {
    RunKeepsInv(c, run, events, n);
    var s := run[n];
    assert Step(c, s, events[n], run[n + 1]);
    assert b in s.live ==> LiveOk(c, s.pages, b);
    if events[n] == TookRun(b) {
      assert !s.pages[b.page].used;
      TakesRunKeepsInv(c, s, run[n + 1], b);
    } else {
      TakesPieceKeepsInv(c, s, run[n + 1], b);
      assert StackedOk(c, s, b.owner, b.frag, Frag(b.page, b.idx));
    }
  }

  /** A block that stays live changes only when its holder writes into it. */
  lemma OthersUntouched(c: Config, s: State, e: Event, s': State, b: Block, p: nat, off: nat)
    requires Inv(c, s) && Step(c, s, e, s') && b in s.live && b in s'.live && e != Wrote(b)
    requires Covers(c, b, p, off)
    ensures p < |s.ram| == |s'.ram| && off < |s.ram[p]| == |s'.ram[p]| && s'.ram[p][off] == s.ram[p][off]
  {
    StepKeepsInv(c, s, e, s');
    LiveBlocksUnlocked(c, s, b, p, off);
    match e
    case TookRun(d) => assert ClearedPage(s.ram[p], s'.ram[p], d.page <= p < d.page + d.num);
    case AddedPage(page, _, _) => assert ClearedPage(s.ram[p], s'.ram[p], page <= p < page + 1);
    case Wrote(d) => OutsideUnchanged(c, s, s'.ram, d, b, p, off);
    case DroppedPiece(d, _) => OutsideUnchanged(c, s, s'.ram, d, b, p, off);
    case _ =>
  }

  /** Over any stretch of a run in which a block stays live and its holder does not write, it keeps its contents. */
  lemma {:induction false} BlockKeepsContents(c: Config, run: seq<State>, events: seq<Event>, i: nat, j: nat,
                                              b: Block, p: nat, off: nat)
    requires IsRun(c, run, events) && Inv(c, run[0]) && i <= j < |run|
    requires (forall n :: i <= n <= j ==> b in run[n].live) && forall n :: i <= n < j ==> events[n] != Wrote(b)
    requires Covers(c, b, p, off)
    ensures p < |run[i].ram| && off < |run[i].ram[p]| && p < |run[j].ram| && off < |run[j].ram[p]|
    ensures run[j].ram[p][off] == run[i].ram[p][off]
    decreases j - i
  {
    if i == j {
      RunKeepsInv(c, run, events, j);
      LiveBlocksUnlocked(c, run[j], b, p, off);
    } else {
      RunKeepsInv(c, run, events, j - 1);
      assert Step(c, run[j - 1], events[j - 1], run[j]);
      OthersUntouched(c, run[j - 1], events[j - 1], run[j], b, p, off);
      BlockKeepsContents(c, run, events, i, j - 1, b, p, off);
    }
  }

  lemma OutsideUnchanged(c: Config, s: State, ram': Ram, d: Block, b: Block, p: nat, off: nat)
    requires Inv(c, s) && d in s.live && b in s.live && b != d && Covers(c, b, p, off) && p < |s.ram|
    requires off < |s.ram[p]|
    requires ChangedWithin(c, s.ram, ram', d)
    ensures p < |ram'| && off < |ram'[p]| && ram'[p][off] == s.ram[p][off]
  {
    assert RowChangedWithin(c, s.ram[p], ram'[p], d, p);
    if Covers(c, d, p, off) { LiveBlocksDisjoint(c, s, b, d, p, off); }
  }

  // ----- The beginning -----

  lemma LockKeepsChains(pt: seq<Page>, p: nat, num: nat)
    requires Chained(pt) && p + num <= |pt| && forall q :: p <= q < p + num ==> pt[q] == FREE || Locked(pt[q])
    ensures Chained(LockRun(pt, p, num))
  {
    var r := LockRun(pt, p, num);
    forall q | 0 <= q < |r| ensures ChainedAt(r, q) {
      assert ChainedAt(pt, q);
    }
  }

  /** Before any block is handed out, whatever memory holds. */
  lemma EmptyKeepsInv(c: Config, pages: seq<Page>, free: int, ram: Ram)
    requires c.Valid() && PagesOk(c, pages, free) && RamOk(c, ram)
    ensures Inv(c, State(pages, free, map[], {}, {}, ram))
  {
  }
}
