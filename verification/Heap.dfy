/**
 The allocator's state as a value: pages, fragment stacks as sets, the blocks that have been handed out,
 and the contents of memory. Blocks that hold a fragment stack are marked as held.
 */
module Heap {
  import opened Bytes
  import opened Pages
  import opened FragStack

  /** A block handed out: a run of whole pages, or piece idx of a page divided into 2^frag pieces. */
  datatype Block =
    | Run(page: nat, num: nat, owner: nat)
    | Piece(page: nat, idx: nat, frag: nat, owner: nat)

  type Ram = seq<seq<Byte>>

  datatype State = State(
    pages: seq<Page>, free: int, stacks: map<(nat, nat), set<Frag>>, live: set<Block>, held: set<Block>, ram: Ram)
  {
    /** The free fragments of one owner and size. */
    function StackOf(owner: nat, frag: nat): set<Frag> { FreeOf(stacks, owner, frag) }
  }

  function FreeOf(stacks: map<(nat, nat), set<Frag>>, owner: nat, frag: nat): set<Frag> {
    if (owner, frag) in stacks then stacks[(owner, frag)] else {}
  }

  /** Does the byte at this offset of page p belong to the block? */
  ghost predicate Covers(c: Config, b: Block, p: nat, off: nat) {
    match b
    case Run(page, num, _) => page <= p < page + num && off < c.PageSize()
    case Piece(page, idx, frag, _) =>
      p == page && frag <= c.pageLog && off < c.PageSize() && off / c.FragSize(frag) == idx
  }

  // ----- Invariant -----

  /** Is this piece one of those that its page is divided into? */
  predicate PieceOk(c: Config, pages: seq<Page>, page: nat, idx: nat, frag: nat, owner: nat) {
    && 1 <= page < |pages| && pages[page] == Page(true, frag, false, owner)
    && 1 <= frag <= c.Sizes() && idx < Pow2(frag)
  }

  ghost predicate LiveOk(c: Config, pages: seq<Page>, b: Block) {
    match b
    case Run(page, num, owner) => page >= 1 && IsChain(pages, page, num, owner)
    case Piece(page, idx, frag, owner) => PieceOk(c, pages, page, idx, frag, owner)
  }

  ghost predicate ZeroPiece(c: Config, ram: Ram, page: nat, idx: nat, frag: nat)
    requires c.Valid()
  {
    page < |ram| && frag <= c.pageLog
    && forall off :: 0 <= off < |ram[page]| && off / c.FragSize(frag) == idx ==> ram[page][off] == 0
  }

  ghost predicate StackedOk(c: Config, s: State, owner: nat, frag: nat, f: Frag)
    requires c.Valid()
  {
    && PieceOk(c, s.pages, f.page, f.idx, frag, owner)
    && Piece(f.page, f.idx, frag, owner) !in s.live
    && ZeroPiece(c, s.ram, f.page, f.idx, frag)
  }

  ghost predicate PagesOk(c: Config, pages: seq<Page>, free: int) {
    && |pages| == c.numPages > 0 && Chained(pages) && Locked(pages[0]) && pages[0].used
    && free == CountFree(pages)
  }

  ghost predicate RamOk(c: Config, ram: Ram) {
    |ram| == c.numPages && forall p :: 0 <= p < |ram| ==> |ram[p]| == c.PageSize()
  }

  ghost predicate AllLiveOk(c: Config, pages: seq<Page>, live: set<Block>) {
    forall b :: b in live ==> LiveOk(c, pages, b)
  }

  ghost predicate AllStackedOk(c: Config, s: State)
    requires c.Valid()
  {
    forall o, k, f :: f in s.StackOf(o, k) ==> StackedOk(c, s, o, k, f)
  }

  ghost predicate Inv(c: Config, s: State) {
    && c.Valid() && PagesOk(c, s.pages, s.free) && RamOk(c, s.ram)
    && AllLiveOk(c, s.pages, s.live) && AllStackedOk(c, s) && s.held <= s.live
  }

  // ----- What the invariant means -----

  /** Runs that share a page are the same run. */
  lemma SameChain(pt: seq<Page>, p1: nat, n1: nat, o1: nat, p2: nat, n2: nat, o2: nat, q: nat)
    requires IsChain(pt, p1, n1, o1) && IsChain(pt, p2, n2, o2)
    requires p1 <= q < p1 + n1 && p2 <= q < p2 + n2
    ensures p1 == p2 && n1 == n2 && o1 == o2
  {
    var l1, l2 := p1 + n1 - 1, p2 + n2 - 1;
    assert pt[l1] == RunPage(l1, l1, 0, o1) && pt[l2] == RunPage(l2, l2, 0, o2);
    assert l1 == l2;
    assert pt[q].owner == RunPage(q, p1 + n1 - 1, 0, o1).owner == RunPage(q, p2 + n2 - 1, 0, o2).owner;
  }

  lemma RunOrPiece(c: Config, pages: seq<Page>, b: Block, d: Block, p: nat)
    requires LiveOk(c, pages, b) && LiveOk(c, pages, d) && b.Run? && d.Piece? && d.page == p
    ensures !(b.page <= p < b.page + b.num)
  {
  }

  /** Live blocks are pairwise disjoint: no byte belongs to two of them. */
  lemma LiveBlocksDisjoint(c: Config, s: State, b: Block, d: Block, p: nat, off: nat)
    requires Inv(c, s) && b in s.live && d in s.live && Covers(c, b, p, off) && Covers(c, d, p, off)
    ensures b == d
  {
    assert LiveOk(c, s.pages, b) && LiveOk(c, s.pages, d);
    if b.Run? && d.Run? {
      SameChain(s.pages, b.page, b.num, b.owner, d.page, d.num, d.owner, p);
    } else if b.Run? {
      RunOrPiece(c, s.pages, b, d, p);
    } else if d.Run? {
      RunOrPiece(c, s.pages, d, b, p);
    }
  }

  /** Live blocks lie in memory, on pages of their owner, and never touch locked pages. */
  lemma LiveBlocksUnlocked(c: Config, s: State, b: Block, p: nat, off: nat)
    requires Inv(c, s) && b in s.live && Covers(c, b, p, off)
    ensures 1 <= p < c.numPages && s.pages[p].used && !Locked(s.pages[p]) && s.pages[p].owner == b.owner
  {
    assert LiveOk(c, s.pages, b);
  }

  /** A free fragment shares no byte with a live block. */
  lemma StackedIsNotLive(c: Config, s: State, o: nat, k: nat, f: Frag, b: Block, off: nat)
    requires Inv(c, s) && f in s.StackOf(o, k) && b in s.live && k <= c.pageLog && off / c.FragSize(k) == f.idx
    ensures !Covers(c, b, f.page, off)
  {
    assert StackedOk(c, s, o, k, f) && LiveOk(c, s.pages, b);
    if b.Run? { RunOrPiece(c, s.pages, b, Piece(f.page, f.idx, k, o), f.page); }
  }

  // ----- Addresses -----

  lemma {:induction false} PowSplit(a: nat, b: nat)
    requires b <= a
    ensures Pow2(b) * Pow2(a - b) == Pow2(a)
  {
    if b > 0 {
      PowSplit(a - 1, b - 1);
      assert 2 * Pow2(b - 1) * Pow2(a - b) == 2 * (Pow2(b - 1) * Pow2(a - b));
    }
  }

  lemma MulMonotone(a: nat, b: nat, z: nat)
    requires a <= b
    ensures a * z <= b * z
  {
    assert b * z == a * z + (b - a) * z;
  }

  lemma DivRange(off: nat, z: nat, idx: nat)
    requires z >= 1
    ensures off / z == idx <==> idx * z <= off < idx * z + z
  {
    var q := off / z;
    assert off == q * z + off % z;
    if q < idx { MulMonotone(q + 1, idx, z); assert (q + 1) * z == q * z + z; }
    if idx < q { MulMonotone(idx + 1, q, z); assert (idx + 1) * z == idx * z + z; }
  }

  /** A piece is the stretch of FRAGSIZE bytes that its index says, and lies within its page. */
  lemma PieceIsStretch(c: Config, frag: nat, idx: nat, off: nat)
    requires c.Valid() && frag <= c.pageLog && idx < Pow2(frag)
    ensures idx * c.FragSize(frag) + c.FragSize(frag) <= c.PageSize()
    ensures off / c.FragSize(frag) == idx <==> idx * c.FragSize(frag) <= off < idx * c.FragSize(frag) + c.FragSize(frag)
  {
    var z := c.FragSize(frag);
    PowSplit(c.pageLog, frag);
    MulMonotone(idx + 1, Pow2(frag), z);
    assert (idx + 1) * z == idx * z + z;
    DivRange(off, z, idx);
  }
}
