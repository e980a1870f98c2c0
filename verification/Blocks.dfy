/**
 Sizes and addresses (include/mem.h, kern/mem/mem.c): how pages and fragments lie in the flat address space.
 */
module Blocks {
  import opened Pages
  import opened Heap

  /** Values of pagenum_t: a byte for up to 256 pages. */
  function PageNumbers(c: Config): nat { if c.numPages < 257 then 0x100 else 0x1_0000 }

  /** sizeof (struct fragment): a page number and a byte, padded. */
  function EntryBytes(c: Config): nat { if c.numPages < 257 then 2 else 4 }

  /** Bytes of a stack's page behind its header. */
  function StackRoom(c: Config): int { c.PageSize() - 4 }

  /** How many entries fit: STACK_PUSH compares with the page size. */
  function StackCapacity(c: Config): nat
    requires c.Valid()
  {
    RoomPositive(c);
    StackRoom(c) / EntryBytes(c)
  }

  lemma RoomPositive(c: Config)
    requires c.Valid()
    ensures StackRoom(c) >= 4
  {
    PowSplit(c.pageLog, 3);
    assert Pow2(3) == 8 * Pow2(0);
    assert c.PageSize() == 8 * Pow2(c.pageLog - 3);
  }

  /** A full stack and its header fill its page, but for less than one entry. */
  lemma StackFillsPage(c: Config)
    requires c.Valid()
    ensures var bytes := 4 + StackCapacity(c) * EntryBytes(c); bytes <= c.PageSize() < bytes + EntryBytes(c)
  {
    RoomPositive(c);
    var r, e := StackRoom(c), EntryBytes(c);
    assert r == r / e * e + r % e;
  }

  /** ROUNDBLEN: pages needed for that many bytes. */
  function Rounded(c: Config, size: nat): nat {
    size / c.PageSize() + if size % c.PageSize() != 0 then 1 else 0
  }

  function BytesOf(c: Config, b: Block): nat
    requires b.Piece? ==> b.frag <= c.pageLog
  {
    if b.Run? then b.num * c.PageSize() else c.FragSize(b.frag)
  }

  /** Where a block begins. */
  function Address(c: Config, b: Block): nat
    requires b.Piece? ==> b.frag <= c.pageLog
  {
    if b.Run? then b.page * c.PageSize() else b.page * c.PageSize() + b.idx * c.FragSize(b.frag)
  }

  /** ADDR2PAGE */
  function PageOf(c: Config, pos: nat): nat { Quotient(pos, c.PageSize()) }

  function Quotient(a: nat, z: nat): nat
    requires z >= 1
  {
    a / z
  }

  /** ADDR2FRAGIDX: the cast to a byte binds tighter than the division. */
  function FragIdx(c: Config, pos: nat, frag: nat): nat
    requires frag <= c.pageLog
  {
    var off: nat := pos % c.PageSize() % 0x100;
    Quotient(off, c.FragSize(frag))
  }

  /** IS_ILLEGAL_FRAG: pos & (FRAGSIZE - 1), and FRAGSIZE is a power of two. */
  predicate IllegalFrag(c: Config, pos: nat, frag: nat)
    requires frag <= c.pageLog
  {
    pos % c.FragSize(frag) != 0
  }

  lemma DivMod(a: nat, z: nat, r: nat)
    requires r < z
    ensures (a * z + r) / z == a && (a * z + r) % z == r
  {
    DivRange(a * z + r, z, a);
    assert a * z + r == (a * z + r) / z * z + (a * z + r) % z;
  }

  lemma PageBytes(c: Config)
    requires c.Valid()
    ensures c.PageSize() <= 0x100
  {
    PowSplit(8, c.pageLog);
    assert Pow2(8) == 0x100 by {
      assert Pow2(4) == 16 && Pow2(8) == 16 * Pow2(4);
    }
    MulMonotone(1, Pow2(8 - c.pageLog), c.PageSize());
  }

  /** freep finds the page and the index again from a block's address. */
  lemma AddressRoundTrip(c: Config, page: nat, idx: nat, frag: nat, owner: nat)
    requires c.Valid() && frag <= c.pageLog && idx < Pow2(frag)
    ensures var pos := Address(c, Piece(page, idx, frag, owner));
      PageOf(c, pos) == page && FragIdx(c, pos, frag) == idx && !IllegalFrag(c, pos, frag)
  {
    PageBytes(c);
    PowSplit(c.pageLog, frag);
    Parts(page, c.PageSize(), Pow2(frag), c.FragSize(frag), idx);
  }

  lemma Parts(page: nat, size: nat, m: nat, z: nat, idx: nat)
    requires z >= 1 && m * z == size <= 0x100 && idx < m
    ensures var pos := page * size + idx * z;
      pos / size == page && pos % size % 0x100 / z == idx && pos % z == 0
  {
    MulMonotone(idx + 1, m, z);
    assert (idx + 1) * z == idx * z + z;
    DivMod(page, size, idx * z);
    DivMod(idx, z, 0);
    BoundaryOf(page, m, z, idx, size);
  }

  lemma BoundaryOf(page: nat, m: nat, z: nat, idx: nat, size: nat)
    requires z >= 1 && m * z == size
    ensures (page * size + idx * z) % z == 0
  {
    var k := page * m + idx;
    assert page * size == page * m * z;
    assert k * z == page * m * z + idx * z;
    DivMod(k, z, 0);
  }

  /** The bytes of a block are those from its address on, as many as its pages or its fragment size make. */
  lemma CoversIsRange(c: Config, b: Block, p: nat, off: nat)
    requires c.Valid() && (b.Piece? ==> 1 <= b.frag <= c.pageLog && b.idx < Pow2(b.frag)) && off < c.PageSize()
    ensures Covers(c, b, p, off) <==> Address(c, b) <= p * c.PageSize() + off < Address(c, b) + BytesOf(c, b)
  {
    if b.Run? {
      RunRange(b.page, b.num, p, off, c.PageSize());
    } else {
      PieceIsStretch(c, b.frag, b.idx, off);
      PieceRange(b.page, b.idx * c.FragSize(b.frag), c.FragSize(b.frag), p, off, c.PageSize());
    }
  }

  lemma RunRange(page: nat, num: nat, p: nat, off: nat, z: nat)
    requires off < z
    ensures page <= p < page + num <==> page * z <= p * z + off < page * z + num * z
  {
    assert (page + num) * z == page * z + num * z;
    PagesBetween(page, page + num, p, off, z);
  }

  lemma PieceRange(page: nat, start: nat, len: nat, p: nat, off: nat, z: nat)
    requires off < z && start + len <= z
    ensures page == p && start <= off < start + len <==> page * z + start <= p * z + off < page * z + start + len
  {
    assert (page + 1) * z == page * z + z;
    PagesBetween(page, page + 1, p, off, z);
  }

  lemma PagesBetween(lo: nat, hi: nat, p: nat, off: nat, z: nat)
    requires off < z && lo <= hi
    ensures lo <= p < hi <==> lo * z <= p * z + off < hi * z
  {
    assert (p + 1) * z == p * z + z;
    if p < lo { MulMonotone(p + 1, lo, z); } else { MulMonotone(lo, p, z); }
    if p < hi { MulMonotone(p + 1, hi, z); } else { MulMonotone(hi, p, z); }
  }

  /** The cast is harmless exactly for offsets that fit a byte, so for pages of up to 256 bytes. */
  lemma IndexCastExact(off: nat, z: nat)
    requires z >= 1 && off % z == 0
    ensures off % 0x100 / z == off / z <==> off < 0x100
  {
    var q := off / z;
    assert off == q * z;
    DivRange(off % 0x100, z, q);
  }

  lemma RoomForAll(c: Config, fs: nat)
    requires c.Valid() && StackRoom(c) >= EntryBytes(c) * Pow2(fs)
    ensures Pow2(fs) <= StackCapacity(c)
  {
    RoomPositive(c);
    DivAtLeast(StackRoom(c), EntryBytes(c), Pow2(fs));
  }

  lemma DivAtLeast(room: nat, e: nat, n: nat)
    requires e >= 1 && room >= e * n
    ensures room / e >= n
  {
    var q := room / e;
    assert room == q * e + room % e;
    assert (q + 1) * e == q * e + e;
    if q + 1 <= n { MulMonotone(q + 1, n, e); }
  }

  lemma {:induction false} PowMonotone(a: nat, b: nat)
    requires a <= b
    ensures Pow2(a) <= Pow2(b)
  {
    if a < b { PowMonotone(a, b - 1); }
  }

  /** The class of the smallest fragments that are large enough. */
  predicate IsClass(c: Config, size: nat, fs: nat)
    requires c.Valid()
  {
    1 <= fs <= c.Sizes() && size <= c.FragSize(fs) && (fs == c.Sizes() || c.FragSize(fs + 1) < size)
  }

  /** The loop at the head of mem_frag_alloc. */
  method SizeClass(c: Config, size: nat) returns (fs: nat)
    requires c.Valid() && 1 <= size <= c.PageSize() / 2
    ensures IsClass(c, size, fs)
  {
    fs := 0;
    var i := c.PageSize() / 2;
    while i >= Pow2(c.minLog)
      invariant 0 <= fs <= c.Sizes() && i == c.FragSize(fs) / 2 && size <= c.FragSize(fs)
      invariant fs == 0 ==> i == c.PageSize() / 2
      decreases c.Sizes() - fs
    {
      assert c.pageLog - c.Sizes() == c.minLog;
      if fs == c.Sizes() { assert false; }
      assert c.FragSize(fs) == 2 * c.FragSize(fs + 1);
      if i < size { break; }
      fs, i := fs + 1, i / 2;
    }
    if fs < c.Sizes() { PowMonotone(c.minLog, c.pageLog - fs - 1); }
  }

  /** ROUNDBLEN gives the smallest number of pages that is large enough. */
  lemma RoundedIsCeiling(c: Config, size: nat)
    requires size >= 1
    ensures Rounded(c, size) >= 1 && (Rounded(c, size) - 1) * c.PageSize() < size <= Rounded(c, size) * c.PageSize()
  {
    var z := c.PageSize();
    var q := size / z;
    assert size == q * z + size % z;
    assert (q + 1) * z == q * z + z && (q - 1) * z == q * z - z;
  }

  /** The page count is cut off to a pagenum_t: the run is large enough exactly if nothing was cut off. */
  lemma RunIsLargeEnough(c: Config, size: nat)
    requires size >= 1
    ensures size <= Rounded(c, size) % PageNumbers(c) * c.PageSize() <==> Rounded(c, size) < PageNumbers(c)
  {
    var n, num := Rounded(c, size), Rounded(c, size) % PageNumbers(c);
    RoundedIsCeiling(c, size);
    if n >= PageNumbers(c) { MulMonotone(num, n - 1, c.PageSize()); }
  }
}
