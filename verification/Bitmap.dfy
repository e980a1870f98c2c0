/**
 Bitmaps (include/bitmap.h, lib/bitmap.c): bit i of a map is bit i % 8 of its byte i / 8.
 */
module Bitmap {

  /** BITMAP_BIT: 1 << (index % 8) */
  function Bit(k: nat): bv8 {
    if k == 0 then 1 else if k == 1 then 2 else if k == 2 then 4 else if k == 3 then 8
    else if k == 4 then 16 else if k == 5 then 32 else if k == 6 then 64 else 128
  }

  /** BITMAP_GET */
  predicate Get(bits: seq<bv8>, i: nat)
    requires i < 8 * |bits|
  {
    BitSet(bits[i / 8], i % 8)
  }

  predicate BitSet(b: bv8, k: nat) {
    b & Bit(k) != 0
  }

  /** A byte with one bit set or cleared, as BITMAP_SET computes it. */
  function WithBit(b: bv8, k: nat, val: bool): bv8 {
    (b & (Bit(k) ^ 0xff)) | (if val then Bit(k) else 0)
  }

  lemma WithBitGet(b: bv8, k: nat, j: nat, val: bool)
    requires k < 8 && j < 8
    ensures BitSet(WithBit(b, k, val), j) == if j == k then val else BitSet(b, j)
  {
    BitsApart(k, j);
    if j == k { SameBit(b, Bit(k)); } else { OtherBit(b, Bit(k), Bit(j)); }
  }

  lemma BitsApart(k: nat, j: nat)
    requires k < 8 && j < 8
    ensures Bit(k) != 0 && (j != k ==> Bit(j) & Bit(k) == 0)
  {
  }

  lemma SameBit(b: bv8, m: bv8)
    ensures ((b & (m ^ 0xff)) | m) & m == m && ((b & (m ^ 0xff)) | 0) & m == 0
  {
  }

  lemma OtherBit(b: bv8, m: bv8, n: bv8)
    requires n & m == 0
    ensures ((b & (m ^ 0xff)) | m) & n == b & n
    ensures ((b & (m ^ 0xff)) | 0) & n == b & n
  {
  }

  /** A byte is full exactly when all of its bits are set. */
  lemma FullByte(b: bv8)
    ensures b == 0xff <==> forall k :: 0 <= k < 8 ==> BitSet(b, k)
  {
    if forall k :: 0 <= k < 8 ==> BitSet(b, k) {
      assert BitSet(b, 0) && BitSet(b, 1) && BitSet(b, 2) && BitSet(b, 3);
      assert BitSet(b, 4) && BitSet(b, 5) && BitSet(b, 6) && BitSet(b, 7);
    }
  }

  /** The map after BITMAP_SET. */
  function With(bits: seq<bv8>, i: nat, val: bool): seq<bv8>
    requires i < 8 * |bits|
  {
    bits[i / 8 := WithBit(bits[i / 8], i % 8, val)]
  }

  lemma WithGet(bits: seq<bv8>, i: nat, val: bool, j: nat)
    requires i < 8 * |bits| && j < 8 * |bits|
    ensures Get(With(bits, i, val), j) == if j == i then val else Get(bits, j)
  {
    if j / 8 == i / 8 { WithBitGet(bits[i / 8], i % 8, j % 8, val); }
  }

  /** BITMAP_SET: one bit changes. */
  method Set(bits: array<bv8>, i: nat, val: bool)
    requires i < 8 * bits.Length
    modifies bits
    ensures forall j :: 0 <= j < 8 * bits.Length ==>
      Get(bits[..], j) == if j == i then val else old(Get(bits[..], j))
  {
    ghost var before := bits[..];
    bits[i / 8] := WithBit(bits[i / 8], i % 8, val);
    assert bits[..] == With(before, i, val);
    forall j | 0 <= j < 8 * bits.Length
      ensures Get(bits[..], j) == if j == i then val else Get(before, j)
    {
      WithGet(before, i, val, j);
    }
  }

  ghost predicate AllClear(bits: seq<bv8>, b: nat, len: nat)
    requires b + len <= 8 * |bits|
  {
    forall j :: b <= j < b + len ==> !Get(bits, j)
  }

  /**
   Where the search, having begun at first, stands in the full byte k: behind its first bit, or at the place
   in the byte from which it has jumped here over full bytes only.
   */
  ghost function Entry(bits: seq<bv8>, first: nat, k: nat): (r: nat)
    requires k < |bits|
    ensures k >= first / 8 ==> r >= 1
  {
    if k < first / 8 then 0
    else if k == first / 8 then if first % 8 == 0 then 1 else first % 8
    else if bits[k - 1] == 0xff then Entry(bits, first, k - 1)
    else 1
  }

  /** The jump over a full byte goes past the first bits of the byte behind it. */
  ghost predicate PassedOver(bits: seq<bv8>, first: nat, b: nat)
    requires b < 8 * |bits|
  {
    b >= 8 && bits[b / 8 - 1] == 0xff && b % 8 < Entry(bits, first, b / 8 - 1)
  }

  /** From the first bit on only the first bit of a byte is passed over. */
  lemma {:induction false} EntryFromStart(bits: seq<bv8>, k: nat)
    requires k < |bits|
    ensures Entry(bits, 0, k) == 1
  {
    if k > 0 { EntryFromStart(bits, k - 1); }
  }

  /** A run that bitmap_seek can find. It neither tries the last place where a run could begin. */
  ghost predicate Candidate(bits: seq<bv8>, size: nat, first: nat, len: nat, b: nat)
    requires size <= 8 * |bits|
  {
    first <= b < size - len && !Get(bits, b) && !PassedOver(bits, first, b) && AllClear(bits, b, len)
  }

  /** The first of these, or 0; as a run at bit 0 is indistinguishable from none, it ends the search, too. */
  ghost predicate SeekResult(bits: seq<bv8>, size: nat, first: nat, len: nat, r: nat)
    requires size <= 8 * |bits|
  {
    if r == 0 then Candidate(bits, size, first, len, 0) || forall b: nat :: !Candidate(bits, size, first, len, b)
    else Candidate(bits, size, first, len, r) && forall b: nat :: b < r ==> !Candidate(bits, size, first, len, b)
  }

  /** Two free bits that bitmap_seek does not find. */
  lemma SeekMisses()
    ensures var bits: seq<bv8> := [0xff, 0xfc, 0xff];
      AllClear(bits, 8, 2) && forall r :: SeekResult(bits, 24, 0, 2, r) <==> r == 0
  {
    var bits: seq<bv8> := [0xff, 0xfc, 0xff];
    forall b: nat | b < 24 && b != 8 && b != 9 ensures Get(bits, b) {
      FullByte(bits[0]);
      assert b / 8 == 1 ==> b % 8 >= 2 && BitSet(0xfc, b % 8);
    }
    assert Entry(bits, 0, 0) == 1;
    assert PassedOver(bits, 0, 8);
    forall b: nat ensures !Candidate(bits, 24, 0, 2, b) {
      assert b == 9 ==> Get(bits, b + 1);
    }
  }

  /** The search has come to b and has missed nothing. */
  ghost predicate Searched(bits: seq<bv8>, size: nat, first: nat, len: nat, b: nat)
    requires size <= 8 * |bits|
  {
    && first <= b
    && (b < 8 * |bits| ==>
      !PassedOver(bits, first, b) && (b % 8 > 0 && bits[b / 8] == 0xff ==> b % 8 == Entry(bits, first, b / 8)))
    && forall s: nat :: s < b ==> !Candidate(bits, size, first, len, s)
  }

  lemma SkipByte(bits: seq<bv8>, size: nat, first: nat, len: nat, b: nat)
    requires size <= 8 * |bits| && b < size && Searched(bits, size, first, len, b)
    requires b % 8 > 0 && bits[b / 8] == 0xff
    ensures Searched(bits, size, first, len, b + 8)
  {
    FullByte(bits[b / 8]);
    forall s: nat | b <= s < b + 8 ensures !Candidate(bits, size, first, len, s) {
      assert s / 8 == b / 8 || (s / 8 == b / 8 + 1 && s % 8 < b % 8);
    }
  }

  /** Behind a bit that is set, when all bits from b to it are clear. */
  lemma SkipBits(bits: seq<bv8>, size: nat, first: nat, len: nat, b: nat, i: nat)
    requires size <= 8 * |bits| && Searched(bits, size, first, len, b) && b <= i < 8 * |bits|
    requires AllClear(bits, b, i - b) && Get(bits, i) && (i == b || i < b + len)
    requires i == b && b % 8 != 0 ==> bits[b / 8] != 0xff
    ensures Searched(bits, size, first, len, i + 1)
  {
    var n := i + 1;
    if i == b {
      if n < 8 * |bits| && n % 8 > 0 && bits[n / 8] == 0xff {
        assert b % 8 == 0 && n / 8 == b / 8;
        assert b > first ==> Entry(bits, first, b / 8 - 1) >= 1;
      }
    } else {
      assert !Get(bits, i - 1);
      FullByte(bits[(i - 1) / 8]);
      if b / 8 < i / 8 { StopsShort(bits, b, i); }
    }
  }

  lemma StopsShort(bits: seq<bv8>, b: nat, i: nat)
    requires i < 8 * |bits| && b / 8 < i / 8 && AllClear(bits, b, i - b)
    ensures bits[i / 8 - 1] != 0xff
  {
    assert !Get(bits, 8 * (i / 8) - 1);
    FullByte(bits[i / 8 - 1]);
  }

  /** BITMAP_GAP_LEN: the first bit from b on that is set, or b + len; l of the len bits are left then. */
  method GapLen(bits: array<bv8>, b: nat, len: nat) returns (i: nat, l: nat)
    requires b + len <= 8 * bits.Length
    ensures b <= i && i + l == b + len && AllClear(bits[..], b, i - b) && (l > 0 ==> Get(bits[..], i))
  {
    i, l := b, len;
    while l > 0 && !Get(bits[..], i)
      invariant b <= i && i + l == b + len && AllClear(bits[..], b, i - b)
    {
      i, l := i + 1, l - 1;
    }
  }

  /** bitmap_seek */
  method Seek(bits: array<bv8>, size: nat, first: nat, len: nat) returns (r: nat)
    requires size <= 8 * bits.Length && len <= size
    ensures r != 0 ==> first <= r && r + len < size && AllClear(bits[..], r, len)
    ensures SeekResult(bits[..], size, first, len, r)
  {
    ghost var m := bits[..];
    var b := first;
    while b < size - len
      invariant Searched(m, size, first, len, b)
      decreases size + 8 - b
    {
      if b % 8 != 0 && bits[b / 8] == 0xff {
        SkipByte(m, size, first, len, b);
        b := b + 8;
        continue;
      }
      if Get(bits[..], b) {
        SkipBits(m, size, first, len, b, b);
        b := b + 1;
        continue;
      }
      var i, l := GapLen(bits, b, len);
      if l == 0 { return b; }
      SkipBits(m, size, first, len, b, i);
      b := i + 1;
    }
    return 0;
  }

  /** Highest clear bit of a byte that is not full. */
  method TopClearBit(b: bv8) returns (k: nat)
    requires b != 0xff
    ensures k < 8 && !BitSet(b, k) && forall j :: k < j < 8 ==> BitSet(b, j)
  {
    FullByte(b);
    k := 7;
    while BitSet(b, k)
      invariant k < 8 && forall j :: k < j < 8 ==> BitSet(b, j)
      decreases k
    {
      if k == 0 { assert false; }
      k := k - 1;
    }
  }

  /** The bits of one byte of the map. */
  lemma BitsOfByte(bits: seq<bv8>, i: nat, j: nat)
    requires i < |bits| && 8 * i <= j < 8 * (i + 1)
    ensures j / 8 == i && Get(bits, j) == BitSet(bits[i], j - 8 * i)
  {
    assert j % 8 == j - 8 * i;
  }

  lemma FullByteOfMap(bits: seq<bv8>, i: nat)
    requires i < |bits|
    ensures bits[i] == 0xff <==> forall j :: 8 * i <= j < 8 * (i + 1) ==> Get(bits, j)
  {
    FullByte(bits[i]);
    if forall j :: 8 * i <= j < 8 * (i + 1) ==> Get(bits, j) {
      forall k | 0 <= k < 8 ensures BitSet(bits[i], k) {
        BitsOfByte(bits, i, 8 * i + k);
      }
    }
  }

  /** The scan of mem_page_alloc: the highest clear bit, or 0. */
  method SeekTop(bits: array<bv8>) returns (page: nat)
    requires bits.Length > 0
    ensures page < 8 * bits.Length
    ensures page != 0 ==> !Get(bits[..], page)
    ensures forall j :: page < j < 8 * bits.Length ==> Get(bits[..], j)
  {
    var i := bits.Length - 1;
    while i >= 0
      invariant -1 <= i < bits.Length
      invariant forall j :: 8 * (i + 1) <= j < 8 * bits.Length ==> Get(bits[..], j)
    {
      if bits[i] != 0xff {
        var k := TopClearBit(bits[i]);
        page := k + 8 * i;
        forall j | page <= j < 8 * (i + 1) ensures Get(bits[..], j) == BitSet(bits[i], j - 8 * i) {
          BitsOfByte(bits[..], i, j);
        }
        return;
      }
      FullByte(bits[i]);
      forall j | 8 * i <= j < 8 * (i + 1) ensures Get(bits[..], j) {
        BitsOfByte(bits[..], i, j);
      }
      i := i - 1;
    }
    return 0;
  }
}
