/**
 The Internet checksum and the byte-wise 32-bit addition of uIP (arch/unix/uip_arch.c).

 All shipped configurations are little-endian: a 16-bit load from a byte buffer takes the first byte as
 the low one. The checksum of a buffer is compared with Fold of the unbounded sum of its words, which
 is the one's complement sum of RFC 1071, sections 1 and 2.
 */
module Checksum {
  import opened Bytes

  // ----- uip_add32 -----

  /** ++ on an unsigned byte. */
  function Increment(b: Byte): Byte {
    if b == 0xff then 0 else b + 1
  }

  /** ++ on a number of 16 bits. */
  function Increment16(n: Word): Word {
    if n == 0xffff then 0 else n + 1
  }

  /** The first two bytes. */
  function Top(a: seq<Byte>): Word
    requires |a| == 4
  {
    0x100 * (a[0] as int) + a[1] as int
  }

  /** A carry into byte 1 of acc32. */
  method CarryToTop(acc32: array<Byte>)
    requires acc32.Length == 4
    modifies acc32
    ensures Top(acc32[..]) == Increment16(old(Top(acc32[..]))) && acc32[2] == old(acc32[2]) && acc32[3] == old(acc32[3])
  {
    acc32[1] := Increment(acc32[1]);
    if acc32[1] == 0 {
      acc32[0] := Increment(acc32[0]);
    }
  }

  /** The first carry, out of byte 2 after hi has been added to it. */
  method CarryHigh(acc32: array<Byte>, hi: Byte, ghost was: Byte)
    requires acc32.Length == 4 && acc32[2] == (was + hi) % 0x100
    modifies acc32
    ensures acc32[2] == old(acc32[2]) && acc32[3] == old(acc32[3])
    ensures Top(acc32[..]) == if was + hi >= 0x100 then Increment16(old(Top(acc32[..]))) else old(Top(acc32[..]))
  {
    CarryShows(was, hi);
    if acc32[2] < hi { CarryToTop(acc32); }
  }

  /** The second one, out of byte 3 after lo has been added to it. */
  method CarryLow(acc32: array<Byte>, lo: Byte, ghost was: Byte)
    requires acc32.Length == 4 && acc32[3] == (was + lo) % 0x100
    modifies acc32
    ensures acc32[3] == old(acc32[3])
    ensures acc32[2] == if was + lo >= 0x100 then Increment(old(acc32[2])) else old(acc32[2])
    ensures Top(acc32[..]) ==
      if was + lo >= 0x100 && acc32[2] == 0 then Increment16(old(Top(acc32[..]))) else old(Top(acc32[..]))
  {
    CarryShows(was, lo);
    if acc32[3] < lo {
      acc32[2] := Increment(acc32[2]);
      if acc32[2] == 0 { CarryToTop(acc32); }
    }
  }

  /** Add a 16-bit number to a big-endian 32-bit number; the result is left in acc32. */
  method Add32(op32: array<Byte>, op16: Word, acc32: array<Byte>)
    requires op32.Length == 4 && acc32.Length == 4
    modifies acc32
    ensures Be32(acc32[..]) == (Be32(old(op32[..])) + op16) % TWO32
  {
    ghost var o := op32[..];
    var lo, hi := Lo(op16), Hi(op16);
    acc32[3] := (op32[3] as int + lo) % 0x100;
    acc32[2] := (op32[2] as int + hi) % 0x100;
    acc32[1] := op32[1];
    acc32[0] := op32[0];
    ghost var m2 := acc32[2];
    assert Top(acc32[..]) == Top(o);
    CarryHigh(acc32, hi, o[2]);
    ghost var t1 := Top(acc32[..]);
    CarryLow(acc32, lo, o[3]);
    CarryShows(o[2], hi);
    CarryShows(o[3], lo);
    CarriesAdd(Top(o), o[2], o[3], hi, lo, t1, m2, Top(acc32[..]), acc32[2], acc32[3]);
    InParts(o, op16, acc32[..]);
  }

  lemma InParts(o: seq<Byte>, n: Word, r: seq<Byte>)
    requires |o| == |r| == 4
    requires var sum, sum' := Parts(Top(o), o[2] + Hi(n), o[3] + Lo(n)), Parts(Top(r), r[2], r[3]);
      sum' == sum || sum' == sum - TWO32
    ensures Be32(r) == (Be32(o) + n) % TWO32
  {
    assert n == 0x100 * (Hi(n) as int) + Lo(n);
    WrapsOnce(Be32(r), Be32(o) + n);
  }

  function Parts(top: int, b2: int, b3: int): int { 0x1_0000 * top + 0x100 * b2 + b3 }

  /** A sum of bytes has overflowed exactly if it is smaller than a summand. */
  lemma CarryShows(a: Byte, b: Byte)
    ensures (a + b) % 0x100 == if a + b >= 0x100 then a + b - 0x100 else a + b
    ensures (a + b) % 0x100 < b <==> a + b >= 0x100
  {
  }

  /** Low byte, high byte and top half with their carries. */
  lemma CarriesAdd(t0: Word, o2: Byte, o3: Byte, hi: Byte, lo: Byte, t1: Word, m2: Byte, t2: Word, r2: Byte, r3: Byte)
    requires var c := o2 + hi >= 0x100;
      m2 as int == o2 + hi - (if c then 0x100 else 0) && t1 == if c then Increment16(t0) else t0
    requires var c := o3 + lo >= 0x100;
      && r3 as int == o3 + lo - (if c then 0x100 else 0) && r2 == (if c then Increment(m2) else m2)
      && t2 == if c && r2 == 0 then Increment16(t1) else t1
    ensures var sum, sum' := Parts(t0, o2 + hi, o3 + lo), Parts(t2, r2, r3); sum' == sum || sum' == sum - TWO32
  {
  }

  lemma WrapsOnce(r: int, n: int)
    requires 0 <= r < TWO32 && 0 <= n < TWO32 + 0x1_0000
    requires r == n || r == n - TWO32
    ensures r == n % TWO32
  {
  }

  // ----- One's complement sums -----

  /** One's complement addition: the carry out of the top bit is added at the bottom. */
  function OnesAdd(a: Word, b: Word): Word {
    if a + b >= 0x1_0000 then a + b - 0xffff else a + b
  }

  /** The one's complement representative of an unbounded sum: 0 for 0 only, otherwise within 1..65535. */
  function Fold(n: nat): (w: Word)
    ensures w == 0 <==> n == 0
    ensures (n - w) % 0xffff == 0
  {
    if n == 0 then 0 else 1 + (n - 1) % 0xffff
  }

  lemma FoldUnique(n: nat, w: Word)
    requires (w == 0 <==> n == 0) && (n - w) % 0xffff == 0
    ensures w == Fold(n)
  {
  }

  lemma FoldStep(n: nat, b: Word)
    ensures Fold(n + b) == OnesAdd(Fold(n), b)
  {
    FoldUnique(n + b, OnesAdd(Fold(n), b));
  }

  lemma FoldSum(n: nat, m: nat)
    ensures Fold(n + m) == OnesAdd(Fold(n), Fold(m))
  {
    FoldStep(n, Fold(m));
    FoldUnique(n + m, Fold(n + Fold(m)));
  }

  /** A sum is accepted (folds to 0xffff) exactly when it is a positive multiple of 65535. */
  lemma FoldAccepts(n: nat)
    ensures Fold(n) == 0xffff <==> n > 0 && n % 0xffff == 0
  {
  }

  /** Completing a non-zero sum with the complement of its fold makes it acceptable. */
  lemma ComplementAccepts(n: nat)
    requires n > 0
    ensures Fold(n + (0xffff - Fold(n))) == 0xffff
  {
  }

  /** A 16-bit load at the start of a buffer; a single last byte is the low byte of its word. */
  function LoadWord(data: seq<Byte>): (w: Word)
    requires data != []
  {
    if |data| == 1 then data[0] else data[0] as int + 0x100 * (data[1] as int)
  }

  function NextWords(data: seq<Byte>): (rest: seq<Byte>)
    requires data != []
    ensures |rest| < |data|
  {
    if |data| == 1 then [] else data[2..]
  }

  /** The unbounded sum of the little-endian words of a buffer. */
  function WordSum(data: seq<Byte>): nat
    decreases |data|
  {
    if data == [] then 0 else LoadWord(data) + WordSum(NextWords(data))
  }

  /** The same with the first byte of each word as the high one, as a big-endian host would add. */
  function WordSumBe(data: seq<Byte>): nat
    decreases |data|
  {
    if data == [] then 0 else Swap16(LoadWord(data)) + WordSumBe(NextWords(data))
  }

  lemma {:induction false} WordSumZero(data: seq<Byte>)
    ensures WordSum(data) == 0 <==> forall i :: 0 <= i < |data| ==> data[i] == 0
  {
    if |data| >= 2 {
      WordSumZero(data[2..]);
      assert forall i :: 2 <= i < |data| ==> data[i] == data[2..][i - 2];
    }
  }

  lemma {:induction false} WordSumAppend(a: seq<Byte>, b: seq<Byte>)
    requires |a| % 2 == 0
    ensures WordSum(a + b) == WordSum(a) + WordSum(b)
  {
    if a == [] {
      assert a + b == b;
    } else {
      assert (a + b)[2..] == a[2..] + b;
      WordSumAppend(a[2..], b);
    }
  }

  /** Replacing the word at an even offset changes the sum by the difference of the two words. */
  lemma WordSumUpdate(data: seq<Byte>, k: nat, lo: Byte, hi: Byte)
    requires k % 2 == 0 && k + 1 < |data|
    ensures WordSum(data[k := lo][k + 1 := hi]) ==
            WordSum(data) - (data[k] as int + 0x100 * (data[k + 1] as int)) + (lo as int + 0x100 * (hi as int))
  {
    var left, right := data[..k], data[k + 2..];
    assert data == left + ([data[k], data[k + 1]] + right);
    assert data[k := lo][k + 1 := hi] == left + ([lo, hi] + right);
    WordSumAppend(left, [data[k], data[k + 1]] + right);
    WordSumAppend(left, [lo, hi] + right);
    WordSumCons(data[k], data[k + 1], right);
    WordSumCons(lo, hi, right);
  }

  lemma WordSumCons(lo: Byte, hi: Byte, rest: seq<Byte>)
    ensures WordSum([lo, hi] + rest) == lo as int + 0x100 * (hi as int) + WordSum(rest)
  {
    assert NextWords([lo, hi] + rest) == rest;
  }

  /** The idiom "if((sum += w) < w) ++sum" on 16-bit numbers. */
  method AddWithCarry(sum: Word, w: Word) returns (r: Word)
    ensures r == OnesAdd(sum, w)
  {
    var total := sum + w;
    r := total % 0x1_0000;
    if r < w {
      r := r + 1;
    }
  }

  /** uip_chksum: the one's complement sum of the words of a buffer, an odd last byte included. */
  method Chksum(sdata: seq<Byte>) returns (acc: Word)
    ensures acc == Fold(WordSum(sdata))
  {
    var i, len := 0, |sdata|;
    acc := 0;
    while len > 1
      invariant 0 <= i && 0 <= len && i + len == |sdata| && Even(i)
      invariant acc == Fold(WordSum(sdata[..i]))
    {
      ChksumStep(sdata, i, 2);
      acc := AddWithCarry(acc, LoadWord(sdata[i..]));
      i, len := i + 2, len - 2;
    }
    if len == 1 {
      ChksumStep(sdata, i, 1);
      acc := AddWithCarry(acc, Swap16((sdata[i] as int) * 0x100));
    }
    assert sdata[..i + len] == sdata;
  }

  predicate Even(i: int) { i % 2 == 0 }

  /** Adding the word at offset i, or the single byte left there, extends the checksum of the prefix. */
  lemma ChksumStep(s: seq<Byte>, i: nat, len: nat)
    requires Even(i) && i + len <= |s| && (len == 2 || (len == 1 && i + 1 == |s|))
    ensures Fold(WordSum(s[..i + len])) == OnesAdd(Fold(WordSum(s[..i])), LoadWord(s[i..]))
    ensures Even(i + 2)
  {
    var tail := s[i..i + len];
    assert s[..i + len] == s[..i] + tail;
    WordSumAppend(s[..i], tail);
    assert NextWords(tail) == [];
    FoldStep(WordSum(s[..i]), LoadWord(tail));
  }

  /** The checksum vanishes only for a buffer of zeros (RFC 1071 arithmetic never yields +0 otherwise). */
  lemma ChksumZero(data: seq<Byte>)
    ensures Fold(WordSum(data)) == 0 <==> forall i :: 0 <= i < |data| ==> data[i] == 0
  {
    WordSumZero(data);
  }

  /** The checksum is congruent to the sum of all words modulo 65535. */
  lemma ChksumCongruent(data: seq<Byte>)
    ensures Fold(WordSum(data)) % 0xffff == WordSum(data) % 0xffff
  {
    Congruent(WordSum(data), Fold(WordSum(data)));
  }

  lemma Congruent(n: nat, m: nat)
    requires (n - m) % 0xffff == 0
    ensures n % 0xffff == m % 0xffff
  {
  }

  /** Byte order independence: adding in the other byte order gives the byte-swapped checksum. */
  lemma ByteOrderIndependent(data: seq<Byte>)
    ensures Fold(WordSumBe(data)) == Swap16(Fold(WordSum(data)))
  {
    var n, m := WordSum(data), WordSumBe(data);
    var f: int := Fold(n);
    var s: int := Swap16(f);
    var k := SwapCongruent(data);
    var j := (n - f) / 0xffff;
    assert n - f == 0xffff * j;
    assert s == 0x100 * f - 0xffff * (f / 0x100);
    Multiple(m - s, k + 0x100 * j + f / 0x100);
    FoldUnique(m, s);
  }

  lemma Multiple(n: int, k: int)
    requires n == 0xffff * k
    ensures n % 0xffff == 0
  {
  }

  /** 256 times the little-endian sum is congruent to the big-endian sum, and both are zero together. */
  lemma {:induction false} SwapCongruent(data: seq<Byte>) returns (k: int)
    ensures WordSumBe(data) - 0x100 * WordSum(data) == 0xffff * k
    ensures WordSumBe(data) == 0 <==> WordSum(data) == 0
    decreases |data|
  {
    k := 0;
    if data != [] {
      k := SwapCongruent(NextWords(data));
      var w: int := LoadWord(data);
      assert Swap16(w) as int - 0x100 * w == -0xffff * (w / 0x100);
      k := k - w / 0x100;
    }
  }
}
