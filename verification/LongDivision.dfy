/**
 32-bit division built from 16-bit registers (arch/i86/bcc/__ldivmod.c).

 Registers are variables of type Word, the carry flag is a variable of its own and every instruction
 that leaves a carry behind is a function. A register pair hi:lo holds the 32-bit number Long(hi, lo).
 Jumps have become loops; the two loops keep the names they have in the assembler text.
 */
module LongDivision {
  import opened Bytes

  const TWO31: int := 0x8000_0000

  /** The number held by a register pair. */
  function Long(hi: Word, lo: Word): (n: int)
    ensures 0 <= n < TWO32
  {
    hi * 0x1_0000 + lo
  }

  /** The two's complement reading of a 32-bit number. */
  function Signed(n: int): (s: int)
    requires 0 <= n < TWO32
    ensures -TWO31 <= s < TWO31 && s % TWO32 == n
  {
    if n < TWO31 then n else n - TWO32
  }

  // ----- Instructions: result and carry -----

  function Neg(x: Word): (Word, int) { (if x == 0 then 0 else 0x1_0000 - x, if x == 0 then 0 else 1) }

  function Sub(x: Word, y: Word, carry: int): (Word, int)
    requires 0 <= carry <= 1
  {
    var d := x - y - carry;
    if d < 0 then (d + 0x1_0000, 1) else (d, 0)
  }

  function Add(x: Word, y: Word, carry: int): (Word, int)
    requires 0 <= carry <= 1
  {
    var s := x + y + carry;
    if s >= 0x1_0000 then (s - 0x1_0000, 1) else (s, 0)
  }

  /** Shift left through the carry: shl when the carry in is 0, rcl otherwise. */
  function Rcl(x: Word, carry: int): (Word, int)
    requires 0 <= carry <= 1
  {
    Add(x, x, carry)
  }

  /** Shift right through the carry: shr when the carry in is 0, rcr otherwise. */
  function Rcr(x: Word, carry: int): (Word, int)
    requires 0 <= carry <= 1
  {
    (x / 2 + carry * 0x8000, x % 2)
  }

  function Not(x: Word): Word { 0xffff - x }

  /** Does the sign byte with this value make "js" jump? */
  predicate Minus(signByte: int) { signByte >= 0x80 }

  // ----- The quotient and remainder that are promised -----

  /** Quotient rounded towards negative infinity. */
  function FloorDiv(a: int, b: int): int
    requires b != 0
  {
    if b > 0 then a / b else (-a) / (-b)
  }

  /** Remainder with the sign of the divisor. */
  function FloorMod(a: int, b: int): int
    requires b != 0
  {
    if b > 0 then a % b else -((-a) % (-b))
  }

  /** The header's requirement on r: the sign of b and a smaller absolute value. */
  ghost predicate RemainderOf(r: int, b: int) {
    (b > 0 ==> 0 <= r < b) && (b < 0 ==> b < r <= 0)
  }

  /** Over the integers the requirements have exactly one solution, the floor quotient and its remainder. */
  lemma FloorIsUnique(a: int, b: int, q: int, r: int)
    requires b != 0
    ensures a == b * q + r && RemainderOf(r, b) <==> q == FloorDiv(a, b) && r == FloorMod(a, b)
  {
    FloorIsSolution(a, b);
    if a == b * q + r && RemainderOf(r, b) {
      var f := FloorDiv(a, b);
      assert b * (q - f) == FloorMod(a, b) - r;
      Grows(b, q - f);
    }
  }

  /** A product with a non-zero factor is at least as far from 0 as the other factor. */
  lemma Grows(b: int, n: int)
    ensures n >= 1 && b > 0 ==> b * n >= b && b * n >= n
    ensures n >= 1 && b < 0 ==> b * n <= b
    ensures n <= -1 && b > 0 ==> b * n <= -b && b * n <= n
    ensures n <= -1 && b < 0 ==> b * n >= -b
  {
    if n >= 1 && b > 0 {
      assert b * n == b + b * (n - 1) && b * n == n + n * (b - 1);
    } else if n >= 1 && b < 0 {
      assert b * n == b + b * (n - 1);
    } else if n <= -1 && b > 0 {
      assert b * n == -b + b * (n + 1) && b * n == n + n * (b - 1);
    } else if n <= -1 && b < 0 {
      assert b * n == -b + b * (n + 1);
    }
  }

  lemma FloorIsSolution(a: int, b: int)
    requires b != 0
    ensures a == b * FloorDiv(a, b) + FloorMod(a, b) && RemainderOf(FloorMod(a, b), b)
  {
    if b < 0 {
      var q := (-a) / (-b);
      assert -a == (-b) * q + (-a) % (-b);
    }
  }

  // ----- The header's own wording -----

  /** The requirements as the header has them, with the equation only modulo 2^32. */
  ghost predicate Meets(a: int, b: int, q: int, r: int) {
    0 <= q < TWO32 && RemainderOf(r, b) && a == (b * q + r) % TWO32
  }

  ghost predicate Determined(a: int, b: int) {
    forall q, r, q', r' :: Meets(a, b, q, r) && Meets(a, b, q', r') ==> q == q' && r == r'
  }

  /** Dividing a or a + 2^32 gives two solutions. */
  lemma TwoSolutions(a: int, b: int) returns (q: int, r: int, q': int, r': int)
    requires 0 <= a < TWO32 && 2 <= b < TWO32
    ensures Meets(a, b, q, r) && Meets(a, b, q', r') && q < q'
  {
    q, r, q', r' := a / b, a % b, (a + TWO32) / b, (a + TWO32) % b;
    SolvesOnce(a, a, b);
    SolvesOnce(a, a + TWO32, b);
    assert b * (q' - q) == b * q' - b * q;
    Grows(b, q' - q);
  }

  lemma SolvesOnce(a: int, n: int, b: int)
    requires 0 <= a < TWO32 && 2 <= b < TWO32 && (n == a || n == a + TWO32)
    ensures Meets(a, b, n / b, n % b) && n == b * (n / b) + n % b && 0 <= n % b < b
  {
    var q := n / b;
    QuotientNotNegative(n, b);
    AtLeastTwice(b, q);
    WrapsOnce(a, n);
  }

  lemma QuotientNotNegative(n: int, b: int)
    requires n >= 0 && b >= 1
    ensures n / b >= 0
  {
  }

  lemma WrapsOnce(a: int, n: int)
    requires 0 <= a < TWO32 && (n == a || n == a + TWO32)
    ensures n % TWO32 == a
  {
  }

  lemma AtLeastTwice(b: int, n: int)
    requires b >= 2 && n >= 0
    ensures b * n >= 2 * n
  {
    assert b * n == 2 * n + (b - 2) * n;
  }

  /** Negating divisor, remainder and dividend. */
  lemma MeetsNegated(a: int, b: int, q: int, r: int)
    requires 0 <= a < TWO32
    ensures Meets(a, b, q, r) <==> Meets((-a) % TWO32, -b, q, -r)
  {
    assert (-b) * q + -r == -(b * q + r);
    NegatedModulo(a, b * q + r);
  }

  lemma NegatedModulo(a: int, n: int)
    requires 0 <= a < TWO32
    ensures a == n % TWO32 <==> (-a) % TWO32 == (-n) % TWO32
  {
    var k, m := n / TWO32, (-n) / TWO32;
    assert n == TWO32 * k + n % TWO32 && -n == TWO32 * m + (-n) % TWO32;
  }

  lemma NegativeHasTwo(a: int, b: int)
    requires 0 <= a < TWO32 && -TWO32 < b <= -2
    ensures !Determined(a, b)
  {
    var q, r, q', r' := TwoSolutions((-a) % TWO32, -b);
    MeetsNegated(a, b, q, -r);
    MeetsNegated(a, b, q', -r');
  }

  lemma UnitHasOne(a: int, b: int, q: int, r: int)
    requires b == 1 || b == -1
    ensures Meets(a, b, q, r) ==> r == 0 && q == (b * a) % TWO32
  {
    if Meets(a, b, q, r) {
      NegatedModulo(a, b * q);
    }
  }

  /** The header's requirements determine quotient and remainder exactly for the divisors 1 and -1. */
  lemma ModularRequirementIsAmbiguous(a: int, b: int)
    requires 0 <= a < TWO32 && b != 0 && -TWO32 < b < TWO32
    ensures Determined(a, b) <==> b == 1 || b == -1
  {
    if b >= 2 {
      var q, r, q', r' := TwoSolutions(a, b);
    } else if b <= -2 {
      NegativeHasTwo(a, b);
    } else {
      forall q, r, q', r' | Meets(a, b, q, r) && Meets(a, b, q', r') ensures q == q' && r == r' {
        UnitHasOne(a, b, q, r);
        UnitHasOne(a, b, q', r');
      }
    }
  }

  // ----- Register pair arithmetic -----

  /** neg hi; neg lo; sbb hi,0 */
  method NegatePair(hi: Word, lo: Word) returns (hi': Word, lo': Word)
    ensures Holds(Long(hi', lo'), -Long(hi, lo))
  {
    var (low, carry) := Neg(lo);
    lo' := low;
    hi' := Sub(Neg(hi).0, 0, carry).0;
  }

  /** shl lo; rcl hi */
  method ShiftLeftPair(hi: Word, lo: Word) returns (hi': Word, lo': Word, carry: int)
    ensures 0 <= carry <= 1 && 2 * Long(hi, lo) == carry * TWO32 + Long(hi', lo')
  {
    var (low, c) := Rcl(lo, 0);
    var (high, c') := Rcl(hi, c);
    hi', lo', carry := high, low, c';
  }

  /** rcr hi; rcr lo with the given carry in */
  method ShiftRightPair(hi: Word, lo: Word, carry: int) returns (hi': Word, lo': Word)
    requires 0 <= carry <= 1
    ensures Long(hi', lo') == (carry * TWO32 + Long(hi, lo)) / 2
  {
    var (high, c) := Rcr(hi, carry);
    hi', lo' := high, Rcr(lo, c).0;
  }

  /** sub lo,lo2; sbb hi,hi2 */
  method SubtractPair(hi: Word, lo: Word, hi2: Word, lo2: Word) returns (hi': Word, lo': Word)
    ensures Holds(Long(hi', lo'), Long(hi, lo) - Long(hi2, lo2))
  {
    var (low, c) := Sub(lo, lo2, 0);
    hi', lo' := Sub(hi, hi2, c).0, low;
  }

  /** b shifted left k times, without any bound on the width. */
  ghost function Shifted(b: int, k: nat): int {
    if k == 0 then b else 2 * Shifted(b, k - 1)
  }

  lemma {:induction false} ShiftedGrows(b: int, k: nat)
    requires b >= 1
    ensures Shifted(b, k) >= b + k
  {
    if k != 0 { ShiftedGrows(b, k - 1); }
  }

  lemma {:induction false} ShiftedMonotone(b: int, j: nat, k: nat)
    requires b >= 1 && j <= k
    ensures Shifted(b, j) <= Shifted(b, k)
  {
    ShiftedGrows(b, k);
    if j < k { ShiftedGrows(b, k - 1); ShiftedMonotone(b, j, k - 1); }
  }

  /** The greatest doubling of b that does not exceed r. */
  ghost predicate GreatestDoubling(b: int, k: nat, r: int) {
    Shifted(b, k) <= r < Shifted(b, k + 1)
  }

  lemma GreatestDoublingIsGreatest(b: int, k: nat, r: int, j: nat)
    requires b >= 1 && GreatestDoubling(b, k, r)
    ensures Shifted(b, j) <= r <==> j <= k
  {
    if j <= k { ShiftedMonotone(b, j, k); } else { ShiftedMonotone(b, k + 1, j); }
  }

  /** loop1: double w while it stays at or below r; a carry means that w has passed r. */
  method Loop1(bx: Word, ax: Word, bhi: Word, blo: Word) returns (si: Word, dx: Word, ghost k: nat)
    requires 1 <= Long(bhi, blo) <= Long(bx, ax)
    ensures Long(si, dx) == Shifted(Long(bhi, blo), k)
    ensures GreatestDoubling(Long(bhi, blo), k, Long(bx, ax))
  {
    ghost var b := Long(bhi, blo);
    si, dx, k := bhi, blo, 0;
    var carry := 0;
    while true
      invariant Long(si, dx) == Shifted(b, k) <= Long(bx, ax)
      decreases TWO32 - Long(si, dx)
    {
      ShiftedGrows(b, k);
      si, dx, carry := ShiftLeftPair(si, dx);
      if carry == 1 { break; }
      if si < bx { k := k + 1; continue; }
      if si > bx { break; }
      if dx > ax { break; }
      k := k + 1;
    }
    si, dx := ShiftRightPair(si, dx, carry);
  }

  /** The upper half of loop2's body: double q, and if w fits into r take it out and count it. */
  method QuotientBit(qhi: Word, qlo: Word, rhi: Word, rlo: Word, si: Word, dx: Word)
    returns (di: Word, cx: Word, bx: Word, ax: Word)
    requires 2 * Long(qhi, qlo) + (if Long(rhi, rlo) >= Long(si, dx) then 1 else 0) < TWO32
    ensures Long(rhi, rlo) >= Long(si, dx) ==>
      Long(di, cx) == 2 * Long(qhi, qlo) + 1 && Long(bx, ax) == Long(rhi, rlo) - Long(si, dx)
    ensures Long(rhi, rlo) < Long(si, dx) ==> Long(di, cx) == 2 * Long(qhi, qlo) && Long(bx, ax) == Long(rhi, rlo)
  {
    var carry;
    bx, ax := rhi, rlo;
    di, cx, carry := ShiftLeftPair(qhi, qlo);
    if si < bx || (si == bx && dx <= ax) {
      var (low, c) := Add(cx, 1, 0);
      cx, di := low, Add(di, 0, c).0;
      bx, ax := SubtractPair(bx, ax, si, dx);
    }
  }

  /** At the head of loop2: w is b doubled k times and a is accounted for by q * 2w + r. */
  ghost predicate Loop2Head(a: int, b: int, k: nat, q: nat, w: int, r: int) {
    w == Shifted(b, k) && a == Multiple(q, 2 * w) + r && 0 <= r < 2 * w
  }

  lemma Loop2HeadStep(a: int, b: int, k: nat, q: nat, w: int, r: int, q': nat, r': int)
    requires b >= 1 && Loop2Head(a, b, k, q, w, r)
    requires if r >= w then q' == 2 * q + 1 && r' == r - w else q' == 2 * q && r' == r
    ensures w / 2 < b ==> a == Multiple(q', b) + r' && 0 <= r' < b
    ensures w / 2 >= b ==> k >= 1 && Loop2Head(a, b, k - 1, q', w / 2, r')
  {
    BitStep(a, q, w, r, q', r');
    if w / 2 < b { LastShift(b, k, w / 2); } else { HalveShifted(b, k, w / 2); }
  }

  /** loop2: produce one bit of the quotient for each halving of w until w drops below b. */
  method Loop2(rhi: Word, rlo: Word, whi: Word, wlo: Word, bhi: Word, blo: Word, ghost shifts: nat)
    returns (di: Word, cx: Word, bx: Word, ax: Word)
    requires 1 <= Long(bhi, blo)
    requires Long(whi, wlo) == Shifted(Long(bhi, blo), shifts)
    requires Long(rhi, rlo) < 2 * Long(whi, wlo)
    ensures Long(rhi, rlo) == Multiple(Long(di, cx), Long(bhi, blo)) + Long(bx, ax)
    ensures 0 <= Long(bx, ax) < Long(bhi, blo)
  {
    ghost var a, b, k := Long(rhi, rlo), Long(bhi, blo), shifts;
    var si: Word, dx: Word := whi, wlo;
    di, cx, bx, ax := 0, 0, rhi, rlo;
    var more := true;
    while more
      invariant more ==> Loop2Head(a, b, k, Long(di, cx), Long(si, dx), Long(bx, ax))
      invariant !more ==> a == Multiple(Long(di, cx), b) + Long(bx, ax) && Long(bx, ax) < b
      decreases more, k
    {
      ghost var q, w, r := Long(di, cx), Long(si, dx), Long(bx, ax);
      ShiftedGrows(b, k);
      QuotientFits(a, q, w, r);
      di, cx, bx, ax := QuotientBit(di, cx, bx, ax, si, dx);
      si, dx := ShiftRightPair(si, dx, 0);
      Loop2HeadStep(a, b, k, q, w, r, Long(di, cx), Long(bx, ax));
      more := si > bhi || (si == bhi && dx >= blo);
      if more { k := k - 1; }
    }
  }

  /** q * w by repeated addition; it keeps products out of the loop's proof. */
  ghost function Multiple(q: nat, w: int): int {
    if q == 0 then 0 else w + Multiple(q - 1, w)
  }

  lemma {:induction false} MultipleIsProduct(q: nat, w: int)
    ensures Multiple(q, w) == q * w
  {
    if q != 0 {
      MultipleIsProduct(q - 1, w);
      assert q * w == w + (q - 1) * w;
    }
  }

  lemma LastShift(b: int, k: nat, half: int)
    requires b >= 1 && half == Shifted(b, k) / 2 < b
    ensures Shifted(b, k) == b
  {
    if k != 0 { ShiftedGrows(b, k - 1); }
  }

  lemma HalveShifted(b: int, k: nat, half: int)
    requires b >= 1 && half == Shifted(b, k) / 2 >= b
    ensures k >= 1 && half == Shifted(b, k - 1) && 2 * half == Shifted(b, k)
  {
  }

  lemma QuotientFits(a: int, q: int, w: int, r: int)
    requires 0 <= a < TWO32 && 0 <= q && 1 <= w && 0 <= r && a == Multiple(q, 2 * w) + r
    ensures 2 * q <= a && (r >= w ==> 2 * q + 1 <= a)
  {
    MultipleIsProduct(q, 2 * w);
    assert q * (2 * w) == 2 * q + 2 * (q * (w - 1));
    assert q * (w - 1) >= 0;
  }

  lemma BitStep(a: int, q: int, w: int, r: int, q': int, r': int)
    requires q >= 0 && a == Multiple(q, 2 * w) + r
    requires if r >= w then q' == 2 * q + 1 && r' == r - w else q' == 2 * q && r' == r
    ensures a == Multiple(q', w) + r'
  {
    MultipleIsProduct(q, 2 * w);
    MultipleIsProduct(q', w);
  }

  /** From label got_signs to label zdivu: unsigned division, whatever the sign bytes are. */
  method DivideUnsigned(a1: Word, a0: Word, b1: Word, b0: Word, signs: Word)
    returns (di: Word, cx: Word, bx: Word, ax: Word, dx: Word)
    requires Long(b1, b0) != 0
    ensures Long(a1, a0) == Multiple(Long(di, cx), Long(b1, b0)) + Long(bx, ax)
    ensures Long(bx, ax) < Long(b1, b0)
    ensures dx == signs
  {
    di, cx, bx, ax, dx := b1, b0, a1, a0, signs;
    if di == 0 && bx < cx {
      di, cx, bx, ax, dx := DivideByRegister(di, cx, bx, ax, dx);
      return;
    }
    if di > bx || (di == bx && cx > ax) {        // finished if b > r
      di, cx := 0, 0;
      return;
    }
    di, cx, bx, ax := DivideLarge(a1, a0, b1, b0);
  }

  /** divlarge once b <= a: the two shift-and-subtract loops. */
  method DivideLarge(a1: Word, a0: Word, b1: Word, b0: Word) returns (di: Word, cx: Word, bx: Word, ax: Word)
    requires 1 <= Long(b1, b0) <= Long(a1, a0)
    ensures Long(a1, a0) == Multiple(Long(di, cx), Long(b1, b0)) + Long(bx, ax)
    ensures Long(bx, ax) < Long(b1, b0)
  {
    var si: Word, dx: Word;
    ghost var k;
    si, dx, k := Loop1(a1, a0, b1, b0);
    di, cx, bx, ax := Loop2(a1, a0, si, dx, b1, b0, k);
  }

  /** The short way when the divisor and the quotient fit one register; the sign bytes travel along. */
  method DivideByRegister(di0: Word, cx0: Word, bx0: Word, ax0: Word, signs: Word)
    returns (di: Word, cx: Word, bx: Word, ax: Word, dx: Word)
    requires di0 == 0 && bx0 < cx0
    ensures Long(bx0, ax0) == Multiple(Long(di, cx), cx0) + Long(bx, ax) && Long(bx, ax) < cx0
    ensures dx == signs
  {
    di, cx, bx, ax, dx := di0, cx0, bx0, ax0, signs;
    dx, bx := bx, dx;                            // a in dx:ax, signs in bx
    var q, r := DivideRegister(dx, ax, cx);      // div cx
    ax, dx := q, r;
    cx, ax := ax, cx;                            // q in di:cx
    ax, bx := bx, ax;                            // signs in ax
    ax, dx := dx, ax;                            // r in ax, signs back in dx
    bx := di;                                    // r in bx:ax
  }

  /** The processor's own 32 by 16 division; it would trap if the quotient did not fit a register. */
  method DivideRegister(hi: Word, lo: Word, b: Word) returns (q: Word, r: Word)
    requires hi < b
    ensures Long(hi, lo) == Multiple(q, b) + r && r < b
  {
    RegisterQuotient(Long(hi, lo), b, Long(hi, lo) / b, Long(hi, lo) % b);
    q, r := Long(hi, lo) / b, Long(hi, lo) % b;
  }

  lemma RegisterQuotient(d: int, b: int, q: int, r: int)
    requires 0 <= d < 0x1_0000 * b && b >= 1 && q == d / b && r == d % b
    ensures 0 <= q < 0x1_0000 && 0 <= r < b && d == Multiple(q, b) + r
  {
    FloorIsUnique(d, b, q, r);
    assert b * (q - 0xffff) == b * q - 0xffff * b;
    Grows(b, q - 0xffff);
    Grows(b, q);
    MultipleIsProduct(q, b);
  }

  /** The two registers hold x, which may lie one wrap-around below their range. */
  ghost predicate Holds(n: int, x: int) {
    n == x || n == x + TWO32
  }

  lemma HoldsIsModulo(n: int, x: int)
    requires 0 <= n < TWO32 && Holds(n, x)
    ensures n == x % TWO32
  {
  }

  /** The signed quotient that belongs to the magnitudes' quotient q and remainder r. */
  function SignedQuotient(aMinus: bool, bMinus: bool, q: int, r: int): int {
    if aMinus == bMinus then q else if r == 0 then -q else -1 - q
  }

  function SignedRemainder(aMinus: bool, bMinus: bool, b: int, r: int): int {
    if aMinus == bMinus then if aMinus then -r else r
    else if r == 0 then 0
    else if aMinus then b - r else r - b
  }

  /** These are the floor quotient and remainder of the signed operands. */
  lemma SignedSolution(a: int, b: int, q: int, r: int, aMinus: bool, bMinus: bool)
    requires q >= 0 && b >= 1 && a == Multiple(q, b) + r && 0 <= r < b
    ensures SignedQuotient(aMinus, bMinus, q, r) ==
            FloorDiv(if aMinus then -a else a, if bMinus then -b else b)
    ensures SignedRemainder(aMinus, bMinus, b, r) ==
            FloorMod(if aMinus then -a else a, if bMinus then -b else b)
  {
    MultipleIsProduct(q, b);
    var x, y := if aMinus then -a else a, if bMinus then -b else b;
    SolutionsByProduct(a, b, q, r);
    FloorIsUnique(x, y, SignedQuotient(aMinus, bMinus, q, r), SignedRemainder(aMinus, bMinus, b, r));
  }

  lemma SolutionsByProduct(a: int, b: int, q: int, r: int)
    requires a == q * b + r
    ensures a == b * q + r
    ensures -a == b * (-q) + (-r) && -a == b * (-1 - q) + (b - r)
    ensures -a == (-b) * q + (-r)
    ensures a == (-b) * (-q) + r && a == (-b) * (-1 - q) + (r - b)
  {
  }

  /**
   The tail shared by both entries: divide magnitudes, then restore the signs recorded in dh and dl.
   The ghost results are the quotient and remainder of the magnitudes.
   */
  method SignAdjusted(a1: Word, a0: Word, b1: Word, b0: Word, dh: int, dl: int)
    returns (di: Word, cx: Word, bx: Word, ax: Word, ghost q: int, ghost r: int)
    requires 0 <= dh < 0x100 && 0 <= dl < 0x100
    ensures Long(b1, b0) == 0 ==> Long(di, cx) == 0 && r == Long(a1, a0)
    ensures Long(b1, b0) == 0 ==> Holds(Long(bx, ax), if Minus(dl) then -r else r)
    ensures Long(b1, b0) != 0 ==> q >= 0 && Long(a1, a0) == Multiple(q, Long(b1, b0)) + r && 0 <= r < Long(b1, b0)
    ensures Long(b1, b0) != 0 ==> Holds(Long(di, cx), SignedQuotient(Minus(dl), Minus(dh), q, r))
    ensures Long(b1, b0) != 0 ==> Holds(Long(bx, ax), SignedRemainder(Minus(dl), Minus(dh), Long(b1, b0), r))
  {
    if b1 == 0 && b0 == 0 {                      // divzero: q = 0 and r = a
      di, cx, bx, ax, q, r := b1, b0, a1, a0, 0, Long(a1, a0);
      if Minus(dl) { bx, ax := NegatePair(bx, ax); }
      return;
    }
    var dx;
    di, cx, bx, ax, dx := DivideUnsigned(a1, a0, b1, b0, dh * 0x100 + dl);
    q, r := Long(di, cx), Long(bx, ax);
    if !Minus(dx / 0x100) {
      if !Minus(dx % 0x100) { return; }          // a and b both plus
      if ax == 0 && bx == 0 {                    // use if r = 0
        di, cx := NegatePair(di, cx);
        return;
      }
      bx, ax := SubtractPair(bx, ax, b1, b0);
      cx, di := Not(cx), Not(di);
      bx, ax := NegatePair(bx, ax);
    } else if Minus(dx % 0x100) {
      bx, ax := NegatePair(bx, ax);              // a and b both minus
    } else if ax == 0 && bx == 0 {
      di, cx := NegatePair(di, cx);
    } else {
      bx, ax := SubtractPair(bx, ax, b1, b0);
      cx, di := Not(cx), Not(di);
    }
  }

  /** ludivmod: unsigned quotient and remainder; a zero divisor gives q = 0 and r = a. */
  method Ludivmod(a1: Word, a0: Word, b1: Word, b0: Word) returns (di: Word, cx: Word, bx: Word, ax: Word)
    ensures Long(b1, b0) == 0 ==> Long(di, cx) == 0 && Long(bx, ax) == Long(a1, a0)
    ensures Long(b1, b0) != 0 ==> Long(di, cx) == FloorDiv(Long(a1, a0), Long(b1, b0))
    ensures Long(b1, b0) != 0 ==> Long(bx, ax) == FloorMod(Long(a1, a0), Long(b1, b0))
  {
    ghost var q, r;
    di, cx, bx, ax, q, r := SignAdjusted(a1, a0, b1, b0, 0, 0);
    if Long(b1, b0) != 0 { SignedSolution(Long(a1, a0), Long(b1, b0), q, r, false, false); }
  }

  /**
   ldivmod: signed division. The remainder is exactly the floor remainder; the quotient is the floor
   quotient modulo 2^32, and as a signed number it is the floor quotient for all inputs but -2^31 / -1.
   */
  method Ldivmod(a1: Word, a0: Word, b1: Word, b0: Word) returns (di: Word, cx: Word, bx: Word, ax: Word)
    ensures Long(b1, b0) == 0 ==> Long(di, cx) == 0 && Long(bx, ax) == Long(a1, a0)
    ensures Long(b1, b0) != 0 ==>
      var a, b := Signed(Long(a1, a0)), Signed(Long(b1, b0));
      && Signed(Long(bx, ax)) == FloorMod(a, b)
      && Long(di, cx) == FloorDiv(a, b) % TWO32
      && (Signed(Long(di, cx)) == FloorDiv(a, b) <==> !(a == -TWO31 && b == -1))
  {
    var ah, al, am := StripSign(a1, a0);
    var bh, bl, bm := StripSign(b1, b0);
    ghost var q, r;
    di, cx, bx, ax, q, r := SignAdjusted(ah, al, bh, bl, bm, am);
    if Long(b1, b0) != 0 {
      SignedResult(Long(a1, a0), Long(b1, b0), q, r, Long(di, cx), Long(bx, ax));
    }
  }

  /** Record the sign byte of a register pair and make the pair its magnitude. */
  method StripSign(hi: Word, lo: Word) returns (hi': Word, lo': Word, signByte: int)
    ensures 0 <= signByte < 0x100 && (Minus(signByte) <==> Signed(Long(hi, lo)) < 0)
    ensures Long(hi', lo') == Magnitude(Long(hi, lo))
  {
    hi', lo', signByte := hi, lo, hi / 0x100;
    if Minus(signByte) { hi', lo' := NegatePair(hi', lo'); }
  }

  function Magnitude(n: int): (m: int)
    requires 0 <= n < TWO32
    ensures 0 <= m <= TWO31
  {
    if Signed(n) < 0 then -Signed(n) else Signed(n)
  }

  lemma SignedResult(a: int, b: int, q: int, r: int, quotient: int, remainder: int)
    requires 0 <= a < TWO32 && 0 < b < TWO32 && 0 <= quotient < TWO32 && 0 <= remainder < TWO32
    requires q >= 0 && 0 <= r < Magnitude(b) && Magnitude(a) == Multiple(q, Magnitude(b)) + r
    requires Holds(quotient, SignedQuotient(Signed(a) < 0, Signed(b) < 0, q, r))
    requires Holds(remainder, SignedRemainder(Signed(a) < 0, Signed(b) < 0, Magnitude(b), r))
    ensures Signed(remainder) == FloorMod(Signed(a), Signed(b))
    ensures quotient == FloorDiv(Signed(a), Signed(b)) % TWO32
    ensures Signed(quotient) == FloorDiv(Signed(a), Signed(b)) <==> !(Signed(a) == -TWO31 && Signed(b) == -1)
  {
    SignedSolution(Magnitude(a), Magnitude(b), q, r, Signed(a) < 0, Signed(b) < 0);
    QuotientRange(Magnitude(a), Magnitude(b), q, r);
    HoldsIsModulo(quotient, FloorDiv(Signed(a), Signed(b)));
  }

  lemma QuotientRange(a: int, b: int, q: nat, r: int)
    requires b >= 1 && a == Multiple(q, b) + r && 0 <= r < b
    ensures q <= a && (b >= 2 ==> 2 * q <= a) && (b == 1 ==> q == a)
  {
    MultipleIsProduct(q, b);
    assert b >= 2 ==> q * b == 2 * q + q * (b - 2) && q * (b - 2) >= 0;
  }
}
