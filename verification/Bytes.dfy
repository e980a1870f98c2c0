/** Bytes, 16-bit words and 32-bit numbers as the C sources see them. */
module Bytes {

  type Byte = x: int | 0 <= x < 0x100
  type Word = x: int | 0 <= x < 0x1_0000

  const TWO32: int := 0x1_0000_0000

  /** Big-endian value of a four byte sequence number. */
  function Be32(s: seq<Byte>): (n: int)
    requires |s| == 4
    ensures 0 <= n < TWO32
  {
    0x100_0000 * (s[0] as int) + 0x1_0000 * (s[1] as int) + 0x100 * (s[2] as int) + s[3] as int
  }

  function ToBe32(n: int): (s: seq<Byte>)
    requires 0 <= n < TWO32
    ensures |s| == 4 && Be32(s) == n
  {
    var n2 := n / 0x100;
    var n1 := n2 / 0x100;
    [n1 / 0x100, n1 % 0x100, n2 % 0x100, n % 0x100]
  }

  /** Comparing four bytes is comparing the numbers they stand for. */
  lemma Be32Injective(s: seq<Byte>, t: seq<Byte>)
    requires |s| == 4 && |t| == 4
    ensures Be32(s) == Be32(t) <==> s == t
  {
    if Be32(s) == Be32(t) {
      var a, b := 0x100 * (s[0] as int) + s[1], 0x100 * (t[0] as int) + t[1];
      LastDigit(0x100 * a + s[2], s[3], 0x100 * b + t[2], t[3]);
      LastDigit(a, s[2], b, t[2]);
      LastDigit(s[0], s[1], t[0], t[1]);
    }
  }

  lemma LastDigit(a: int, x: Byte, b: int, y: Byte)
    requires 0x100 * a + x == 0x100 * b + y
    ensures a == b && x == y
  {
  }

  function Lo(w: Word): Byte { w % 0x100 }

  function Hi(w: Word): Byte { w / 0x100 }

  /** HTONS on a little-endian host: swap the two bytes. */
  function Swap16(w: Word): (r: Word)
    ensures Lo(r) == Hi(w) && Hi(r) == Lo(w)
  {
    0x100 * (Lo(w) as int) + Hi(w) as int
  }
}
