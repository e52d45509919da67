/** Machine words: bytes, unsigned 16- and 32-bit values, little-endian fields and the bitwise
    operations the firmware uses, all over unbounded integers with the widths written out. */
module Words {
  const TWO_32: int := 0x1_0000_0000

  type Byte = x: int | 0 <= x < 256
  type U16 = x: int | 0 <= x < 0x1_0000
  type U32 = x: int | 0 <= x < TWO_32

  /** Unsigned 32-bit wrap-around. */
  function Wrap(x: int): U32 {
    x % TWO_32
  }

  function Min(a: int, b: int): int {
    if a <= b then a else b
  }

  /** Bitwise AND, bit by bit from the least significant one. */
  function And(a: nat, b: nat): (r: nat)
    ensures r <= b
  {
    if a == 0 || b == 0 then 0
    else 2 * And(a / 2, b / 2) + (if a % 2 == 1 && b % 2 == 1 then 1 else 0)
  }

  function Pow2(k: nat): (r: nat)
    ensures r >= 1
  {
    if k == 0 then 1 else 2 * Pow2(k - 1)
  }

  lemma MulBound(d: int, e: int, s: int)
    requires d * e == s && -d < s < d
    ensures s == 0
  {
  }

  lemma ModDouble(y: nat, b: nat, m: nat)
    requires m >= 1 && b < 2
    ensures (2 * y + b) % (2 * m) == 2 * (y % m) + b
  {
    var q, r := y / m, y % m;
    assert y == m * q + r;
    var x, d := 2 * y + b, 2 * m;
    assert x == d * q + (2 * r + b);
    var q', r' := x / d, x % d;
    assert x == d * q' + r';
    MulBound(d, q - q', r' - (2 * r + b));
  }

  lemma ModMod(w: nat)
    ensures w % 0x100 % 0x80 == w % 0x80
  {
    var q, r := w / 0x100, w % 0x100;
    assert w == 0x80 * (2 * q) + r;
    assert r == 0x80 * (r / 0x80) + r % 0x80;
  }

  lemma AndStep(x: nat, m: nat)
    requires m >= 1
    ensures And(x, 2 * m - 1) == 2 * And(x / 2, m - 1) + x % 2
  {
    assert (2 * m - 1) / 2 == m - 1 && (2 * m - 1) % 2 == 1;
  }

  /** Masking with 2^k - 1 is the remainder modulo 2^k. */
  lemma {:induction false} AndMask(x: nat, k: nat)
    ensures And(x, Pow2(k) - 1) == x % Pow2(k)
  {
    if k == 0 {
    } else {
      var m := Pow2(k - 1);
      AndMask(x / 2, k - 1);
      hide And;
      AndStep(x, m);
      ModDouble(x / 2, x % 2, m);
    }
  }

  lemma ModBelowTwice(x: nat, m: nat)
    requires x < 2 * m
    ensures x % m == if x < m then x else x - m
  {
    var q, r := x / m, x % m;
    assert x == m * q + r;
    if x < m {
      MulBound(m, q, x - r);
    } else {
      assert m * (q - 1) == x - m - r;
      MulBound(m, q - 1, x - m - r);
    }
  }

  /** Masking a value below twice a power of two. */
  lemma MaskBelowTwice(x: nat, k: nat)
    requires x < 2 * Pow2(k)
    ensures And(x, Pow2(k) - 1) == if x < Pow2(k) then x else x - Pow2(k)
  {
    AndMask(x, k);
    ModBelowTwice(x, Pow2(k));
    hide And, Pow2;
  }

  lemma Pow2Values()
    ensures Pow2(31) == 0x8000_0000 && Pow2(32) == TWO_32
  {
    assert Pow2(8) == 0x100;
    assert Pow2(16) == 0x1_0000;
    assert Pow2(24) == 0x100_0000;
  }

  /** A power of two that fits in 32 bits is at most 2^31. */
  lemma Pow2Fits(k: nat)
    requires Pow2(k) < TWO_32
    ensures k <= 31 && Pow2(k) <= 0x8000_0000
  {
    Pow2Values();
    hide Pow2;
    if k >= 32 {
      Pow2Monotone(32, k);
    } else {
      Pow2Monotone(k, 31);
    }
  }

  lemma Pow2Monotone(j: nat, k: nat)
    requires j <= k
    ensures Pow2(j) <= Pow2(k)
  {
  }

  lemma AndCommutes(a: nat, b: nat)
    ensures And(a, b) == And(b, a)
  {
  }

  /** An erased cell (all ones) takes any byte as it is. */
  lemma AndErased(b: Byte)
    ensures And(0xFF, b) == b
  {
    assert Pow2(8) == 256 by {
      assert Pow2(4) == 16;
    }
    AndMask(b, 8);
    AndCommutes(b, 0xFF);
  }

  /** The little-endian 16-bit field at offset i. */
  function Le16(s: seq<Byte>, i: nat): U16
    requires i + 2 <= |s|
  {
    var lo: int, hi: int := s[i], s[i + 1];
    lo + 256 * hi
  }

  /** `read_u32`: the little-endian 32-bit value at offset i. */
  function Le32(s: seq<Byte>, i: nat): U32
    requires i + 4 <= |s|
  {
    var b0: int, b1: int, b2: int, b3: int := s[i], s[i + 1], s[i + 2], s[i + 3];
    b0 + 0x100 * b1 + 0x1_0000 * b2 + 0x100_0000 * b3
  }

  /** Low byte first. */
  lemma Le32Value(b0: Byte, b1: Byte, b2: Byte, b3: Byte)
    ensures Le32([b0, b1, b2, b3], 0) == b0 + 256 * b1 + 65536 * b2 + 16777216 * b3
  {
  }

  function Bytes16(v: U16): (s: seq<Byte>)
    ensures |s| == 2 && Le16(s, 0) == v
  {
    [v % 256, v / 256]
  }

  function Bytes32(v: U32): (s: seq<Byte>)
    ensures |s| == 4 && Le32(s, 0) == v
  {
    var q1 := v / 0x100;
    var q2 := q1 / 0x100;
    assert q2 < 0x1_0000;
    [v % 0x100, q1 % 0x100, q2 % 0x100, q2 / 0x100]
  }
}
