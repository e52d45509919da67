/** The CRC unit: a 32-bit shift register with an odd polynomial, fed one word at a time, and the loop
    that feeds it. Every step can be undone, so no single changed word goes unnoticed. */
module Crc {
  const INITIAL: bv32 := 0xFFFF_FFFF
  const TOP: bv32 := 0x8000_0000

  function Double(c: bv32): bv32 {
    c << 1
  }

  function Mix(x: bv32, poly: bv32): bv32 {
    x ^ poly
  }

  /** One shift of the register. */
  function Shift(poly: bv32, c: bv32): bv32 {
    if c & TOP != 0 then Mix(Double(c), poly) else Double(c)
  }

  function Shifts(poly: bv32, c: bv32, n: nat): bv32 {
    if n == 0 then c else Shift(poly, Shifts(poly, c, n - 1))
  }

  /** What a write to the data register does. */
  function Feed(poly: bv32, c: bv32, w: bv32): bv32 {
    Shifts(poly, c ^ w, 32)
  }

  /** The checksum of a list of words, from a given register value. */
  function Fold(poly: bv32, c: bv32, ws: seq<bv32>): bv32 {
    if ws == [] then c else Feed(poly, Fold(poly, c, ws[..|ws| - 1]), ws[|ws| - 1])
  }

  predicate Even(x: bv32) {
    x & 1 == 0
  }

  function Halve(x: bv32): bv32 {
    x >> 1
  }

  function SetTop(x: bv32): bv32 {
    x | TOP
  }

  /** The inverse of a shift: the bit shifted out can be read back from bit 0, because the polynomial is
      odd. */
  function Unshift(poly: bv32, d: bv32): bv32 {
    if Even(d) then Halve(d) else SetTop(Halve(Mix(d, poly)))
  }

  lemma DoubleEven(c: bv32)
    ensures Even(Double(c))
  {
  }

  lemma HalveDouble(c: bv32)
    ensures c & TOP == 0 ==> Halve(Double(c)) == c
    ensures c & TOP != 0 ==> SetTop(Halve(Double(c))) == c
  {
  }

  lemma MixOdd(x: bv32, poly: bv32)
    requires poly & 1 == 1 && Even(x)
    ensures !Even(Mix(x, poly)) && Mix(Mix(x, poly), poly) == x
  {
  }

  lemma ShiftUndone(poly: bv32, c: bv32)
    requires poly & 1 == 1
    ensures Unshift(poly, Shift(poly, c)) == c
  {
    hide Double, Mix, Even, Halve, SetTop;
    DoubleEven(c);
    HalveDouble(c);
    MixOdd(Double(c), poly);
  }

  lemma ShiftInjective(poly: bv32, c: bv32, d: bv32)
    requires poly & 1 == 1 && Shift(poly, c) == Shift(poly, d)
    ensures c == d
  {
    hide Shift, Unshift;
    ShiftUndone(poly, c);
    ShiftUndone(poly, d);
  }

  lemma {:induction false} ShiftsInjective(poly: bv32, c: bv32, d: bv32, n: nat)
    requires poly & 1 == 1 && Shifts(poly, c, n) == Shifts(poly, d, n)
    ensures c == d
  {
    hide Shift;
    if n > 0 {
      ShiftInjective(poly, Shifts(poly, c, n - 1), Shifts(poly, d, n - 1));
      ShiftsInjective(poly, c, d, n - 1);
    }
  }

  /** What the unit computes, by one value: a difference in the lowest bit alone is shifted up bit by bit for 31
      steps, and the 32nd brings the polynomial in. */
  lemma LowestBitGivesPolynomial(poly: bv32, c: bv32)
    ensures Feed(poly, c, c ^ 1) == poly
  {
    hide Shifts, Shift;
    XorBit(c);
    OneShifts(poly);
  }

  lemma XorBit(c: bv32)
    ensures c ^ (c ^ 1) == 1
  {
  }

  lemma OneShifts(poly: bv32)
    ensures Shifts(poly, 1, 32) == poly
  {
    HalfShifts(poly);
    hide Shifts, Shift, Mix;
    FourMore(poly, 16, 0x10000, 0x20000, 0x40000, 0x80000, 0x100000);
    FourMore(poly, 20, 0x100000, 0x200000, 0x400000, 0x800000, 0x1000000);
    FourMore(poly, 24, 0x1000000, 0x2000000, 0x4000000, 0x8000000, 0x10000000);
    FourShifts(poly, 1, 28);
    LastFour(poly);
  }

  lemma HalfShifts(poly: bv32)
    ensures Shifts(poly, 1, 16) == 0x10000
  {
    assert Shifts(poly, 1, 0) == 1;
    hide Shifts, Shift, Mix;
    FourMore(poly, 0, 0x1, 0x2, 0x4, 0x8, 0x10);
    FourMore(poly, 4, 0x10, 0x20, 0x40, 0x80, 0x100);
    FourMore(poly, 8, 0x100, 0x200, 0x400, 0x800, 0x1000);
    FourMore(poly, 12, 0x1000, 0x2000, 0x4000, 0x8000, 0x10000);
  }

  /** Four steps of a word whose top bit stays clear. */
  lemma FourMore(poly: bv32, n: nat, d: bv32, d1: bv32, d2: bv32, d3: bv32, d4: bv32)
    requires Shifts(poly, 1, n) == d && Double(d) == d1 && Double(d1) == d2 && Double(d2) == d3 && Double(d3) == d4
    requires !HasTop(d) && !HasTop(d1) && !HasTop(d2) && !HasTop(d3)
    ensures Shifts(poly, 1, n + 4) == d4
  {
    hide Shifts, Shift, Double, HasTop;
    FourShifts(poly, 1, n);
    ShiftClear(poly, d);
    ShiftClear(poly, d1);
    ShiftClear(poly, d2);
    ShiftClear(poly, d3);
  }

  predicate HasTop(c: bv32) {
    c & TOP != 0
  }

  lemma ShiftClear(poly: bv32, c: bv32)
    requires !HasTop(c)
    ensures Shift(poly, c) == Double(c)
  {
  }

  /** The bit reaches the top in three steps and is replaced by the polynomial in the fourth. */
  lemma LastFour(poly: bv32)
    ensures Shift(poly, Shift(poly, Shift(poly, Shift(poly, 0x1000_0000)))) == poly
  {
    assert Shift(poly, 0x1000_0000) == 0x2000_0000;
    assert Shift(poly, 0x2000_0000) == 0x4000_0000;
    assert Shift(poly, 0x4000_0000) == 0x8000_0000;
    assert Shift(poly, 0x8000_0000) == poly by { TopShifts(poly); }
    hide Shift;
  }

  lemma TopShifts(poly: bv32)
    ensures Shift(poly, 0x8000_0000) == poly
  {
    assert Double(0x8000_0000) == 0;
    hide Double;
    assert 0 ^ poly == poly;
  }

  lemma FourShifts(poly: bv32, c: bv32, n: nat)
    ensures Shifts(poly, c, n + 4) == Shift(poly, Shift(poly, Shift(poly, Shift(poly, Shifts(poly, c, n)))))
  {
    hide Shift;
    assert Shifts(poly, c, n + 2) == Shift(poly, Shifts(poly, c, n + 1));
    assert Shifts(poly, c, n + 3) == Shift(poly, Shifts(poly, c, n + 2));
  }

  lemma XorLeft(c: bv32, w: bv32, x: bv32)
    requires c ^ w == c ^ x
    ensures w == x
  {
  }

  lemma XorRight(c: bv32, d: bv32, w: bv32)
    requires c ^ w == d ^ w
    ensures c == d
  {
  }

  /** A word step is injective in the word. */
  lemma FeedInjectiveWord(poly: bv32, c: bv32, w: bv32, x: bv32)
    requires poly & 1 == 1 && Feed(poly, c, w) == Feed(poly, c, x)
    ensures w == x
  {
    ShiftsInjective(poly, c ^ w, c ^ x, 32);
    XorLeft(c, w, x);
  }

  /** A word step is injective in the register. */
  lemma FeedInjectiveState(poly: bv32, c: bv32, d: bv32, w: bv32)
    requires poly & 1 == 1 && Feed(poly, c, w) == Feed(poly, d, w)
    ensures c == d
  {
    ShiftsInjective(poly, c ^ w, d ^ w, 32);
    XorRight(c, d, w);
  }

  /** Two equally long lists that differ in exactly one word have different checksums. */
  lemma {:induction false} OneWordChanged(poly: bv32, c: bv32, ws: seq<bv32>, xs: seq<bv32>, k: nat)
    requires poly & 1 == 1 && |ws| == |xs| && k < |ws| && ws[k] != xs[k]
    requires forall j :: 0 <= j < |ws| && j != k ==> ws[j] == xs[j]
    ensures Fold(poly, c, ws) != Fold(poly, c, xs)
  {
    hide Feed;
    var last := |ws| - 1;
    if k == last {
      assert ws[..last] == xs[..last];
    } else {
      OneWordChanged(poly, c, ws[..last], xs[..last], k);
    }
    var before, after := Fold(poly, c, ws[..last]), Fold(poly, c, xs[..last]);
    if Fold(poly, c, ws) == Fold(poly, c, xs) {
      if k == last {
        FeedInjectiveWord(poly, before, ws[last], xs[last]);
      } else {
        FeedInjectiveState(poly, before, after, ws[last]);
      }
    }
  }

  class CrcUnit {
    const poly: bv32
    var data: bv32

    constructor (poly: bv32)
      ensures this.poly == poly
    {
      this.poly, data := poly, 0;
    }

    /** A write of RESET to the control register. */
    method Reset()
      modifies this
      ensures data == INITIAL
    {
      data := INITIAL;
    }

    /** A write to the data register. */
    method Write(w: bv32)
      modifies this
      ensures data == Feed(poly, old(data), w)
    {
      data := Feed(poly, data, w);
    }

    /** `ch32_crc`: reset, then feed every word. */
    method Compute(words: seq<bv32>) returns (crc: bv32)
      modifies this
      ensures crc == Fold(poly, INITIAL, words)
    {
      Reset();
      var p := 0;
      while p < |words|
        invariant 0 <= p <= |words| && data == Fold(poly, INITIAL, words[..p])
      {
        Write(words[p]);
        assert words[..p + 1][..p] == words[..p];
        p := p + 1;
      }
      assert words[..|words|] == words;
      return data;
    }
  }
}
