/** What floating-point numbers stand for (IEEE 754, section 3.4), and that a float32 is
    sent as the float64 of the same value. */
module Floats {
  import opened Bytes
  import opened Rencodeplus

  function Pow2(n: nat): (p: nat)
    ensures p >= 1
  {
    if n == 0 then 1 else 2 * Pow2(n - 1)
  }

  lemma {:induction false} Pow2Sum(a: nat, b: nat)
    ensures Pow2(a + b) == Pow2(a) * Pow2(b)
  {
    if a == 0 {
    } else {
      Pow2Sum(a - 1, b);
      assert Pow2(a + b) == 2 * Pow2(a - 1 + b);
      Reorder(2, Pow2(a - 1), Pow2(b));
    }
  }

  lemma Reorder(a: nat, b: nat, c: nat)
    ensures a * (b * c) == (a * b) * c
  {
  }

  /** A number: finite ones as a count of the smallest step of a float64, which is 2 to the
      power of -1074. */
  datatype Number = NotANumber(negative: bool, payload: nat) | Infinite(negative: bool) | Finite(negative: bool, steps: nat)

  /** The number with these fields, of which the fraction has `bits` bits, the exponent is
      at most `top`, and the smallest number is 2 to the power of `scale` steps. The payload
      of a NaN is counted without its first bit, which only says that it is quiet. */
  function NumberOf(negative: bool, exponent: nat, fraction: nat, bits: nat, top: nat, scale: nat): Number
    requires 0 < bits <= 52
  {
    if exponent == top then
      if fraction == 0 then Infinite(negative) else NotANumber(negative, (fraction % Pow2(bits - 1)) * Pow2(52 - bits))
    else
      Finite(negative, (if exponent == 0 then fraction else (Pow2(bits) + fraction) * Pow2(exponent - 1)) * Pow2(scale))
  }

  function Number32(b: Bits32): Number {
    Pow256Values();
    var u := FromBigEndian(b);
    NumberOf(u / 0x8000_0000 == 1, u / 0x80_0000 % 0x100, u % 0x80_0000, 23, 0xff, 925)
  }

  function Number64(b: Bits64): Number {
    Pow256Values();
    var u := FromBigEndian(b);
    NumberOf(u / 0x8000_0000_0000_0000 == 1, u / 0x10_0000_0000_0000 % 0x800, u % 0x10_0000_0000_0000, 52, 0x7ff, 0)
  }

  // ---- widening ----------------------------------------------------------------

  lemma Pow2Values()
    ensures Pow2(22) == 0x40_0000 && Pow2(23) == 0x80_0000 && Pow2(29) == 0x2000_0000
    ensures Pow2(51) == 0x8_0000_0000_0000 && Pow2(52) == 0x10_0000_0000_0000
  {
    Pow2Ten(0);
    Pow2Ten(10);
    Pow2Ten(20);
    Pow2Ten(30);
    Pow2Ten(40);
    assert Pow2(22) == 2 * Pow2(21) && Pow2(21) == 2 * Pow2(20) && Pow2(23) == 2 * Pow2(22);
    assert Pow2(30) == 2 * Pow2(29);
    assert Pow2(51) == 2 * Pow2(50) && Pow2(52) == 2 * Pow2(51);
  }

  lemma Pow2Ten(n: nat)
    ensures Pow2(n + 10) == 0x400 * Pow2(n)
  {
    assert Pow2(n + 2) == 4 * Pow2(n);
    assert Pow2(n + 4) == 4 * Pow2(n + 2);
    assert Pow2(n + 6) == 4 * Pow2(n + 4);
    assert Pow2(n + 8) == 4 * Pow2(n + 6);
    assert Pow2(n + 10) == 4 * Pow2(n + 8);
  }

  /** The doublings of a subnormal fraction bring it to where a normal one starts. */
  lemma {:induction false} Doublings(m: nat, steps: nat)
    requires m < 0x80_0000
    ensures var (f, left) := Normalise(m, steps);
      left <= steps && (left > 0 || m * Pow2(steps) >= 0x80_0000 ==> 0x80_0000 + f == m * Pow2(steps - left))
    decreases steps
  {
    if steps == 0 {
    } else if 2 * m >= 0x80_0000 {
      assert Pow2(1) == 2 * Pow2(0);
    } else {
      Doublings(2 * m, steps - 1);
      var left := Normalise(m, steps).1;
      Reorder(m, 2, Pow2(steps - 1));
      if steps - left >= 1 {
        Reorder(m, 2, Pow2(steps - 1 - left));
      }
    }
  }

  /** The fields of a float64 put together are found again. */
  lemma Fields64(sign: nat, e: nat, f: nat)
    requires sign <= 1 && e < 0x800 && f < 0x80_0000
    ensures var u := sign * 0x8000_0000_0000_0000 + e * 0x10_0000_0000_0000 + f * 0x2000_0000;
      && u < 0x1_0000_0000_0000_0000 && u / 0x8000_0000_0000_0000 == sign
      && u / 0x10_0000_0000_0000 % 0x800 == e && u % 0x10_0000_0000_0000 == f * 0x2000_0000
  {
  }

  /** Products of powers that agree in all. */
  lemma Regroup(x: nat, a: nat, b: nat, c: nat, d: nat)
    requires a + b == c + d
    ensures (x * Pow2(a)) * Pow2(b) == (x * Pow2(c)) * Pow2(d)
  {
    hide Pow2;
    Pow2Sum(a, b);
    Pow2Sum(c, d);
    Reorder(x, Pow2(a), Pow2(b));
    Reorder(x, Pow2(c), Pow2(d));
  }

  /** Numbers with the fields that Widen gives a float64, in the four cases it tells
      apart. */
  lemma SameSpecial(negative: bool, m: nat)
    requires m < 0x80_0000
    ensures var f := if m == 0 then 0 else if m < 0x40_0000 then m + 0x40_0000 else m;
      NumberOf(negative, 0x7ff, f * 0x2000_0000, 52, 0x7ff, 0) == NumberOf(negative, 0xff, m, 23, 0xff, 925)
  {
    Pow2Values();
    hide Pow2;
    assert Pow2(0) == 1 by { PowZero(); }
  }

  lemma SameZero(negative: bool)
    ensures NumberOf(negative, 0, 0, 52, 0x7ff, 0) == NumberOf(negative, 0, 0, 23, 0xff, 925)
  {
  }

  lemma PowZero()
    ensures Pow2(0) == 1
  {
  }

  lemma SameNormal(negative: bool, e: nat, m: nat)
    requires m < 0x80_0000 && 0 < e < 0xff
    ensures NumberOf(negative, e + 0x380, m * 0x2000_0000, 52, 0x7ff, 0) == NumberOf(negative, e, m, 23, 0xff, 925)
  {
    Pow2Values();
    PowZero();
    hide Pow2;
    assert Pow2(52) + m * 0x2000_0000 == (Pow2(23) + m) * Pow2(29);
    Regroup(Pow2(23) + m, 29, e + 0x37f, e - 1, 925);
  }

  lemma SubnormalSteps(m: nat, f: nat, k: nat)
    requires k <= 23 && Pow2(23) + f == m * Pow2(k)
    ensures ((Pow2(52) + f * 0x2000_0000) * Pow2(0x380 - k)) * Pow2(0) == m * Pow2(925)
  {
    Pow2Values();
    PowZero();
    hide Pow2;
    assert Pow2(52) + f * 0x2000_0000 == (Pow2(23) + f) * Pow2(29);
    Regroup(Pow2(23) + f, 29, 0x380 - k, 925 - k, 0);
    Regroup(m, k, 925 - k, 0, 925);
  }

  lemma FiniteNumbers(negative: bool, e: nat, f: nat, m: nat)
    requires 0 < e < 0x7ff
    ensures NumberOf(negative, e, f, 52, 0x7ff, 0) == Finite(negative, ((Pow2(52) + f) * Pow2(e - 1)) * Pow2(0))
    ensures NumberOf(negative, 0, m, 23, 0xff, 925) == Finite(negative, m * Pow2(925))
  {
    hide Pow2;
  }

  lemma SameSubnormal(negative: bool, m: nat)
    requires 0 < m < 0x80_0000
    ensures var (f, left) := Normalise(m, 23);
      NumberOf(negative, 0x381 - (23 - left), f * 0x2000_0000, 52, 0x7ff, 0) == NumberOf(negative, 0, m, 23, 0xff, 925)
  {
    Pow2Values();
    hide NumberOf, Normalise, Pow2;
    Doublings(m, 23);
    var (f, left) := Normalise(m, 23);
    assert m * Pow2(23) >= 0x80_0000;
    SubnormalSteps(m, f, 23 - left);
    FiniteNumbers(negative, 0x381 - (23 - left), f * 0x2000_0000, m);
  }

  lemma Halves(u: nat)
    requires u < 0x1_0000_0000
    ensures u / 0x8000_0000 <= 1
  {
  }

  lemma WidenFields(b: Bits32, e: nat, f: nat)
    requires e < 0x800 && f < 0x80_0000
    requires Pow256(4) == 0x1_0000_0000 && Pow256(8) == 0x1_0000_0000_0000_0000
    requires Widen(b) == BigEndian(FromBigEndian(b) / 0x8000_0000 * 0x8000_0000_0000_0000 + e * 0x10_0000_0000_0000 + f * 0x2000_0000, 8)
    ensures Number64(Widen(b)) == NumberOf(FromBigEndian(b) / 0x8000_0000 == 1, e, f * 0x2000_0000, 52, 0x7ff, 0)
  {
    hide BigEndian, FromBigEndian, Widen, NumberOf;
    var sign := FromBigEndian(b) / 0x8000_0000;
    Halves(FromBigEndian(b));
    Fields64(sign, e, f);
    BigEndianRoundTrip(sign * 0x8000_0000_0000_0000 + e * 0x10_0000_0000_0000 + f * 0x2000_0000, 8);
  }

  /** A float32 and the float64 it is widened to are the same number: finite ones of either
      sign, zeros and subnormals included, infinities, and NaNs with their payload. */
  lemma WidenExact(b: Bits32)
    ensures Number64(Widen(b)) == Number32(b)
  {
    Pow256Values();
    var u := FromBigEndian(b);
    var negative, e, m := u / 0x8000_0000 == 1, u / 0x80_0000 % 0x100, u % 0x80_0000;
    hide BigEndian, FromBigEndian, Pow256, Normalise, NumberOf, Number64;
    if e == 0xff {
      WidenFields(b, 0x7ff, if m == 0 then 0 else if m < 0x40_0000 then m + 0x40_0000 else m);
      SameSpecial(negative, m);
    } else if e != 0 {
      WidenFields(b, e + 0x380, m);
      SameNormal(negative, e, m);
    } else if m == 0 {
      WidenFields(b, 0, 0);
      SameZero(negative);
    } else {
      WidenFields(b, 0x381 - (23 - Normalise(m, 23).1), Normalise(m, 23).0);
      SameSubnormal(negative, m);
    }
  }

  lemma TopBit(w: nat)
    requires w % 0x10_0000_0000_0000 >= 0x8_0000_0000_0000
    ensures w / 0x8_0000_0000_0000 % 2 == 1
  {
  }

  lemma WidenedNaN(b: Bits32, f: nat)
    requires Number32(b).NotANumber?
    requires var m := FromBigEndian(b) % 0x80_0000; f == if m < 0x40_0000 then m + 0x40_0000 else m
    ensures FromBigEndian(b) / 0x8000_0000 <= 1 && 0x40_0000 <= f < 0x80_0000
    ensures var w := FromBigEndian(b) / 0x8000_0000 * 0x8000_0000_0000_0000 + 0x7ff * 0x10_0000_0000_0000 + f * 0x2000_0000;
      w < Pow256(8) && Widen(b) == BigEndian(w, 8)
  {
    Pow256Values();
    Halves(FromBigEndian(b));
    hide BigEndian, FromBigEndian, Pow256, Normalise, Pow2;
  }

  /** A NaN becomes a quiet one. */
  lemma QuietNaN(b: Bits32)
    requires Number32(b).NotANumber?
    ensures FromBigEndian(Widen(b)) / 0x8_0000_0000_0000 % 2 == 1
  {
    var m := FromBigEndian(b) % 0x80_0000;
    var f := if m < 0x40_0000 then m + 0x40_0000 else m;
    WidenedNaN(b, f);
    hide *;
    var sign := FromBigEndian(b) / 0x8000_0000;
    var w := sign * 0x8000_0000_0000_0000 + 0x7ff * 0x10_0000_0000_0000 + f * 0x2000_0000;
    Fields64(sign, 0x7ff, f);
    BigEndianRoundTrip(w, 8);
    TopBit(w);
  }
}
