/**
 Conversion of numbers to half precision (IEEE 754 binary16) and back.

 Magnitudes are real numbers: scaling by a power of two, splitting off the exponent and rounding to
 an integer, all that the code does, are exact on binary64 numbers.
 */
module Float16 {

  datatype Number = NaN | Infinity(negative: bool) | Finite(negative: bool, magnitude: real)

  predicate WellFormed(f: Number) {
    f.Finite? ==> f.magnitude >= 0.0
  }

  function Pow2(n: int): (r: real)
    ensures r > 0.0
    decreases if n < 0 then -n else n
  {
    if n == 0 then 1.0 else if n > 0 then 2.0 * Pow2(n - 1) else Pow2(n + 1) / 2.0
  }

  lemma Doubles(n: int)
    ensures Pow2(n + 1) == 2.0 * Pow2(n)
  {
  }

  /** The nearest integer, the even one of two. */
  function RoundToEven(x: real): (r: nat)
    requires x >= 0.0
  {
    var n := x.Floor;
    var d := x - n as real;
    if d < 0.5 then n else if d > 0.5 then n + 1 else if n % 2 == 0 then n else n + 1
  }

  lemma Rounds(x: real)
    requires x >= 0.0
    ensures var m := RoundToEven(x); m as real - 0.5 <= x <= m as real + 0.5
    ensures var m := RoundToEven(x); (x == m as real - 0.5 || x == m as real + 0.5) ==> m % 2 == 0
  {
  }

  lemma RoundsWithin(x: real, low: nat, high: nat)
    requires low as real <= x < high as real
    ensures low <= RoundToEven(x) <= high
  {
  }

  /** The exponent `e` for which the number is at least half of and less than two to the `e`. */
  function Exponent(a: real, e: int): (r: int)
    requires e <= 16 && Pow2(e - 1) <= a < Pow2(16)
    ensures e <= r <= 16 && Pow2(r - 1) <= a < Pow2(r)
    decreases 16 - e
  {
    if a < Pow2(e) then e else Exponent(a, e + 1)
  }

  function SignBit(f: Number): nat {
    if !f.NaN? && f.negative then 0x8000 else 0
  }

  /** The digits of a number with exponent `e`, in units of the last place. */
  function Digits(a: real, e: int): nat
    requires a >= 0.0
  {
    RoundToEven(a / Pow2(e) * 2048.0)
  }

  /** The digits of a subnormal number, in units of the last place. */
  function SmallDigits(a: real): nat
    requires a >= 0.0
  {
    RoundToEven(a * Pow2(24))
  }

  /** The bits of the magnitude of a finite number; the fields they are put together from do not overlap. */
  function MagnitudeBits(a: real): nat
    requires a >= 0.0
  {
    if a >= 65520.0 then 0x7c00
    else if a < Pow2(-14) then SmallDigits(a)
    else
      BelowSixteen(a);
      var e := Exponent(a, -13);
      var m := Digits(a, e);
      Packed(a, e);
      var (mantissa, exponent) := if m == 2048 then (1024, e + 1) else (m, e);
      (exponent + 14) * 1024 + (mantissa - 1024)
  }

  lemma BelowSixteen(a: real)
    requires a < 65520.0
    ensures a < Pow2(16)
  {
    Sixteen();
  }

  function ToFloat16(f: Number): nat
    requires WellFormed(f)
  {
    match f
    case NaN => 0x7e00
    case Infinity(_) => SignBit(f) + 0x7c00
    case Finite(_, a) => SignBit(f) + MagnitudeBits(a)
  }

  function Magnitude(b: nat): (r: real) {
    var exp, m := b / 1024, (b % 1024) as real;
    if exp == 0 then m * Pow2(-24) else (1024.0 + m) * Pow2(exp - 25)
  }

  function FromFloat16(b: nat): (f: Number)
    requires b < 0x1_0000
  {
    var negative, magnitude := b >= 0x8000, b % 0x8000;
    if magnitude > 0x7c00 then NaN
    else if magnitude == 0x7c00 then Infinity(negative)
    else Finite(negative, Magnitude(magnitude))
  }

  // ---------------------------------------------------------------------------------------

  lemma Sixteen()
    ensures Pow2(16) == 65536.0
  {
    assert Pow2(4) == 16.0;
    assert Pow2(8) == 256.0;
    assert Pow2(12) == 4096.0;
  }

  /** What `Exponent` splits off leaves a number between 1024 and 2048 in units of the last place. */
  lemma Packed(a: real, e: int)
    requires Pow2(e - 1) <= a < Pow2(e)
    ensures 1024 <= Digits(a, e) <= 2048
  {
    Doubles(e - 1);
    hide Pow2, RoundToEven;
    HalfToOne(a, Pow2(e));
    RoundsWithin(a / Pow2(e) * 2048.0, 1024, 2048);
  }

  lemma HalfToOne(a: real, p: real)
    requires 0.0 < p && p <= 2.0 * a < 2.0 * p
    ensures 0.5 <= a / p < 1.0
  {
    var q := a / p;
    assert q * p == a;
    if q >= 1.0 { Times(1.0, q, p); }
    if q < 0.5 { TimesLess(q, 0.5, p); }
  }

  lemma Times(x: real, y: real, u: real)
    requires x <= y && u >= 0.0
    ensures x * u <= y * u
  {
    assert y * u - x * u == (y - x) * u;
  }

  lemma TimesLess(x: real, y: real, u: real)
    requires x < y && u > 0.0
    ensures x * u < y * u
  {
    assert y * u - x * u == (y - x) * u;
  }

  // ---------------------------------------------------------------------------------------
  // The numbers there are, in order

  /** The distance from a number to the next. */
  function Unit(b: nat): (u: real)
    ensures u > 0.0
  {
    if b / 1024 == 0 then Pow2(-24) else Pow2(b / 1024 - 25)
  }

  lemma NextNumber(b: nat)
    ensures Magnitude(b + 1) == Magnitude(b) + Unit(b)
  {
    if b % 1024 == 1023 {
      assert (b + 1) / 1024 == b / 1024 + 1 && (b + 1) % 1024 == 0;
      Doubles(b / 1024 - 25);
    } else {
      assert (b + 1) / 1024 == b / 1024 && (b + 1) % 1024 == b % 1024 + 1;
    }
  }

  lemma {:induction false} Increasing(b: nat, c: nat)
    requires b < c
    ensures Magnitude(b + 1) <= Magnitude(c)
    decreases c
  {
    hide Magnitude, Unit;
    if b + 1 < c {
      Increasing(b, c - 1);
      NextNumber(c - 1);
    }
  }

  function Distance(a: real, b: nat): (d: real)
    ensures d >= 0.0
  {
    if a >= Magnitude(b) then a - Magnitude(b) else Magnitude(b) - a
  }

  /** Between its neighbours, a number is the nearest, and another is as near only from half way. */
  lemma NearestOf(a: real, r: nat, u: real, b: nat)
    requires u > 0.0 && b != r
    requires a < Magnitude(r) ==> r > 0 && Unit(r - 1) == u && Magnitude(r) - a <= u / 2.0
    requires a > Magnitude(r) ==> Unit(r) == u && a - Magnitude(r) <= u / 2.0
    ensures Distance(a, r) <= Distance(a, b)
    ensures Distance(a, r) == Distance(a, b) ==> Distance(a, r) == u / 2.0
  {
    hide Magnitude, Unit;
    if b < r {
      Increasing(b, r);
      NextNumber(r - 1);
      if b < r - 1 { Increasing(b, r - 1); }
      NextNumber(b);
    } else {
      Increasing(r, b);
      NextNumber(r);
    }
  }

  // ---------------------------------------------------------------------------------------
  // Rounding

  function Units(n: real, u: real): real {
    n * u
  }

  lemma UnitsMinus(x: real, y: real, u: real)
    ensures Units(y, u) - Units(x, u) == Units(y - x, u)
  {
  }

  lemma UnitsSign(d: real, u: real)
    requires u > 0.0
    ensures d > 0.0 ==> Units(d, u) > 0.0
    ensures d <= 0.0 ==> Units(d, u) <= 0.0
  {
  }

  lemma UnitsOrder(x: real, y: real, u: real)
    requires u > 0.0
    ensures x < y <==> Units(x, u) < Units(y, u)
  {
    hide Units;
    UnitsMinus(x, y, u);
    UnitsSign(y - x, u);
  }

  lemma UnitsDouble(n: real, u: real)
    ensures Units(n, 2.0 * u) == Units(2.0 * n, u)
  {
  }

  lemma Halves(n: real, u: real)
    ensures Units(n - 0.5, u) == Units(n, u) - u / 2.0 && Units(n + 0.5, u) == Units(n, u) + u / 2.0
  {
  }

  /** Rounding `x` units to a whole number `m` of them is off by half a unit at most. */
  lemma RoundedUnits(x: real, u: real, m: nat)
    requires x >= 0.0 && u > 0.0 && m == RoundToEven(x)
    ensures Units(m as real, u) - u / 2.0 <= Units(x, u) <= Units(m as real, u) + u / 2.0
    ensures Units(x, u) == Units(m as real, u) - u / 2.0 || Units(x, u) == Units(m as real, u) + u / 2.0 ==> m % 2 == 0
  {
    Rounds(x);
    hide RoundToEven, Units;
    var n := m as real;
    Halves(n, u);
    UnitsOrder(n - 0.5, x, u);
    UnitsOrder(x, n - 0.5, u);
    UnitsOrder(x, n + 0.5, u);
    UnitsOrder(n + 0.5, x, u);
  }

  /** The bits are within half a unit, and even if half a unit away; neighbours on that side are a unit away. */
  ghost predicate Near(a: real, r: nat, u: real) {
    && u > 0.0 && Magnitude(r) - u / 2.0 <= a <= Magnitude(r) + u / 2.0
    && (a == Magnitude(r) - u / 2.0 || a == Magnitude(r) + u / 2.0 ==> r % 2 == 0)
    && (a > Magnitude(r) ==> Unit(r) == u) && (a < Magnitude(r) ==> r > 0 && Unit(r - 1) == u)
  }

  /** Then they are the nearest there are, and even where there are two. */
  lemma NearIsNearest(a: real, r: nat, u: real, b: nat)
    requires Near(a, r, u) && b != r
    ensures Distance(a, r) <= Distance(a, b) && (Distance(a, r) == Distance(a, b) ==> r % 2 == 0)
  {
    hide Magnitude, Unit;
    NearestOf(a, r, u, b);
  }

  lemma Eleven(e: int)
    ensures Pow2(e) == 2048.0 * Pow2(e - 11)
  {
    Doubles(e - 1); Doubles(e - 2); Doubles(e - 3); Doubles(e - 4); Doubles(e - 5); Doubles(e - 6);
    Doubles(e - 7); Doubles(e - 8); Doubles(e - 9); Doubles(e - 10); Doubles(e - 11);
    hide Pow2;
  }

  lemma NormalBits(a: real)
    requires Pow2(-14) <= a < 65520.0 && a < Pow2(16)
    ensures var e := Exponent(a, -13);
      && 1024 <= Digits(a, e) <= 2048
      && MagnitudeBits(a) == (e + 14) * 1024 + (Digits(a, e) - 1024)
  {
    hide Digits, Exponent, Pow2;
    Packed(a, Exponent(a, -13));
  }

  lemma NormalIsNear(a: real)
    requires Pow2(-14) <= a < 65520.0 && a < Pow2(16)
    ensures Near(a, MagnitudeBits(a), Pow2(Exponent(a, -13) - 11))
  {
    hide MagnitudeBits, Pow2, Magnitude, Unit, Units, Digits, Exponent;
    var e := Exponent(a, -13);
    NormalBits(a);
    DigitsAreNear(a, e);
    UnitsOf(e, Digits(a, e), MagnitudeBits(a));
  }

  lemma DigitsAreNear(a: real, e: int)
    requires Pow2(e - 1) <= a < Pow2(e)
    ensures var m, u := Digits(a, e), Pow2(e - 11);
      && Units(m as real, u) - u / 2.0 <= a <= Units(m as real, u) + u / 2.0
      && (a == Units(m as real, u) - u / 2.0 || a == Units(m as real, u) + u / 2.0 ==> m % 2 == 0)
      && Units(1024.0, u) <= a < Units(2048.0, u)
  {
    Eleven(e);
    Doubles(e - 1);
    hide Pow2, RoundToEven;
    var p, u := Pow2(e), Pow2(e - 11);
    HalfToOne(a, p);
    Scaled(a, p, u);
    RoundedUnits(a / p * 2048.0, u, Digits(a, e));
  }

  lemma Scaled(a: real, p: real, u: real)
    requires u > 0.0 && p == 2048.0 * u
    ensures a == Units(a / p * 2048.0, u)
  {
    var q := a / p;
    assert q * p == a;
    assert q * p == (q * 2048.0) * u;
  }

  lemma Field(q: nat, t: nat)
    requires t < 1024
    ensures (q * 1024 + t) / 1024 == q && (q * 1024 + t) % 1024 == t
  {
  }

  lemma MagnitudeIs(q: nat, t: nat)
    requires q > 0 && t < 1024
    ensures Magnitude(q * 1024 + t) == Units(1024.0 + t as real, Pow2(q - 25)) && Unit(q * 1024 + t) == Pow2(q - 25)
  {
    Field(q, t);
    hide Pow2;
  }

  lemma Parity(q: nat, m: nat)
    requires m >= 1024
    ensures (q * 1024 + (m - 1024)) % 2 == m % 2
  {
    assert q * 1024 + (m - 1024) == 2 * (q * 512 - 512) + m;
  }

  lemma UnitsOf(e: int, m: nat, r: nat)
    requires e >= -13 && 1024 <= m <= 2048 && r == (e + 14) * 1024 + (m - 1024)
    ensures Magnitude(r) == Units(m as real, Pow2(e - 11)) && r % 2 == m % 2
    ensures m < 2048 ==> Unit(r) == Pow2(e - 11)
    ensures m > 1024 ==> r > 0 && Unit(r - 1) == Pow2(e - 11)
  {
    Doubles(e - 11);
    hide Pow2, Magnitude, Unit, Units;
    Parity(e + 14, m);
    if m < 2048 {
      MagnitudeIs(e + 14, m - 1024);
      assert 1024.0 + (m - 1024) as real == m as real;
    } else {
      MagnitudeIs(e + 15, 0);
      UnitsDouble(1024.0, Pow2(e - 11));
    }
    if m > 1024 { MagnitudeIs(e + 14, m - 1025); }
  }

  lemma SubnormalBits(a: real)
    requires 0.0 <= a < Pow2(-14)
    ensures a * Pow2(24) >= 0.0 && MagnitudeBits(a) == RoundToEven(a * Pow2(24))
  {
    Small();
    hide Pow2, RoundToEven;
    assert a < 65520.0;
  }

  lemma SubnormalIsNear(a: real)
    requires 0.0 <= a < Pow2(-14)
    ensures Near(a, MagnitudeBits(a), Pow2(-24))
  {
    Small();
    hide Pow2, RoundToEven;
    var x, u, r := a * Pow2(24), Pow2(-24), MagnitudeBits(a);
    assert Units(x, u) == a;
    RoundsWithin(x, 0, 1024);
    SubnormalBits(a);
    hide MagnitudeBits;
    SmallMagnitude(r);
    hide Magnitude, Unit, Units;
    RoundedUnits(x, u, r);
  }

  lemma SmallMagnitude(r: nat)
    requires r <= 1024
    ensures Magnitude(r) == Units(r as real, Pow2(-24)) && (r < 1024 ==> Unit(r) == Pow2(-24))
    ensures (r > 0 ==> Unit(r - 1) == Pow2(-24))
  {
    if r == 1024 { Field(1, 0); }
  }

  /** Twenty-four and fourteen places. */
  lemma Small()
    ensures Pow2(24) == 16777216.0 && Pow2(-24) == 1.0 / 16777216.0 && Pow2(-14) == 1.0 / 16384.0
  {
    Sixteen();
    assert Pow2(20) == 1048576.0;
    assert Pow2(-4) == 1.0 / 16.0;
    assert Pow2(-8) == 1.0 / 256.0;
    assert Pow2(-12) == 1.0 / 4096.0;
    assert Pow2(-16) == 1.0 / 65536.0;
    assert Pow2(-20) == 1.0 / 1048576.0;
  }

  // ---------------------------------------------------------------------------------------
  // The conversions

  lemma Largest()
    ensures Magnitude(0x7bff) == 65504.0 && Magnitude(0x7c00) == 65536.0 && Pow2(5) == 32.0
  {
    Field(30, 1023);
    Field(31, 0);
  }

  /** The landmarks of the format: zero, the least numbers below and above the subnormal ones, one and the largest. */
  lemma Landmarks()
    ensures FromFloat16(0) == Finite(false, 0.0) && FromFloat16(0x8000) == Finite(true, 0.0)
    ensures FromFloat16(1) == Finite(false, 1.0 / 16777216.0) && FromFloat16(0x400) == Finite(false, 1.0 / 16384.0)
    ensures FromFloat16(0x3c00) == Finite(false, 1.0) && FromFloat16(0xbc00) == Finite(true, 1.0)
    ensures FromFloat16(0x7bff) == Finite(false, 65504.0) && FromFloat16(0x7c00) == Infinity(false)
  {
    Small();
    Largest();
    Eleven(1);
    Field(15, 0);
  }

  /** What is no finite number stays what it is. */
  lemma SpecialsStay(f: Number)
    requires !f.Finite?
    ensures FromFloat16(ToFloat16(f)) == f
  {
  }

  lemma StaysFinite(a: real)
    requires 0.0 <= a < 65520.0
    ensures MagnitudeBits(a) < 0x7c00
  {
    Sixteen();
    Largest();
    hide Magnitude, RoundToEven, MagnitudeBits, Digits, Exponent, Unit;
    var r := MagnitudeBits(a);
    if a < Pow2(-14) {
      Small();
      SubnormalBits(a);
      hide Pow2;
      RoundsWithin(a * Pow2(24), 0, 1024);
    } else {
      var e := Exponent(a, -13);
      hide Pow2;
      NormalBits(a);
      NormalIsNear(a);
      assert r == 0x7c00 ==> Magnitude(r) == 65536.0;
    }
  }

  /** A number below 65520 becomes the nearest half-precision number, and the even one of two as near. */
  lemma NearestEven(a: real, b: nat)
    requires 0.0 <= a < 65520.0 && b < 0x7c00 && b != MagnitudeBits(a)
    ensures MagnitudeBits(a) < 0x7c00
    ensures Distance(a, MagnitudeBits(a)) <= Distance(a, b)
    ensures Distance(a, MagnitudeBits(a)) == Distance(a, b) ==> MagnitudeBits(a) % 2 == 0
  {
    StaysFinite(a);
    Sixteen();
    hide MagnitudeBits, Distance, Near, Exponent, Pow2;
    if a < Pow2(-14) {
      SubnormalIsNear(a);
      NearIsNearest(a, MagnitudeBits(a), Pow2(-24), b);
    } else {
      NormalIsNear(a);
      NearIsNearest(a, MagnitudeBits(a), Pow2(Exponent(a, -13) - 11), b);
    }
  }

  /** It becomes infinite exactly from half way between the largest number and the next there would be. */
  lemma OverflowsExactly(a: real)
    requires a >= 0.0
    ensures MagnitudeBits(a) == 0x7c00 <==> a >= (Magnitude(0x7bff) + Magnitude(0x7c00)) / 2.0
  {
    Largest();
    if a < 65520.0 { StaysFinite(a); }
    hide Magnitude, Pow2;
  }

  /** Different bits are different numbers. */
  lemma Distinct(b: nat, c: nat)
    requires Magnitude(b) == Magnitude(c)
    ensures b == c
  {
    hide Magnitude, Unit;
    NextNumber(b);
    NextNumber(c);
    if b < c { Increasing(b, c); }
    if c < b { Increasing(c, b); }
  }

  lemma BetweenZeroAndLargest(b: nat)
    requires b < 0x7c00
    ensures 0.0 <= Magnitude(b) <= 65504.0
  {
    Largest();
    Positive(b);
    hide Magnitude, Unit, Pow2;
    if b < 0x7bff {
      Increasing(b, 0x7bff);
      NextNumber(b);
    }
  }

  lemma Positive(b: nat)
    ensures Magnitude(b) >= 0.0
  {
    hide Pow2;
  }

  lemma MagnitudeRoundTrip(b: nat)
    requires b < 0x7c00
    ensures 0.0 <= Magnitude(b) <= 65504.0 && MagnitudeBits(Magnitude(b)) == b
  {
    hide MagnitudeBits, Magnitude, Unit, Pow2;
    BetweenZeroAndLargest(b);
    var a := Magnitude(b);
    if MagnitudeBits(a) != b {
      NearestEven(a, b);
      Distinct(MagnitudeBits(a), b);
    }
  }

  /** Converting to double precision and back gives the same bits, but for those of other NaNs. */
  lemma RoundTrip(b: nat)
    requires b < 0x1_0000
    ensures WellFormed(FromFloat16(b))
    ensures ToFloat16(FromFloat16(b)) == if FromFloat16(b).NaN? then 0x7e00 else b
  {
    hide MagnitudeBits, Magnitude;
    if b % 0x8000 < 0x7c00 { MagnitudeRoundTrip(b % 0x8000); }
  }

  lemma AtMostInfinity(a: real)
    requires a >= 0.0
    ensures MagnitudeBits(a) <= 0x7c00
  {
    if a < 65520.0 {
      StaysFinite(a);
      hide MagnitudeBits;
    }
  }

  /** The sign is kept, also that of zero, and rounding does not depend on it. */
  lemma SignIsKept(f: Number)
    requires WellFormed(f) && !f.NaN?
    ensures var r := ToFloat16(f); r < 0x1_0000 && FromFloat16(r) != NaN && FromFloat16(r).negative == f.negative
    ensures f.Finite? ==> ToFloat16(f) % 0x8000 == MagnitudeBits(f.magnitude)
  {
    hide Magnitude, Pow2, RoundToEven, MagnitudeBits;
    if f.Finite? { AtMostInfinity(f.magnitude); }
  }
}
