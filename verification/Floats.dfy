/**
 IEEE 754 binary16, binary32 and binary64 as bit patterns, the exact conversions between them, and
 the shortest-width float encoding (section 4.2.1 of RFC 8949).

 Every finite magnitude of the three formats is a whole number of units of 2^-1074, the smallest
 binary64 subnormal, so magnitudes are naturals and comparisons are exact.
 */
module Floats {
  import opened ByteStrings

  function Pow2(n: nat): (r: nat)
    ensures r > 0
  {
    if n == 0 then 1 else 2 * Pow2(n - 1)
  }

  lemma {:induction false} Pow2Add(m: nat, n: nat)
    ensures Pow2(m + n) == Pow2(m) * Pow2(n)
  {
    if m > 0 {
      Pow2Add(m - 1, n);
      assert Pow2(m + n) == 2 * Pow2(m - 1 + n);
    }
  }

  /**
   A binary interchange format: `man` is 2 to the number of stored significand bits, `inf` the bits
   of infinity, `sign` the sign bit and `off` the exponent of its smallest subnormal in our unit.
   */
  datatype Format = Format(man: nat, inf: nat, sign: nat, off: nat)

  const F16 := Format(0x400, 0x7C00, 0x8000, 1050)
  const F32 := Format(0x80_0000, 0x7F80_0000, 0x8000_0000, 925)
  const F64 := Format(0x10_0000_0000_0000, 0x7FF0_0000_0000_0000, 0x8000_0000_0000_0000, 0)

  ghost predicate IsFormat(f: Format) { f == F16 || f == F32 || f == F64 }

  function Significand(f: Format, b: nat): nat
    requires f.man > 0
  {
    if b < f.man then b else f.man + b % f.man
  }

  function Exponent(f: Format, b: nat): nat
    requires f.man > 0
  {
    if b < f.man then 0 else b / f.man - 1
  }

  /** Magnitude of the unsigned bit pattern `b`, in units of 2^-1074. */
  function Magnitude(f: Format, b: nat): nat
    requires f.man > 0
  {
    Significand(f, b) * Pow2(f.off + Exponent(f, b))
  }

  /** Neighbouring bit patterns are one unit in the last place apart, across binades too. */
  lemma MagnitudeStep(f: Format, b: nat)
    requires f.man > 0
    ensures Magnitude(f, b + 1) == Magnitude(f, b) + Pow2(f.off + Exponent(f, b))
  {
    var p := Pow2(f.off + Exponent(f, b));
    Distribute(Significand(f, b), p);
    if b + 1 == f.man {
      Quotient(b + 1, f.man, 1, 0);
    } else if b >= f.man {
      NextQuotient(b, f.man);
      Quotient(f.man, f.man, 1, 0);
      QuotientPositive(b, f.man);
      if b % f.man == f.man - 1 {
        assert Pow2(f.off + Exponent(f, b + 1)) == 2 * p;
        Regroup(f.man, p);
      }
    }
  }

  lemma Distribute(s: nat, p: nat)
    ensures (s + 1) * p == s * p + p
  {
  }

  lemma Associate(a: nat, b: nat, c: nat)
    ensures a * b * c == a * (b * c)
  {
  }

  lemma Regroup(m: nat, p: nat)
    ensures m * (2 * p) == (2 * m) * p
  {
  }

  lemma QuotientPositive(b: nat, m: nat)
    requires 0 < m <= b
    ensures b / m >= 1
  {
  }

  lemma NextQuotient(b: nat, m: nat)
    requires m > 0
    ensures b % m == m - 1 ==> (b + 1) / m == b / m + 1 && (b + 1) % m == 0
    ensures b % m < m - 1 ==> (b + 1) / m == b / m && (b + 1) % m == b % m + 1
  {
    var q, r := b / m, b % m;
    assert b == q * m + r;
    if r == m - 1 {
      Quotient(b + 1, m, q + 1, 0);
    } else {
      Quotient(b + 1, m, q, r + 1);
    }
  }

  lemma Quotient(n: nat, m: nat, q: nat, r: nat)
    requires m > 0 && r < m && n == q * m + r
    ensures n / m == q && n % m == r
  {
    var d := n / m - q;
    assert d * m == r - n % m;
    assert d >= 1 ==> d * m >= m;
    assert d <= -1 ==> d * m <= -1 * m;
  }

  lemma {:induction false} MagnitudeMonotone(f: Format, a: nat, b: nat)
    requires f.man > 0 && a < b
    ensures Magnitude(f, a) < Magnitude(f, b)
  {
    MagnitudeStep(f, b - 1);
    if a < b - 1 {
      MagnitudeMonotone(f, a, b - 1);
    }
  }

  /** The largest bit pattern, from `b` up, whose magnitude does not exceed `mag`. */
  function TruncateFrom(f: Format, mag: nat, b: nat): (r: nat)
    requires f.man > 0 && Magnitude(f, b) <= mag
    ensures r >= b && Magnitude(f, r) <= mag < Magnitude(f, r + 1)
    decreases mag - Magnitude(f, b)
  {
    MagnitudeStep(f, b);
    if Magnitude(f, b + 1) > mag then b else TruncateFrom(f, mag, b + 1)
  }

  /** IEEE 754 roundTiesToEven of a magnitude, overflowing to infinity. */
  function Nearest(f: Format, mag: nat): (r: nat)
    requires f.man > 0
    ensures r <= f.inf
  {
    var low := TruncateFrom(f, mag, 0);
    var under := mag - Magnitude(f, low);
    var over := Magnitude(f, low + 1) - mag;
    if low >= f.inf then f.inf
    else if under < over || (under == over && low % 2 == 0) then low
    else low + 1
  }

  /** Rounding changes nothing that is representable. */
  lemma NearestExact(f: Format, b: nat)
    requires f.man > 0 && b <= f.inf
    ensures Nearest(f, Magnitude(f, b)) == b
  {
    var low := TruncateFrom(f, Magnitude(f, b), 0);
    if low < b {
      if low + 1 < b { MagnitudeMonotone(f, low + 1, b); }
    } else if b < low {
      MagnitudeMonotone(f, b, low);
    }
    MagnitudeStep(f, low);
  }

  function Distance(a: nat, b: nat): nat { if a < b then b - a else a - b }

  /** No finite pattern is nearer, infinity counting as the next one, and of two as near the even one is taken. */
  lemma NearestIsNearest(f: Format, mag: nat, b: nat)
    requires IsFormat(f) && b <= f.inf
    ensures var r := Nearest(f, mag);
            && Distance(mag, Magnitude(f, r)) <= Distance(mag, Magnitude(f, b))
            && (b != r && Distance(mag, Magnitude(f, r)) == Distance(mag, Magnitude(f, b)) ==> r % 2 == 0)
  {
    hide Magnitude, TruncateFrom, Nearest;
    assert f.inf % 2 == 0;
    var low := Chosen(f, mag);
    hide IsFormat;
    Ordered(f, b, low);
    Ordered(f, b, low + 1);
    Ordered(f, f.inf, low);
    Ordered(f, b, f.inf);
  }

  /** Patterns are ordered as their magnitudes are. */
  lemma Ordered(f: Format, a: nat, b: nat)
    requires f.man > 0
    ensures a < b <==> Magnitude(f, a) < Magnitude(f, b)
    ensures a == b <==> Magnitude(f, a) == Magnitude(f, b)
  {
    if a < b { MagnitudeMonotone(f, a, b); }
    if b < a { MagnitudeMonotone(f, b, a); }
    hide Magnitude;
  }

  /** What is taken, between the two patterns a magnitude lies between. */
  lemma Chosen(f: Format, mag: nat) returns (low: nat)
    requires f.man > 0
    ensures Magnitude(f, low) <= mag < Magnitude(f, low + 1)
    ensures var under, over := Distance(mag, Magnitude(f, low)), Distance(mag, Magnitude(f, low + 1));
            Nearest(f, mag) == if low >= f.inf then f.inf
                               else if under < over || (under == over && low % 2 == 0) then low else low + 1
  {
    low := TruncateFrom(f, mag, 0);
    hide Magnitude, TruncateFrom;
  }

  predicate Negative(f: Format, y: nat) { y >= f.sign }

  function Unsigned(f: Format, y: nat): nat { if y >= f.sign then y - f.sign else y }

  function Signed(f: Format, negative: bool, b: nat): nat { if negative then f.sign + b else b }

  predicate Finite(f: Format, y: nat) { Unsigned(f, y) < f.inf }

  type f64bits = u64

  predicate IsFinite(x: f64bits) { Finite(F64, x) }

  /** Conversion of a finite binary64 to a narrower format (`as f32`, `float32(v)`, `f16::from_f64`). */
  function Narrow(f: Format, x: f64bits): (y: nat)
    requires IsFormat(f)
    ensures y < 2 * f.sign
  {
    Signed(f, Negative(F64, x), Nearest(f, Magnitude(F64, Unsigned(F64, x))))
  }

  /** Position in binary64 of the last stored significand bit. */
  function LastBit(f: Format): nat
    requires IsFormat(f)
  {
    if f == F16 then 0x400_0000_0000 else if f == F32 then 0x2000_0000 else 1
  }

  /** Conversion to binary64 (`as f64`, `to_f64`); a NaN is quietened and keeps its payload bits. */
  function Widen(f: Format, y: nat): (x: f64bits)
    requires IsFormat(f) && y < 2 * f.sign
  {
    var b := Unsigned(f, y);
    Signed(F64, Negative(f, y),
           if b < f.inf then Nearest(F64, Magnitude(f, b))
           else if b == f.inf then F64.inf
           else 0x7FF8_0000_0000_0000 + (b - f.inf) * LastBit(f) % 0x8_0000_0000_0000)
  }

  /** `y` in format `f` is exactly the value `x`, sign included. */
  ghost predicate Represents(f: Format, y: nat, x: f64bits)
    requires IsFormat(f)
  {
    && y < 2 * f.sign && Finite(f, y)
    && Negative(f, y) == Negative(F64, x)
    && Magnitude(f, Unsigned(f, y)) == Magnitude(F64, Unsigned(F64, x))
  }

  ghost predicate Representable(f: Format, x: f64bits)
    requires IsFormat(f)
  {
    exists y :: Represents(f, y, x)
  }

  /** A short enough significand times a power of two is a binary64 magnitude. */
  lemma {:induction false} ExactBinary64(m: nat, s: nat) returns (b: nat)
    requires m < 2 * F64.man
    ensures Magnitude(F64, b) == m * Pow2(s) && b < (s + 2) * F64.man
    decreases s
  {
    if s == 0 {
      b := m;
      if m >= F64.man {
        Quotient(m, F64.man, 1, m - F64.man);
      }
    } else if m >= F64.man {
      b := (s + 1) * F64.man + (m - F64.man);
      Quotient(b, F64.man, s + 1, m - F64.man);
    } else {
      b := ExactBinary64(2 * m, s - 1);
      Regroup(m, Pow2(s - 1));
    }
  }

  /** Widening a finite number keeps its sign and magnitude, and stays finite. */
  lemma WidenExact(f: Format, y: nat)
    requires IsFormat(f) && y < 2 * f.sign && Finite(f, y)
    ensures Represents(f, y, Widen(f, y)) && IsFinite(Widen(f, y))
  {
    hide Nearest;
    var b := Unsigned(f, y);
    var wide := WideMagnitude(f, b);
    hide Magnitude;
    NearestExact(F64, wide);
  }

  /** Every finite magnitude of the narrower formats is one of binary64. */
  lemma WideMagnitude(f: Format, b: nat) returns (wide: nat)
    requires IsFormat(f) && b < f.inf
    ensures wide < F64.inf && Magnitude(F64, wide) == Magnitude(f, b)
  {
    if f == F64 {
      wide := b;
    } else {
      ExponentBound(f, b);
      wide := ExactBinary64(Significand(f, b), f.off + Exponent(f, b));
    }
  }

  lemma ExponentBound(f: Format, b: nat)
    requires (f == F16 || f == F32) && b < f.inf
    ensures f.off + Exponent(f, b) + 2 <= 2047 && Significand(f, b) < 2 * F64.man
  {
  }

  lemma RepresentsIsWiden(f: Format, y: nat, x: f64bits)
    requires IsFormat(f) && IsFinite(x) && Represents(f, y, x)
    ensures Widen(f, y) == x && Narrow(f, x) == y
  {
    hide Nearest, Magnitude;
    NearestExact(F64, Unsigned(F64, x));
    NearestExact(f, Unsigned(f, y));
  }

  lemma NarrowWiden(f: Format, y: nat)
    requires IsFormat(f) && y < 2 * f.sign && Finite(f, y)
    ensures Narrow(f, Widen(f, y)) == y
  {
    WidenExact(f, y);
    RepresentsIsWiden(f, y, Widen(f, y));
  }

  /** IEEE 754 equality: the two zeros are equal and a NaN equals nothing. */
  predicate FloatEq(a: f64bits, b: f64bits) {
    && Unsigned(F64, a) <= F64.inf && Unsigned(F64, b) <= F64.inf
    && (a == b || (Unsigned(F64, a) == 0 && Unsigned(F64, b) == 0))
  }

  /** The round-trip test both writers make (`half.to_f64() == number`). */
  predicate RoundTrips(f: Format, x: f64bits)
    requires IsFormat(f)
  {
    FloatEq(Widen(f, Narrow(f, x)), x)
  }

  /** The round trip succeeds exactly on the values the format represents, signed zeros included. */
  lemma RoundTripsIffRepresentable(f: Format, x: f64bits)
    requires IsFormat(f) && IsFinite(x)
    ensures RoundTrips(f, x) <==> Representable(f, x)
    ensures RoundTrips(f, x) ==> Represents(f, Narrow(f, x), x) && Widen(f, Narrow(f, x)) == x
  {
    hide Nearest, Magnitude;
    if Representable(f, x) {
      var y :| Represents(f, y, x);
      RepresentsIsWiden(f, y, x);
    }
    if RoundTrips(f, x) {
      assert Finite(f, Narrow(f, x));
      WidenExact(f, Narrow(f, x));
    }
  }

  /** `write_float` of the Rust encoder (shortest width that round-trips). */
  function WriteFloat(x: f64bits): (r: Bytes) {
    if RoundTrips(F16, x) then [0xF9] + BigEndian(Narrow(F16, x), 2)
    else if RoundTrips(F32, x) then [0xFA] + BigEndian(Narrow(F32, x), 4)
    else [0xFB] + BigEndian(x, 8)
  }

  // ---- the Go implementation's own half-precision arithmetic ----

  function ShiftRight(n: nat, k: nat): nat {
    if k == 0 then n else ShiftRight(n / 2, k - 1)
  }

  lemma {:induction false} ShiftRightExact(m: nat, k: nat)
    ensures ShiftRight(m * Pow2(k), k) == m
  {
    if k > 0 {
      assert m * Pow2(k) == 2 * (m * Pow2(k - 1));
      ShiftRightExact(m, k - 1);
    }
  }

  /** The four branches of `float16FromFloat64`, on a binary32 magnitude. */
  function Truncated(z: nat): nat {
    var field := z / 0x80_0000;
    var mantissa := z % 0x80_0000;
    var exponent := field - 127;
    if exponent > 15 then 0x7C00
    else if exponent < -24 then 0
    else if exponent < -14 then ShiftRight(mantissa + 0x80_0000, -exponent - 14 + 13)
    else (exponent + 15) * 0x400 + mantissa / 0x2000
  }

  /** `float16FromFloat64`: through binary32, then dropping significand bits. */
  function GoFloat16(x: f64bits): (h: nat)
  {
    var bits := Narrow(F32, x);
    Signed(F16, Negative(F32, bits), Truncated(Unsigned(F32, bits)))
  }

  /** `toFloat64`: `None` for infinities and NaNs. */
  function GoToFloat64(h: nat): (r: Option<f64bits>)
    requires h < 0x1_0000
  {
    var negative := Negative(F16, h);
    var exponent := Unsigned(F16, h) / 0x400;
    var mantissa := Unsigned(F16, h) % 0x400;
    if exponent == 0x1F then None
    else if exponent == 0 then Some(Signed(F64, negative, Nearest(F64, mantissa * Pow2(1050))))
    else Some(Widen(F32, Signed(F32, negative, (exponent + 112) * 0x80_0000 + mantissa * 0x2000)))
  }

  /** `writeCborFloat`; the caller has already refused infinities and NaNs. */
  function GoWriteFloat(x: f64bits): (r: Bytes) {
    var half := GoFloat16(x) % 0x1_0000;
    var back := GoToFloat64(half);
    var single := Narrow(F32, x);
    if back.Some? && FloatEq(back.value, x) && Negative(F64, back.value) == Negative(F64, x) then
      [0xF9] + BigEndian(half, 2)
    else if FloatEq(Widen(F32, single), x) && Negative(F64, Widen(F32, single)) == Negative(F64, x) then
      [0xFA] + BigEndian(single, 4)
    else [0xFB] + BigEndian(x, 8)
  }

  lemma SmallPowers()
    ensures Pow2(1) == 2 && Pow2(2) == 4 && Pow2(3) == 8 && Pow2(4) == 16 && Pow2(5) == 32 && Pow2(6) == 64
    ensures Pow2(7) == 0x80 && Pow2(8) == 0x100 && Pow2(9) == 0x200 && Pow2(10) == 0x400
    ensures Pow2(13) == 0x2000 && Pow2(14) == 0x4000 && Pow2(15) == 0x8000 && Pow2(16) == 0x1_0000
    ensures Pow2(17) == 0x2_0000 && Pow2(18) == 0x4_0000 && Pow2(19) == 0x8_0000 && Pow2(20) == 0x10_0000
    ensures Pow2(21) == 0x20_0000 && Pow2(22) == 0x40_0000 && Pow2(23) == 0x80_0000
  {
  }

  /** Position of the leading bit of a subnormal binary16 significand. */
  lemma LeadingBit(m: nat) returns (p: nat)
    requires 0 < m < 0x400
    ensures p < 10 && Pow2(p) <= m < 2 * Pow2(p)
  {
    SmallPowers();
    p := if m < 2 then 0 else if m < 4 then 1 else if m < 8 then 2 else if m < 16 then 3 else if m < 32 then 4
      else if m < 64 then 5 else if m < 0x80 then 6 else if m < 0x100 then 7 else if m < 0x200 then 8 else 9;
  }

  lemma ProductOrder(a: nat, b: nat, c: nat)
    requires a < b && c > 0
    ensures a * c < b * c
  {
  }

  /** A normal binary16 magnitude in binary32: the exponent is re-biased by 112. */
  lemma NormalHalfInSingle(e: nat, m: nat)
    requires 0 < e < 31 && m < 0x400
    ensures (e + 112) * 0x80_0000 + m * 0x2000 < F32.inf
    ensures Magnitude(F32, (e + 112) * 0x80_0000 + m * 0x2000) == Magnitude(F16, e * 0x400 + m)
  {
    var z := (e + 112) * 0x80_0000 + m * 0x2000;
    Quotient(z, F32.man, e + 112, m * 0x2000);
    Quotient(e * 0x400 + m, F16.man, e, m);
    var q := Pow2(1036 + e);
    assert Significand(F32, z) == 0x80_0000 + m * 0x2000 && F32.off + Exponent(F32, z) == 1036 + e;
    assert F16.off + Exponent(F16, e * 0x400 + m) == 1049 + e;
    SmallPowers();
    Pow2Add(13, 1036 + e);
    assert Pow2(1049 + e) == 0x2000 * q;
    Associate(0x400 + m, 0x2000, q);
  }

  /** The fraction of a subnormal binary16 significand `b` whose leading bit is at `p`, in binary32. */
  lemma SubnormalFraction(b: nat, p: nat)
    requires p < 10 && Pow2(p) <= b < 2 * Pow2(p)
    ensures 0x80_0000 <= b * Pow2(23 - p) < 2 * 0x80_0000
  {
    SmallPowers();
    Pow2Add(p, 23 - p);
    var s := Pow2(23 - p);
    assert Pow2(p) * s == 0x80_0000;
    assert (2 * Pow2(p)) * s == 2 * 0x80_0000;
    ProductOrder(b, 2 * Pow2(p), s);
    if b > Pow2(p) { ProductOrder(Pow2(p), b, s); }
  }

  lemma SubnormalHalfInSingle(b: nat, p: nat)
    requires p < 10 && Pow2(p) <= b < 2 * Pow2(p) && b < 0x400
    requires 0x80_0000 <= b * Pow2(23 - p) < 2 * 0x80_0000
    ensures Magnitude(F32, (p + 102) * 0x80_0000 + b * Pow2(23 - p)) == Magnitude(F16, b)
  {
    var m := b * Pow2(23 - p);
    var z := (p + 102) * 0x80_0000 + m;
    Quotient(z, F32.man, p + 103, m - 0x80_0000);
    assert Significand(F32, z) == m && F32.off + Exponent(F32, z) == 1027 + p;
    Pow2Add(23 - p, 1027 + p);
    Associate(b, Pow2(23 - p), Pow2(1027 + p));
  }

  /** A normal binary16 widened by way of binary32, as the Go code does, with the sign carried along. */
  lemma GoNormalHalf(h: nat, e: nat, m: nat)
    requires h < 0x1_0000 && Unsigned(F16, h) == e * 0x400 + m && 0 < e < 31 && m < 0x400
    ensures Widen(F32, Signed(F32, Negative(F16, h), (e + 112) * 0x80_0000 + m * 0x2000)) == Widen(F16, h)
  {
    NormalHalfInSingle(e, m);
    hide Nearest, Pow2, Magnitude;
  }

  lemma GoSubnormalHalf(h: nat)
    requires h < 0x1_0000 && Unsigned(F16, h) < 0x400
    ensures Signed(F64, Negative(F16, h), Nearest(F64, Unsigned(F16, h) * Pow2(1050))) == Widen(F16, h)
  {
    hide Nearest, Pow2;
  }

  /** The Go widening of a finite binary16 is the exact one; it refuses precisely infinities and NaNs. */
  lemma GoToFloat64Exact(h: nat)
    requires h < 0x1_0000
    ensures GoToFloat64(h) == if Finite(F16, h) then Some(Widen(F16, h)) else None
  {
    hide Widen, Nearest, Pow2, Magnitude, Signed;
    var b := Unsigned(F16, h);
    if b / 0x400 == 0 {
      GoSubnormalHalf(h);
    } else if b / 0x400 < 31 {
      GoNormalHalf(h, b / 0x400, b % 0x400);
    }
  }

  lemma TruncatedSingle(b: nat) returns (z: nat)
    requires b < F16.inf
    ensures z < F32.inf && Magnitude(F32, z) == Magnitude(F16, b) && Truncated(z) == b
  {
    if b >= 0x400 {
      var e, m := b / 0x400, b % 0x400;
      z := (e + 112) * 0x80_0000 + m * 0x2000;
      NormalHalfInSingle(e, m);
      Quotient(z, F32.man, e + 112, m * 0x2000);
    } else if b == 0 {
      z := 0;
    } else {
      var p := LeadingBit(b);
      var s := Pow2(23 - p);
      SubnormalFraction(b, p);
      SubnormalHalfInSingle(b, p);
      z := (p + 102) * 0x80_0000 + b * s;
      Quotient(z, F32.man, p + 103, b * s - 0x80_0000);
      ShiftRightExact(b, 23 - p);
    }
  }

  /** Truncation returns the exact binary16 pattern whenever there is one. */
  lemma GoFloat16Exact(h: nat, x: f64bits)
    requires IsFinite(x) && Represents(F16, h, x)
    ensures GoFloat16(x) == h
  {
    hide Magnitude, Nearest, Truncated, Pow2;
    var z := TruncatedSingle(Unsigned(F16, h));
    var single := Signed(F32, Negative(F64, x), z);
    assert Represents(F32, single, x);
    RepresentsIsWiden(F32, single, x);
    hide Narrow;
  }

  lemma SameSignFloatEq(a: f64bits, x: f64bits)
    ensures FloatEq(a, x) && Negative(F64, a) == Negative(F64, x) ==> a == x
    ensures IsFinite(x) ==> FloatEq(x, x)
  {
  }

  /** The half-width test of the Go writer succeeds exactly on binary16 values. */
  lemma GoHalfTest(x: f64bits)
    requires IsFinite(x)
    ensures var half := GoFloat16(x) % 0x1_0000;
            var back := GoToFloat64(half);
            Representable(F16, x) <==>
            back.Some? && FloatEq(back.value, x) && Negative(F64, back.value) == Negative(F64, x)
    ensures Representable(F16, x) ==> GoFloat16(x) % 0x1_0000 == Narrow(F16, x)
  {
    hide Magnitude, Nearest, GoFloat16, GoToFloat64, Widen, Narrow;
    var half := GoFloat16(x) % 0x1_0000;
    GoToFloat64Exact(half);
    SameSignFloatEq(Widen(F16, half), x);
    if Finite(F16, half) {
      WidenExact(F16, half);
    }
    if Representable(F16, x) {
      var h :| Represents(F16, h, x);
      GoFloat16Exact(h, x);
      RepresentsIsWiden(F16, h, x);
    }
  }

  /** Both encoders choose the same width and the same octets for every finite value. */
  lemma GoWriteFloatAgrees(x: f64bits)
    requires IsFinite(x)
    ensures GoWriteFloat(x) == WriteFloat(x)
  {
    hide Magnitude, Nearest, GoFloat16, GoToFloat64, BigEndian, Represents, Representable, FloatEq;
    RoundTripsIffRepresentable(F16, x);
    RoundTripsIffRepresentable(F32, x);
    GoHalfTest(x);
    hide Widen, Narrow;
    SameSignFloatEq(x, x);
  }
}
