/** Number text: integers, and floats laid out from their shortest decimal digits. */
module Decimals {
  import opened ByteStrings
  import opened Floats

  const MINUS: byte := 45
  const DOT: byte := 46
  const ZERO: byte := 48
  const EXPONENT: byte := 101

  predicate IsDigit(b: byte) { 48 <= b < 58 }

  predicate AllDigits(t: Bytes) { forall i :: 0 <= i < |t| ==> IsDigit(t[i]) }

  function Pow10(n: nat): (r: nat)
    ensures r > 0
  {
    if n == 0 then 1 else 10 * Pow10(n - 1)
  }

  // ---- naturals ----

  function NatText(n: nat): (t: Bytes)
    ensures t != []
  {
    if n < 10 then [ZERO + n] else NatText(n / 10) + [ZERO + n % 10]
  }

  function ReadNat(t: Bytes): nat
    requires AllDigits(t)
  {
    if t == [] then 0 else 10 * ReadNat(t[..|t| - 1]) + (t[|t| - 1] - ZERO)
  }

  lemma {:induction false} NatTextReads(n: nat)
    ensures AllDigits(NatText(n)) && ReadNat(NatText(n)) == n
  {
    if n >= 10 {
      NatTextReads(n / 10);
      assert NatText(n)[..|NatText(n)| - 1] == NatText(n / 10);
    }
  }

  lemma {:induction false} ReadNatJoin(a: Bytes, b: Bytes)
    requires AllDigits(a) && AllDigits(b)
    ensures AllDigits(a + b) && ReadNat(a + b) == ReadNat(a) * Pow10(|b|) + ReadNat(b)
  {
    if b == [] {
      assert a + b == a;
    } else {
      var init, last := b[..|b| - 1], b[|b| - 1] - ZERO;
      ReadNatJoin(a, init);
      assert (a + b)[..|a + b| - 1] == a + init;
      TimesTen(ReadNat(a), Pow10(|init|), ReadNat(init), last);
    }
  }

  lemma TimesTen(x: nat, p: nat, y: nat, d: nat)
    ensures 10 * (x * p + y) + d == x * (10 * p) + (10 * y + d)
  {
  }

  function ZeroDigits(n: nat): (t: Bytes)
    ensures |t| == n && AllDigits(t)
  {
    seq(n, _ => ZERO)
  }

  lemma {:induction false} ReadZeroDigits(n: nat)
    ensures ReadNat(ZeroDigits(n)) == 0
  {
    if n > 0 {
      ReadZeroDigits(n - 1);
      assert ZeroDigits(n)[..n - 1] == ZeroDigits(n - 1);
    }
  }

  // ---- integers ----

  function IntText(n: int): (t: Bytes)
    ensures t != []
  {
    if n < 0 then [MINUS] + NatText(-n) else NatText(n)
  }

  function ReadInt(t: Bytes): Option<int> {
    var negative := t != [] && t[0] == MINUS;
    var digits := if negative then t[1..] else t;
    if digits == [] || !AllDigits(digits) then None
    else
      var magnitude: int := ReadNat(digits);
      Some(if negative then -magnitude else magnitude)
  }

  lemma IntTextReads(n: int)
    ensures ReadInt(IntText(n)) == Some(n)
  {
    NatTextReads(if n < 0 then -n else n);
    var t := IntText(n);
    if n < 0 {
      assert t[1..] == NatText(-n);
    } else {
      assert IsDigit(t[0]);
    }
  }

  // ---- floats ----

  /** `digits * 10^k` */
  datatype Decimal = Decimal(digits: nat, k: int)

  /**
   The shortest decimal of a positive finite binary64, and reading a decimal back to the nearest
   binary64. Both algorithms are taken as given.
   */
  datatype Ryu = Ryu(shortest: f64bits -> Decimal, nearest: Decimal -> f64bits)

  predicate Positive(x: f64bits) { 0 < x < F64.inf }

  ghost predicate ReadsBack(ryu: Ryu, x: f64bits) {
    var d := ryu.shortest(x);
    d.digits > 0 && d.digits % 10 != 0 && ryu.nearest(d) == x
  }

  /** What makes a shortest-decimal algorithm usable: its output reads back, and ends in no zero. */
  ghost predicate Faithful(ryu: Ryu) { forall x :: Positive(x) ==> ReadsBack(ryu, x) }

  /** The four layouts of a positive float. */
  function DecimalText(d: Decimal): (t: Bytes)
    ensures t != []
  {
    var digits := NatText(d.digits);
    var kk := |digits| + d.k;
    if 0 <= d.k && kk <= 16 then digits + ZeroDigits(d.k) + [DOT, ZERO]
    else if 0 < kk <= 16 then digits[..kk] + [DOT] + digits[kk..]
    else if -5 < kk <= 0 then [ZERO, DOT] + ZeroDigits(-kk) + digits
    else if |digits| == 1 then digits + [EXPONENT] + IntText(kk - 1)
    else digits[..1] + [DOT] + digits[1..] + [EXPONENT] + IntText(kk - 1)
  }

  function FloatText(ryu: Ryu, x: f64bits): (t: Bytes)
    ensures t != []
  {
    var magnitude := Unsigned(F64, x);
    var sign := if Negative(F64, x) then [MINUS] else [];
    sign + if magnitude == 0 then [ZERO, DOT, ZERO] else DecimalText(ryu.shortest(magnitude))
  }

  /** First position of `b`, or the length. */
  function Find(t: Bytes, b: byte): (i: nat)
    ensures i <= |t| && b !in t[..i] && (i < |t| ==> t[i] == b)
  {
    if t == [] || t[0] == b then 0 else 1 + Find(t[1..], b)
  }

  lemma {:induction false} FindAt(a: Bytes, b: byte, rest: Bytes)
    requires b !in a && (rest == [] || rest[0] == b)
    ensures Find(a + rest, b) == |a|
  {
    if a == [] {
      assert a + rest == rest;
    } else {
      assert (a + rest)[1..] == a[1..] + rest;
      FindAt(a[1..], b, rest);
    }
  }

  /** Digits with an optional point, as one integer and the place of the point. */
  function ReadMantissa(t: Bytes): Option<Decimal> {
    var dot := Find(t, DOT);
    var whole, fraction := t[..dot], if dot < |t| then t[dot + 1..] else [];
    if whole == [] || !AllDigits(whole + fraction) then None
    else Some(Decimal(ReadNat(whole + fraction), -|fraction|))
  }

  /** The decimal an unsigned float text denotes. */
  function ReadDecimal(t: Bytes): Option<Decimal> {
    var e := Find(t, EXPONENT);
    var mantissa := ReadMantissa(t[..e]);
    var exponent := if e < |t| then ReadInt(t[e + 1..]) else Some(0);
    if mantissa.None? || exponent.None? then None
    else Some(Decimal(mantissa.value.digits, mantissa.value.k + exponent.value))
  }

  /** The same number with a finer exponent. */
  ghost predicate Rescaled(d: Decimal, r: Decimal) { r.k <= d.k && r.digits == d.digits * Pow10(d.k - r.k) }

  /** Trailing zeros moved into the exponent. */
  function Stripped(d: Decimal): Decimal
    decreases d.digits
  {
    if d.digits > 0 && d.digits % 10 == 0 then Stripped(Decimal(d.digits / 10, d.k + 1)) else d
  }

  lemma {:induction false} StripRescaled(d: Decimal, r: Decimal)
    requires d.digits > 0 && d.digits % 10 != 0 && Rescaled(d, r)
    ensures Stripped(r) == d
    decreases d.k - r.k
  {
    if r.k < d.k {
      var p := Pow10(d.k - r.k - 1);
      TenTimes(d.digits, p);
      StripRescaled(d, Decimal(r.digits / 10, r.k + 1));
    } else {
      assert r.digits == d.digits;
    }
  }

  lemma TenTimes(n: nat, p: nat)
    requires n > 0 && p > 0
    ensures n * (10 * p) == 10 * (n * p) && n * p > 0
  {
  }

  /** What an exponent part says; no part says zero. */
  ghost predicate ExponentPart(tail: Bytes, exponent: int) {
    if tail == [] then exponent == 0 else tail == [EXPONENT] + IntText(exponent)
  }

  lemma ReadExponent(mantissa: Bytes, tail: Bytes, exponent: int)
    requires EXPONENT !in mantissa && ExponentPart(tail, exponent)
    ensures Find(mantissa + tail, EXPONENT) == |mantissa| && (mantissa + tail)[..|mantissa|] == mantissa
    ensures if tail == [] then exponent == 0 else ReadInt((mantissa + tail)[|mantissa| + 1..]) == Some(exponent)
  {
    FindAt(mantissa, EXPONENT, tail);
    IntTextReads(exponent);
    hide IntText, ReadInt, Find;
    if tail != [] {
      assert (mantissa + tail)[|mantissa| + 1..] == IntText(exponent);
    }
  }

  lemma MantissaReads(whole: Bytes, fraction: Bytes)
    requires whole != [] && AllDigits(whole) && AllDigits(fraction)
    ensures AllDigits(whole + fraction) && EXPONENT !in whole + [DOT] + fraction
    ensures ReadMantissa(whole + [DOT] + fraction) == Some(Decimal(ReadNat(whole + fraction), -|fraction|))
  {
    hide ReadNat, Find;
    FindAt(whole, DOT, [DOT] + fraction);
    assert whole + [DOT] + fraction == whole + ([DOT] + fraction);
  }

  lemma ReadFrom(mantissa: Bytes, tail: Bytes, exponent: int)
    requires EXPONENT !in mantissa && ReadMantissa(mantissa).Some? && ExponentPart(tail, exponent)
    ensures var m := ReadMantissa(mantissa).value;
            ReadDecimal(mantissa + tail) == Some(Decimal(m.digits, m.k + exponent))
  {
    hide ReadMantissa, ReadInt, Find, ExponentPart;
    ReadExponent(mantissa, tail, exponent);
  }

  lemma ReadWhole(whole: Bytes, tail: Bytes, exponent: int)
    requires whole != [] && AllDigits(whole) && ExponentPart(tail, exponent)
    ensures ReadDecimal(whole + tail) == Some(Decimal(ReadNat(whole), exponent))
  {
    hide ReadNat, ReadInt, Find, ExponentPart, ReadDecimal;
    FindAt(whole, DOT, []);
    assert whole + [] == whole && whole[..|whole|] == whole;
    ReadFrom(whole, tail, exponent);
  }

  lemma ReadPointed(whole: Bytes, fraction: Bytes, tail: Bytes, exponent: int)
    requires whole != [] && AllDigits(whole) && AllDigits(fraction) && ExponentPart(tail, exponent)
    ensures AllDigits(whole + fraction)
    ensures ReadDecimal(whole + [DOT] + fraction + tail) ==
            Some(Decimal(ReadNat(whole + fraction), exponent - |fraction|))
  {
    hide *;
    MantissaReads(whole, fraction);
    ReadFrom(whole + [DOT] + fraction, tail, exponent);
  }

  lemma WideLayout(digits: Bytes, k: nat)
    requires digits != [] && AllDigits(digits)
    ensures ReadDecimal(digits + ZeroDigits(k) + [DOT, ZERO]) == Some(Decimal(ReadNat(digits) * Pow10(k) * 10, -1))
  {
    hide ReadDecimal, ReadNat;
    var whole := digits + ZeroDigits(k);
    ReadPointed(whole, [ZERO], [], 0);
    assert whole + [DOT] + [ZERO] + [] == whole + [DOT, ZERO];
    ReadNatJoin(digits, ZeroDigits(k));
    ReadZeroDigits(k);
    ReadNatJoin(whole, [ZERO]);
    OneZero();
  }

  lemma PointLayout(digits: Bytes, at: nat, tail: Bytes, exponent: int)
    requires 0 < at <= |digits| && AllDigits(digits) && ExponentPart(tail, exponent)
    ensures ReadDecimal(digits[..at] + [DOT] + digits[at..] + tail) ==
            Some(Decimal(ReadNat(digits), exponent - (|digits| - at)))
  {
    hide ReadDecimal, ReadNat;
    ReadPointed(digits[..at], digits[at..], tail, exponent);
    assert digits[..at] + digits[at..] == digits;
  }

  lemma SmallLayout(digits: Bytes, zeros: nat)
    requires digits != [] && AllDigits(digits)
    ensures ReadDecimal([ZERO, DOT] + ZeroDigits(zeros) + digits) == Some(Decimal(ReadNat(digits), -(zeros + |digits|)))
  {
    hide ReadDecimal, ReadNat;
    ReadPointed([ZERO], ZeroDigits(zeros) + digits, [], 0);
    assert [ZERO] + [DOT] + (ZeroDigits(zeros) + digits) + [] == [ZERO, DOT] + ZeroDigits(zeros) + digits;
    assert [ZERO] + (ZeroDigits(zeros) + digits) == ZeroDigits(1 + zeros) + digits;
    ReadNatJoin(ZeroDigits(1 + zeros), digits);
    ReadZeroDigits(1 + zeros);
  }

  /** Every layout denotes exactly the decimal it was laid out from. */
  lemma LayoutDenotes(d: Decimal)
    ensures ReadDecimal(DecimalText(d)).Some? && Rescaled(d, ReadDecimal(DecimalText(d)).value)
  {
    hide ReadDecimal, ReadNat, IntText, NatText;
    var digits := NatText(d.digits);
    var kk := |digits| + d.k;
    NatTextReads(d.digits);
    if 0 <= d.k && kk <= 16 {
      WideLayout(digits, d.k);
      TenTimesAny(d.digits, Pow10(d.k));
    } else if 0 < kk <= 16 {
      PointLayout(digits, kk, [], 0);
      assert DecimalText(d) + [] == DecimalText(d);
    } else if -5 < kk <= 0 {
      SmallLayout(digits, -kk);
    } else if |digits| == 1 {
      ReadWhole(digits, [EXPONENT] + IntText(kk - 1), kk - 1);
      assert digits + ([EXPONENT] + IntText(kk - 1)) == DecimalText(d);
    } else {
      PointLayout(digits, 1, [EXPONENT] + IntText(kk - 1), kk - 1);
      assert digits[..1] + [DOT] + digits[1..] + ([EXPONENT] + IntText(kk - 1)) == DecimalText(d);
    }
  }

  lemma OneZero()
    ensures AllDigits([ZERO]) && ReadNat([ZERO]) == 0 && Pow10(1) == 10
  {
  }

  lemma TenTimesAny(n: nat, p: nat)
    ensures n * p * 10 == n * (10 * p)
  {
  }

  /** A float token read back to its bits. */
  function ReadFloatText(ryu: Ryu, t: Bytes): Option<f64bits> {
    var negative := t != [] && t[0] == MINUS;
    var d := ReadDecimal(if negative then t[1..] else t);
    if d.None? then None
    else
      var magnitude := if d.value.digits == 0 then 0 else ryu.nearest(Stripped(d.value));
      if magnitude >= F64.inf then None else Some(Signed(F64, negative, magnitude))
  }

  lemma {:induction false} FirstNotMinus(d: Decimal)
    ensures DecimalText(d)[0] != MINUS
  {
    NatTextReads(d.digits);
    hide NatText, ReadNat;
    assert IsDigit(NatText(d.digits)[0]);
  }

  /** Float text reads back to the very bits, sign of zero included. */
  lemma FloatTextReads(ryu: Ryu, x: f64bits)
    requires Faithful(ryu) && IsFinite(x)
    ensures ReadFloatText(ryu, FloatText(ryu, x)) == Some(x)
  {
    hide ReadDecimal, DecimalText, Stripped, ReadNat;
    var magnitude, t := Unsigned(F64, x), FloatText(ryu, x);
    var body := if magnitude == 0 then [ZERO, DOT, ZERO] else DecimalText(ryu.shortest(magnitude));
    if Negative(F64, x) {
      assert t[1..] == body;
    } else {
      assert t == body;
    }
    if magnitude == 0 {
      ReadPointed([ZERO], [ZERO], [], 0);
      assert [ZERO] + [DOT] + [ZERO] + [] == body;
      ReadNatJoin([ZERO], [ZERO]);
      OneZero();
    } else {
      assert ReadsBack(ryu, magnitude);
      var d := ryu.shortest(magnitude);
      FirstNotMinus(d);
      LayoutDenotes(d);
      var r := ReadDecimal(body).value;
      StripRescaled(d, r);
      PositiveProduct(d.digits, Pow10(d.k - r.k));
    }
  }

  lemma PositiveProduct(a: nat, b: nat)
    requires a > 0 && b > 0
    ensures a * b > 0
  {
  }
}
