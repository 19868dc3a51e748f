/**
 The octets of a CBOR value as a grammar in literals (sections 3 and 4.2.1 of RFC 8949): what each of
 the decoders accepts, and therefore what the encoder writes.
 */
module WireFormat {
  import opened ByteStrings
  import opened Floats
  import opened StableSort
  import opened Cbor
  import opened CborLaws

  // ---- heads ----

  /** How many octets the head at the front of `bs` takes. */
  function HeadLength(bs: Bytes): (n: nat)
    requires bs != []
  {
    var low := bs[0] % 32;
    if low == 24 then 2 else if low == 25 then 3 else if low == 26 then 5 else if low == 27 then 9 else 1
  }

  function Two(a: nat, b: nat): nat { 0x100 * a + b }

  function Four(a: nat, b: nat, c: nat, d: nat): nat { 0x100_0000 * a + 0x1_0000 * b + 0x100 * c + d }

  /** The number that head states: its low five bits, or the one, two, four or eight octets after it. */
  function Announced(bs: Bytes): (n: nat)
    requires bs != [] && HeadLength(bs) <= |bs|
  {
    var low := bs[0] % 32;
    if low == 24 then bs[1]
    else if low == 25 then Two(bs[1], bs[2])
    else if low == 26 then Four(bs[1], bs[2], bs[3], bs[4])
    else if low == 27 then 0x1_0000_0000 * Four(bs[1], bs[2], bs[3], bs[4]) + Four(bs[5], bs[6], bs[7], bs[8])
    else low
  }

  /** No shorter head states the same number. */
  predicate Shortest(bs: Bytes)
    requires bs != [] && HeadLength(bs) <= |bs|
  {
    var n := Announced(bs);
    HeadLength(bs) == if n < 24 then 1 else if n < 0x100 then 2 else if n < 0x1_0000 then 3
                      else if n < 0x1_0000_0000 then 5 else 9
  }

  /** `bs` begins with a head out of the 28 from `base` up that states `n`; Go alone takes a longer one. */
  predicate Headed(d: Decoder, bs: Bytes, base: nat, n: nat) {
    && bs != [] && base <= bs[0] <= base + 0x1B && HeadLength(bs) <= |bs|
    && Announced(bs) == n && (d == Go || Shortest(bs))
  }

  // ---- floats ----

  /** Magnitude of a binary16 number without its sign bit, in units of 2^-1074. */
  function HalfMagnitude(b: nat): nat {
    var e, m := b / 0x400, b % 0x400;
    if e == 0 then m * Pow2(1050) else (0x400 + m) * Pow2(1049 + e)
  }

  function SingleMagnitude(b: nat): nat {
    var e, m := b / 0x80_0000, b % 0x80_0000;
    if e == 0 then m * Pow2(925) else (0x80_0000 + m) * Pow2(924 + e)
  }

  function DoubleMagnitude(b: nat): nat {
    var e, m := b / 0x10_0000_0000_0000, b % 0x10_0000_0000_0000;
    if e == 0 then m else (0x10_0000_0000_0000 + m) * Pow2(e - 1)
  }

  predicate FiniteDouble(x: f64bits) { x % 0x8000_0000_0000_0000 < 0x7FF0_0000_0000_0000 }

  /** The binary16 number `h` is the binary64 number `x`, sign included. */
  predicate HalfIs(h: nat, x: f64bits) {
    && h < 0x1_0000 && h % 0x8000 < 0x7C00 && FiniteDouble(x)
    && (h >= 0x8000 <==> x >= 0x8000_0000_0000_0000)
    && HalfMagnitude(h % 0x8000) == DoubleMagnitude(x % 0x8000_0000_0000_0000)
  }

  /** The binary32 number `s` is the binary64 number `x`, sign included. */
  predicate SingleIs(s: nat, x: f64bits) {
    && s < 0x1_0000_0000 && s % 0x8000_0000 < 0x7F80_0000 && FiniteDouble(x)
    && (s >= 0x8000_0000 <==> x >= 0x8000_0000_0000_0000)
    && SingleMagnitude(s % 0x8000_0000) == DoubleMagnitude(x % 0x8000_0000_0000_0000)
  }

  /** An infinity stays one; a NaN turns quiet and keeps its leading payload bits. */
  predicate HalfSpecial(h: nat, x: f64bits) {
    && h < 0x1_0000 && h % 0x8000 >= 0x7C00 && (h >= 0x8000 <==> x >= 0x8000_0000_0000_0000)
    && x % 0x8000_0000_0000_0000 ==
       if h % 0x8000 == 0x7C00 then 0x7FF0_0000_0000_0000
       else 0x7FF8_0000_0000_0000 + h % 0x200 * 0x400_0000_0000
  }

  predicate SingleSpecial(s: nat, x: f64bits) {
    && s < 0x1_0000_0000 && s % 0x8000_0000 >= 0x7F80_0000 && (s >= 0x8000_0000 <==> x >= 0x8000_0000_0000_0000)
    && x % 0x8000_0000_0000_0000 ==
       if s % 0x8000_0000 == 0x7F80_0000 then 0x7FF0_0000_0000_0000
       else 0x7FF8_0000_0000_0000 + s % 0x40_0000 * 0x2000_0000
  }

  /** Go takes any width; the others only the narrowest, and only Rust takes a half that is not finite. */
  ghost predicate FloatStated(d: Decoder, first: byte, y: nat, x: f64bits) {
    if first == 0xF9 then HalfIs(y, x) || (d == Rust && HalfSpecial(y, x))
    else if first == 0xFA then
      && (SingleIs(y, x) || (d == Go && SingleSpecial(y, x)))
      && (d == Go || !exists h :: HalfIs(h, x))
    else
      && y == x
      && (d == Go || (FiniteDouble(x) && (!exists h :: HalfIs(h, x)) && !exists s :: SingleIs(s, x)))
  }

  ghost predicate AdmitsFloat(d: Decoder, bs: Bytes, x: f64bits) {
    && bs != [] && 0xF9 <= bs[0] <= 0xFB && |bs| == HeadLength(bs)
    && FloatStated(d, bs[0], Announced(bs), x)
  }

  // ---- values ----

  function Joined(parts: seq<Bytes>): Bytes {
    if parts == [] then [] else parts[0] + Joined(parts[1..])
  }

  /** Keys and values by turns. */
  function Alternating(keys: seq<Bytes>, values: seq<Bytes>): Bytes
    requires |keys| == |values|
  {
    if keys == [] then [] else keys[0] + values[0] + Alternating(keys[1..], values[1..])
  }

  predicate AdmitsText(d: Decoder, bs: Bytes, t: Bytes) {
    Headed(d, bs, 0x60, |t|) && bs[HeadLength(bs)..] == t && ValidUtf8(t)
  }

  ghost predicate AdmitsItems(d: Decoder, parts: seq<Bytes>, items: seq<CborValue>)
    decreases items, 0
  {
    |parts| == |items| && forall i :: 0 <= i < |items| ==> Admits(d, parts[i], items[i])
  }

  ghost predicate AdmitsPairs(d: Decoder, keys: seq<Bytes>, values: seq<Bytes>, pairs: seq<Pair>)
    decreases Map(pairs), 0
  {
    && |keys| == |values| == |pairs|
    && (forall i :: 0 <= i < |pairs| ==> AdmitsText(d, keys[i], pairs[i].0))
    && (forall i :: 0 <= i < |pairs| ==> Admits(d, values[i], pairs[i].1))
    && (d == Python ==> Ascends(keys))
  }

  /** Every encoded key is above the one before it. */
  ghost predicate Ascends(keys: seq<Bytes>) {
    forall i :: 0 < i < |keys| ==> Less(keys[i - 1], keys[i])
  }

  /** `bs` is a way of writing `v` that the decoder takes. */
  ghost predicate Admits(d: Decoder, bs: Bytes, v: CborValue)
    decreases v, 1
  {
    match v
    case Uint(n) => Headed(d, bs, 0x00, n) && |bs| == HeadLength(bs)
    case ByteString(b) => Headed(d, bs, 0x40, |b|) && bs[HeadLength(bs)..] == b
    case Text(t) => AdmitsText(d, bs, t)
    case Array(items) =>
      && Headed(d, bs, 0x80, |items|)
      && exists parts :: bs[HeadLength(bs)..] == Joined(parts) && AdmitsItems(d, parts, items)
    case Map(pairs) =>
      && Headed(d, bs, 0xA0, |pairs|)
      && exists keys, values ::
           && |keys| == |values| && bs[HeadLength(bs)..] == Alternating(keys, values)
           && AdmitsPairs(d, keys, values, pairs)
    case Bool(b) => bs == [if b then 0xF5 else 0xF4]
    case Null => bs == [0xF6]
    case Float(x) => AdmitsFloat(d, bs, x)
  }

  // ---- a head is read as stated ----

  lemma FromOctets(bs: Bytes)
    ensures |bs| == 1 ==> FromBigEndian(bs) == bs[0]
    ensures |bs| == 2 ==> FromBigEndian(bs) == Two(bs[0], bs[1])
  {
    if |bs| == 2 {
      assert FromBigEndian(bs[..1]) == bs[0];
    }
  }

  lemma FromFourOctets(bs: Bytes)
    requires |bs| == 4
    ensures FromBigEndian(bs) == Four(bs[0], bs[1], bs[2], bs[3])
  {
    FromOctets(bs[..2]);
    assert bs[..3][..2] == bs[..2];
    assert FromBigEndian(bs[..3]) == 256 * FromBigEndian(bs[..2]) + bs[2];
  }

  lemma FromEightOctets(bs: Bytes)
    requires |bs| == 8
    ensures FromBigEndian(bs) == 0x1_0000_0000 * FromBigEndian(bs[..4]) + FromBigEndian(bs[4..])
  {
    FromFourOctets(bs[4..]);
    assert bs[..7][..6] == bs[..6] && bs[..6][..5] == bs[..5] && bs[..5][..4] == bs[..4];
    assert FromBigEndian(bs[..7]) == 256 * FromBigEndian(bs[..6]) + bs[6];
    assert FromBigEndian(bs[..6]) == 256 * FromBigEndian(bs[..5]) + bs[5];
    assert FromBigEndian(bs[..5]) == 256 * FromBigEndian(bs[..4]) + bs[4];
  }

  /** The octets after the first, as one number. */
  lemma StatedNumber(bs: Bytes)
    requires bs != [] && 24 <= bs[0] % 32 < 28 && HeadLength(bs) <= |bs|
    ensures HeadLength(bs) == 1 + Width(bs[0] % 32)
    ensures FromBigEndian(bs[1..][..Width(bs[0] % 32)]) == Announced(bs)
  {
    var more := bs[1..][..Width(bs[0] % 32)];
    hide FromBigEndian;
    FromOctets(more);
    if bs[0] % 32 == 26 {
      FromFourOctets(more);
    } else if bs[0] % 32 == 27 {
      FromEightOctets(more);
      FromFourOctets(more[..4]);
      FromFourOctets(more[4..]);
    }
  }

  /** Every decoder takes a head for the number it states, or refuses it: too short a string, reserved bits,
      and, but for Go, more octets than the number needs. */
  lemma ArgumentRead(d: Decoder, bs: Bytes)
    requires bs != []
    ensures ReadArg(d, bs[0] % 32, bs[1..]) ==
            if bs[0] % 32 < 28 && HeadLength(bs) <= |bs| && (d == Go || Shortest(bs))
            then Some((Announced(bs), bs[HeadLength(bs)..])) else None
  {
    var low := bs[0] % 32;
    if 24 <= low < 28 {
      Pow256Values();
      if HeadLength(bs) <= |bs| {
        StatedNumber(bs);
        hide FromBigEndian;
        assert bs[1..][Width(low)..] == bs[HeadLength(bs)..];
      }
    } else if low < 24 {
      assert bs[1..] == bs[HeadLength(bs)..];
    }
  }

  // ---- floats are read as stated ----

  lemma FormatsInLiterals(b: nat)
    ensures b < 0x8000 ==> Magnitude(F16, b) == HalfMagnitude(b)
    ensures b < 0x8000_0000 ==> Magnitude(F32, b) == SingleMagnitude(b)
    ensures Magnitude(F64, b) == DoubleMagnitude(b)
  {
  }

  /** What is left of a bit pattern without its sign. */
  lemma UnsignedInLiterals(y: nat)
    ensures y < 0x1_0000 ==> Unsigned(F16, y) == y % 0x8000
    ensures y < 0x1_0000_0000 ==> Unsigned(F32, y) == y % 0x8000_0000
    ensures y < U64 ==> Unsigned(F64, y) == y % 0x8000_0000_0000_0000
  {
  }

  lemma HalfStated(h: nat, x: f64bits)
    ensures HalfIs(h, x) <==> IsFinite(x) && Represents(F16, h, x)
  {
    UnsignedInLiterals(h);
    UnsignedInLiterals(x);
    FormatsInLiterals(x % 0x8000_0000_0000_0000);
    FormatsInLiterals(h % 0x8000);
    hide Magnitude, HalfMagnitude, DoubleMagnitude, Unsigned;
  }

  lemma SingleStated(s: nat, x: f64bits)
    ensures SingleIs(s, x) <==> IsFinite(x) && Represents(F32, s, x)
  {
    UnsignedInLiterals(s);
    UnsignedInLiterals(x);
    FormatsInLiterals(x % 0x8000_0000_0000_0000);
    FormatsInLiterals(s % 0x8000_0000);
    hide Magnitude, SingleMagnitude, DoubleMagnitude, Unsigned;
  }

  /** Widening a finite number is the only way to state the same one. */
  lemma WidenStated(y: nat, x: f64bits)
    ensures y < 0x1_0000 && y % 0x8000 < 0x7C00 ==> (HalfIs(y, x) <==> x == Widen(F16, y))
    ensures y < 0x1_0000_0000 && y % 0x8000_0000 < 0x7F80_0000 ==> (SingleIs(y, x) <==> x == Widen(F32, y))
  {
    HalfStated(y, x);
    SingleStated(y, x);
    if y < 0x1_0000 && y % 0x8000 < 0x7C00 {
      WidenExact(F16, y);
      if HalfIs(y, x) { RepresentsIsWiden(F16, y, x); }
    }
    if y < 0x1_0000_0000 && y % 0x8000_0000 < 0x7F80_0000 {
      WidenExact(F32, y);
      if SingleIs(y, x) { RepresentsIsWiden(F32, y, x); }
    }
    hide HalfIs, SingleIs, Magnitude, Nearest, Widen;
  }

  /** Shifting the low bits of `n` up is shifting `n` up and dropping what leaves the field. */
  lemma Shifted(n: nat, step: nat, field: nat)
    requires step > 0 && field > 0
    ensures n * step % (field * step) == n % field * step
  {
    assert n == field * (n / field) + n % field;
    assert n * step == n / field * (field * step) + n % field * step;
    ProductOrder(n % field, field, step);
    Quotient(n * step, field * step, n / field, n % field * step);
  }

  /** The payload field lies below the exponent, so its low bits are those of the whole pattern. */
  lemma PayloadBits(y: nat)
    ensures y % 0x8000 >= 0x7C00 ==> (y % 0x8000 - 0x7C00) % 0x200 == y % 0x200
    ensures y % 0x8000_0000 >= 0x7F80_0000 ==> (y % 0x8000_0000 - 0x7F80_0000) % 0x40_0000 == y % 0x40_0000
  {
    LowBits(y, 0x200, 64, 62);
    LowBits(y, 0x40_0000, 512, 510);
  }

  lemma LowBits(y: nat, field: nat, whole: nat, skipped: nat)
    requires field > 0 && whole > 0
    ensures y % (whole * field) >= skipped * field ==>
              (y % (whole * field) - skipped * field) % field == y % field
  {
    var size := whole * field;
    if y % size >= skipped * field {
      var r := y % size - skipped * field;
      var q := whole * (y / size) + skipped + r / field;
      assert y == size * (y / size) + y % size;
      assert r == r / field * field + r % field;
      assert q * field == size * (y / size) + skipped * field + r / field * field;
      Quotient(y, field, q, r % field);
    }
  }

  lemma HalfSpecialStated(y: nat, x: f64bits)
    requires y < 0x1_0000 && y % 0x8000 >= 0x7C00
    ensures HalfSpecial(y, x) <==> x == Widen(F16, y)
  {
    UnsignedInLiterals(y);
    PayloadBits(y);
    Shifted(y % 0x8000 - 0x7C00, 0x400_0000_0000, 0x200);
    hide Unsigned, Nearest;
  }

  lemma SingleSpecialStated(y: nat, x: f64bits)
    requires y < 0x1_0000_0000 && y % 0x8000_0000 >= 0x7F80_0000
    ensures SingleSpecial(y, x) <==> x == Widen(F32, y)
  {
    UnsignedInLiterals(y);
    PayloadBits(y);
    Shifted(y % 0x8000_0000 - 0x7F80_0000, 0x2000_0000, 0x40_0000);
    hide Unsigned, Nearest;
  }

  lemma NoHalfStated(d: Decoder, x: f64bits)
    requires IsFinite(x)
    ensures FitsHalf(d, x) <==> exists h :: HalfIs(h, x)
    ensures FitsSingle(d, x) <==> exists s :: SingleIs(s, x)
  {
    RoundTripsIffRepresentable(F16, x);
    RoundTripsIffRepresentable(F32, x);
    BothRoundTrips(F16, x);
    BothRoundTrips(F32, x);
    forall y ensures HalfIs(y, x) <==> Represents(F16, y, x) { HalfStated(y, x); }
    forall y ensures SingleIs(y, x) <==> Represents(F32, y, x) { SingleStated(y, x); }
    hide HalfIs, SingleIs, Represents, RoundTrips, SameBitsAt, Magnitude;
    if FitsHalf(d, x) {
      var y :| Represents(F16, y, x);
      assert HalfIs(y, x);
    }
    if FitsSingle(d, x) {
      var y :| Represents(F32, y, x);
      assert SingleIs(y, x);
    }
  }

  /** What each width stands for in each decoder. */
  lemma BitsRead(d: Decoder, info: nat, y: nat, x: f64bits)
    requires 25 <= info <= 27 && y < Pow256(Width(info))
    ensures ReadBits(d, info, y) == Some(x) <==> FloatStated(d, 0xE0 + info, y, x)
  {
    Pow256Values();
    hide HalfIs, SingleIs, HalfSpecial, SingleSpecial, ReadHalf, ReadSingle, ReadDouble, Pow256, FiniteDouble;
    if info == 25 {
      HalfBitsRead(d, y, x);
    } else if info == 26 {
      SingleBitsRead(d, y, x);
    } else {
      DoubleBitsRead(d, y, x);
    }
  }

  lemma DoubleBitsRead(d: Decoder, y: u64, x: f64bits)
    ensures ReadDouble(d, y) == Some(x) <==>
            && y == x
            && (d == Go || (FiniteDouble(x) && (!exists h :: HalfIs(h, x)) && !exists s :: SingleIs(s, x)))
  {
    UnsignedInLiterals(x);
    if IsFinite(x) { NoHalfStated(d, x); }
    hide HalfIs, SingleIs, FitsHalf, FitsSingle, Unsigned;
  }

  lemma HalfBitsRead(d: Decoder, y: nat, x: f64bits)
    ensures y < 0x1_0000 ==> (ReadHalf(d, y) == Some(x) <==> HalfIs(y, x) || (d == Rust && HalfSpecial(y, x)))
  {
    if y < 0x1_0000 {
      UnsignedInLiterals(y);
      GoToFloat64Exact(y);
      if y % 0x8000 < 0x7C00 {
        WidenStated(y, x);
      } else {
        HalfSpecialStated(y, x);
      }
      hide HalfMagnitude, DoubleMagnitude, GoToFloat64, Widen, Unsigned;
    }
  }

  lemma SingleBitsRead(d: Decoder, y: nat, x: f64bits)
    ensures y < 0x1_0000_0000 ==>
              (ReadSingle(d, y) == Some(x) <==>
               && (SingleIs(y, x) || (d == Go && SingleSpecial(y, x)))
               && (d == Go || !exists h :: HalfIs(h, x)))
  {
    if y < 0x1_0000_0000 {
      UnsignedInLiterals(y);
      if y % 0x8000_0000 < 0x7F80_0000 {
        WidenStated(y, x);
        WidenExact(F32, y);
        NoHalfStated(d, Widen(F32, y));
      } else {
        SingleSpecialStated(y, x);
      }
      hide HalfIs, SingleMagnitude, DoubleMagnitude, Widen, Unsigned, FitsHalf, Represents;
    }
  }

  lemma FloatRead(d: Decoder, bs: Bytes, x: f64bits, rest: Bytes)
    requires bs != [] && bs[0] / 32 == 7
    ensures ReadFloat(d, bs[0] % 32, bs[1..]) == Some((Float(x), rest)) <==>
            HeadLength(bs) <= |bs| && rest == bs[HeadLength(bs)..] && AdmitsFloat(d, bs[..HeadLength(bs)], x)
  {
    hide FromBigEndian, ReadBits, FloatStated;
    var low := bs[0] % 32;
    if 25 <= low < 28 && HeadLength(bs) <= |bs| {
      var front := bs[..HeadLength(bs)];
      StatedNumber(bs);
      assert Announced(front) == Announced(bs);
      BitsRead(d, low, Announced(bs), x);
      assert bs[1..][Width(low)..] == bs[HeadLength(bs)..];
    }
  }

  // ---- what is read is admitted ----

  /** Octets `bs` without their last `count`. */
  function Without(bs: Bytes, count: nat): Bytes
    requires count <= |bs|
  {
    bs[..|bs| - count]
  }

  /** A head is judged by itself, whatever follows it. */
  lemma HeadedLocal(d: Decoder, bs: Bytes, front: Bytes, base: nat, n: nat)
    requires bs != [] && HeadLength(bs) <= |front| && front <= bs
    ensures Headed(d, front, base, n) <==> Headed(d, bs, base, n)
    ensures HeadLength(front) == HeadLength(bs)
  {
  }

  lemma {:induction false} ReadAdmitted(d: Decoder, bs: Bytes)
    requires ReadValue(d, bs).Some?
    ensures var r := ReadValue(d, bs).value;
            bs == Without(bs, |r.1|) + r.1 && Admits(d, Without(bs, |r.1|), r.0)
    decreases |bs|, 0, 2
  {
    hide Headed, AdmitsFloat, ReadFloat, ReadArg, ValidUtf8, ReadItems, ReadPairs;
    var v, rest := ReadValue(d, bs).value.0, ReadValue(d, bs).value.1;
    if bs[0] in {0xF4, 0xF5, 0xF6} {
      assert bs == [bs[0]] + rest;
    } else if bs[0] / 32 == 7 {
      FloatRead(d, bs, v.bits, rest);
      assert Without(bs, |rest|) == bs[..HeadLength(bs)];
    } else {
      HeadedValueAdmitted(d, bs);
    }
  }

  /** The major types with a head that states a number or a length. */
  lemma {:induction false} HeadedValueAdmitted(d: Decoder, bs: Bytes)
    requires ReadValue(d, bs).Some? && bs[0] / 32 != 7
    ensures var r := ReadValue(d, bs).value;
            bs == Without(bs, |r.1|) + r.1 && Admits(d, Without(bs, |r.1|), r.0)
    decreases |bs|, 0, 1
  {
    hide ReadArg, ValidUtf8, ReadItems, ReadPairs, Announced, Admits, HeadLength;
    ArgumentRead(d, bs);
    var v := ReadValue(d, bs).value.0;
    if v.Array? {
      ArrayAdmitted(d, bs, bs[HeadLength(bs)..]);
    } else if v.Map? {
      MapAdmitted(d, bs, bs[HeadLength(bs)..]);
    } else {
      StringAdmitted(d, bs, v, ReadValue(d, bs).value.1);
    }
  }

  lemma StringAdmitted(d: Decoder, bs: Bytes, v: CborValue, rest: Bytes)
    requires ReadValue(d, bs) == Some((v, rest)) && bs[0] / 32 != 7 && !v.Array? && !v.Map?
    ensures bs == Without(bs, |rest|) + rest && Admits(d, Without(bs, |rest|), v)
  {
    hide ReadArg, ValidUtf8, ReadItems, ReadPairs, Announced, Shortest, Admits;
    ArgumentRead(d, bs);
    var body := bs[HeadLength(bs)..];
    hide HeadLength;
    match v {
      case Uint(n) => NumberAdmitted(d, bs, n);
      case ByteString(b) => TakenAdmitted(d, bs, b, rest, false);
      case Text(t) => TakenAdmitted(d, bs, t, rest, true);
    }
  }

  lemma NumberAdmitted(d: Decoder, bs: Bytes, n: u64)
    requires Headed(d, bs, 0x00, n)
    ensures var rest := bs[HeadLength(bs)..];
            bs == Without(bs, |rest|) + rest && Admits(d, Without(bs, |rest|), Uint(n))
  {
    hide Announced, Shortest;
    HeadedLocal(d, bs, bs[..HeadLength(bs)], 0x00, n);
  }

  lemma TakenAdmitted(d: Decoder, bs: Bytes, s: Bytes, rest: Bytes, text: bool)
    requires Headed(d, bs, if text then 0x60 else 0x40, |s|) && bs[HeadLength(bs)..] == s + rest
    requires text ==> ValidUtf8(s)
    ensures bs == Without(bs, |rest|) + rest
    ensures Admits(d, Without(bs, |rest|), if text then Text(s) else ByteString(s))
  {
    hide Announced, Shortest, ValidUtf8;
    assert bs == bs[..HeadLength(bs)] + (s + rest);
    var front := Without(bs, |rest|);
    HeadedLocal(d, bs, front, if text then 0x60 else 0x40, |s|);
    assert front[HeadLength(bs)..] == s;
  }

  lemma {:induction false} ArrayAdmitted(d: Decoder, bs: Bytes, body: Bytes)
    requires bs != [] && HeadLength(bs) <= |bs| && body == bs[HeadLength(bs)..]
    requires Headed(d, bs, 0x80, Announced(bs)) && ReadItems(d, Announced(bs), body).Some?
    ensures var r := ReadItems(d, Announced(bs), body).value;
            bs == Without(bs, |r.1|) + r.1 && Admits(d, Without(bs, |r.1|), Array(r.0))
    decreases |bs|, 0, 0
  {
    hide ReadItems, Headed, Announced, AdmitsItems;
    var r := ReadItems(d, Announced(bs), body).value;
    var parts := ReadItemsAdmitted(d, Announced(bs), body);
    var front := Without(bs, |r.1|);
    HeadedLocal(d, bs, front, 0x80, Announced(bs));
    assert bs == bs[..HeadLength(bs)] + body;
    assert front[HeadLength(bs)..] == Joined(parts);
  }

  lemma {:induction false} MapAdmitted(d: Decoder, bs: Bytes, body: Bytes)
    requires bs != [] && HeadLength(bs) <= |bs| && body == bs[HeadLength(bs)..]
    requires Headed(d, bs, 0xA0, Announced(bs)) && ReadPairs(d, Announced(bs), None, body).Some?
    ensures var r := ReadPairs(d, Announced(bs), None, body).value;
            bs == Without(bs, |r.1|) + r.1 && Admits(d, Without(bs, |r.1|), Map(r.0))
    decreases |bs|, 0, 0
  {
    hide ReadPairs, Headed, Announced, AdmitsPairs;
    var r := ReadPairs(d, Announced(bs), None, body).value;
    var keys, values := ReadPairsAdmitted(d, Announced(bs), None, body);
    var front := Without(bs, |r.1|);
    HeadedLocal(d, bs, front, 0xA0, Announced(bs));
    assert bs == bs[..HeadLength(bs)] + body;
    assert front[HeadLength(bs)..] == Alternating(keys, values);
  }

  lemma {:induction false} ReadItemsAdmitted(d: Decoder, count: nat, bs: Bytes) returns (parts: seq<Bytes>)
    requires ReadItems(d, count, bs).Some?
    ensures var r := ReadItems(d, count, bs).value;
            bs == Joined(parts) + r.1 && AdmitsItems(d, parts, r.0)
    decreases |bs|, 1
  {
    hide Admits, AdmitsItems, Joined, ReadValue, Without;
    if count == 0 {
      parts := [];
      NothingAdmitted(d);
    } else {
      ReadAdmitted(d, bs);
      var head := ReadValue(d, bs).value;
      var tail := ReadItems(d, count - 1, head.1).value;
      var more := ReadItemsAdmitted(d, count - 1, head.1);
      var first := Without(bs, |head.1|);
      parts := [first] + more;
      JoinedStep(first, more);
      ItemAdmitted(d, first, head.0, more, tail.0);
      assert first + (Joined(more) + tail.1) == first + Joined(more) + tail.1;
    }
  }

  lemma NothingAdmitted(d: Decoder)
    ensures Joined([]) == [] && AdmitsItems(d, [], [])
    ensures Alternating([], []) == [] && AdmitsPairs(d, [], [], [])
  {
  }

  lemma {:induction false} ReadPairsAdmitted(d: Decoder, count: nat, prior: Option<Bytes>, bs: Bytes)
    returns (keys: seq<Bytes>, values: seq<Bytes>)
    requires ReadPairs(d, count, prior, bs).Some?
    ensures var r := ReadPairs(d, count, prior, bs).value;
            && |keys| == |values| && bs == Alternating(keys, values) + r.1
            && AdmitsPairs(d, keys, values, r.0)
            && (d == Python && prior.Some? && keys != [] ==> Less(prior.value, keys[0]))
    decreases |bs|, 2
  {
    hide Admits, Less, AdmitsText, ReadValue, ReadKey, AdmitsPairs, Alternating, Without;
    if count == 0 {
      keys, values := [], [];
      assert ReadPairs(d, count, prior, bs).value == ([], bs);
      NothingAdmitted(d);
    } else {
      var key := ReadKey(d, prior, bs).value;
      KeyAdmitted(d, prior, bs);
      ReadAdmitted(d, key.rest);
      var value := ReadValue(d, key.rest).value;
      var moreKeys, moreValues := ReadPairsAdmitted(d, count - 1, Some(key.encoded), value.1);
      var first := Without(key.rest, |value.1|);
      keys, values := [key.encoded] + moreKeys, [first] + moreValues;
      var tail := ReadPairs(d, count - 1, Some(key.encoded), value.1).value.0;
      AlternatingStep(key.encoded, first, moreKeys, moreValues);
      PairAdmitted(d, key.encoded, first, (key.text, value.0), moreKeys, moreValues, tail);
      Regrouped(key.encoded, first, Alternating(moreKeys, moreValues),
                ReadPairs(d, count - 1, Some(key.encoded), value.1).value.1);
    }
  }

  lemma Regrouped(a: Bytes, b: Bytes, c: Bytes, r: Bytes)
    ensures a + (b + (c + r)) == a + b + c + r
  {
  }

  lemma PairAdmitted(d: Decoder, key: Bytes, value: Bytes, pair: Pair, keys: seq<Bytes>, values: seq<Bytes>,
                     pairs: seq<Pair>)
    requires AdmitsText(d, key, pair.0) && Admits(d, value, pair.1) && AdmitsPairs(d, keys, values, pairs)
    requires d == Python && keys != [] ==> Less(key, keys[0])
    ensures AdmitsPairs(d, [key] + keys, [value] + values, [pair] + pairs)
  {
    hide AdmitsText, Admits, Less, Ascends;
    if d == Python { AscendsStep(key, keys); }
  }

  lemma AscendsStep(key: Bytes, keys: seq<Bytes>)
    requires Ascends(keys) && (keys != [] ==> Less(key, keys[0]))
    ensures Ascends([key] + keys)
  {
    hide Less;
    var all := [key] + keys;
    forall i | 0 < i < |all| ensures Less(all[i - 1], all[i]) {
      if i > 1 { assert Less(keys[i - 2], keys[i - 1]); }
    }
  }

  lemma AlternatingStep(key: Bytes, value: Bytes, keys: seq<Bytes>, values: seq<Bytes>)
    requires |keys| == |values|
    ensures Alternating([key] + keys, [value] + values) == key + value + Alternating(keys, values)
  {
    assert ([key] + keys)[1..] == keys && ([value] + values)[1..] == values;
  }

  lemma JoinedStep(part: Bytes, parts: seq<Bytes>)
    ensures Joined([part] + parts) == part + Joined(parts)
  {
    assert ([part] + parts)[1..] == parts;
  }

  lemma ItemAdmitted(d: Decoder, part: Bytes, item: CborValue, parts: seq<Bytes>, items: seq<CborValue>)
    requires Admits(d, part, item) && AdmitsItems(d, parts, items)
    ensures AdmitsItems(d, [part] + parts, [item] + items)
  {
    hide Admits;
  }

  lemma {:induction false} KeyAdmitted(d: Decoder, prior: Option<Bytes>, bs: Bytes)
    requires ReadKey(d, prior, bs).Some?
    ensures var key := ReadKey(d, prior, bs).value;
            && bs == key.encoded + key.rest && AdmitsText(d, key.encoded, key.text)
            && (d == Python && prior.Some? ==> Less(prior.value, key.encoded))
    decreases |bs|, 1
  {
    hide AdmitsText, Less;
    ReadAdmitted(d, bs);
  }

  // ---- what is admitted is read ----

  lemma HeadedRead(d: Decoder, bs: Bytes, base: nat, n: nat, rest: Bytes)
    requires Headed(d, bs, base, n) && base % 32 == 0
    ensures (bs + rest)[0] / 32 == base / 32
    ensures ReadArg(d, (bs + rest)[0] % 32, (bs + rest)[1..]) == Some((n, bs[HeadLength(bs)..] + rest))
  {
    hide ReadArg, Shortest, Announced;
    HeadedLocal(d, bs + rest, bs, base, n);
    ArgumentRead(d, bs + rest);
    assert (bs + rest)[HeadLength(bs)..] == bs[HeadLength(bs)..] + rest;
  }

  lemma {:induction false} AdmittedRead(d: Decoder, bs: Bytes, v: CborValue, rest: Bytes)
    requires Admits(d, bs, v)
    ensures ReadValue(d, bs + rest) == Some((v, rest))
    decreases v, 1
  {
    hide Headed, AdmitsFloat, ReadFloat, ReadArg, ValidUtf8, ReadItems, ReadPairs;
    match v {
      case Uint(n) => NumberRead(d, bs, n, rest);
      case ByteString(b) => StringRead(d, bs, v, rest);
      case Text(t) => StringRead(d, bs, v, rest);
      case Array(items) => ArrayRead(d, bs, items, v, rest);
      case Map(pairs) => MapRead(d, bs, pairs, v, rest);
      case Bool(b) => assert (bs + rest)[1..] == rest;
      case Null => assert (bs + rest)[1..] == rest;
      case Float(x) => FloatReadBack(d, bs, x, rest);
    }
  }

  lemma NumberRead(d: Decoder, bs: Bytes, n: u64, rest: Bytes)
    requires Admits(d, bs, Uint(n))
    ensures ReadValue(d, bs + rest) == Some((Uint(n), rest))
  {
    hide ReadArg, Announced, Shortest;
    HeadedRead(d, bs, 0x00, n, rest);
    assert bs[HeadLength(bs)..] + rest == rest;
  }

  lemma StringRead(d: Decoder, bs: Bytes, v: CborValue, rest: Bytes)
    requires Admits(d, bs, v) && (v.ByteString? || v.Text?)
    ensures ReadValue(d, bs + rest) == Some((v, rest))
  {
    hide ReadArg, ValidUtf8, Announced, Shortest;
    var base := if v.Text? then 0x60 else 0x40;
    var s := bs[HeadLength(bs)..];
    HeadedRead(d, bs, base, |s|, rest);
    assert (s + rest)[..|s|] == s && (s + rest)[|s|..] == rest;
  }

  lemma FloatReadBack(d: Decoder, bs: Bytes, x: f64bits, rest: Bytes)
    requires AdmitsFloat(d, bs, x)
    ensures ReadValue(d, bs + rest) == Some((Float(x), rest))
  {
    hide FloatStated, ReadFloat, ReadArg;
    FloatRead(d, bs + rest, x, rest);
    assert (bs + rest)[..|bs|] == bs && (bs + rest)[|bs|..] == rest;
  }

  lemma {:induction false} ArrayRead(d: Decoder, bs: Bytes, items: seq<CborValue>, v: CborValue, rest: Bytes)
    requires v == Array(items) && Admits(d, bs, v)
    ensures ReadValue(d, bs + rest) == Some((v, rest))
    decreases v, 0, |items| + 1
  {
    hide ReadArg, ReadItems, AdmitsItems, Announced, Shortest, Joined;
    HeadedRead(d, bs, 0x80, |items|, rest);
    var parts :| bs[HeadLength(bs)..] == Joined(parts) && AdmitsItems(d, parts, items);
    ItemsRead(d, parts, items, v, rest);
  }

  lemma {:induction false} ItemsRead(d: Decoder, parts: seq<Bytes>, items: seq<CborValue>, v: CborValue, rest: Bytes)
    requires AdmitsItems(d, parts, items) && forall i :: 0 <= i < |items| ==> items[i] < v
    ensures ReadItems(d, |items|, Joined(parts) + rest) == Some((items, rest))
    decreases v, 0, |items|
  {
    hide Admits, ReadValue;
    if items == [] {
      assert Joined(parts) + rest == rest;
    } else {
      var more := Joined(parts[1..]) + rest;
      assert Joined(parts) + rest == parts[0] + more;
      AdmittedRead(d, parts[0], items[0], more);
      ItemsRead(d, parts[1..], items[1..], v, rest);
      assert items == [items[0]] + items[1..];
    }
  }

  lemma {:induction false} MapRead(d: Decoder, bs: Bytes, pairs: seq<Pair>, v: CborValue, rest: Bytes)
    requires v == Map(pairs) && Admits(d, bs, v)
    ensures ReadValue(d, bs + rest) == Some((v, rest))
    decreases v, 0, |pairs| + 1
  {
    hide ReadArg, ReadPairs, AdmitsPairs, Announced, Shortest, Alternating;
    HeadedRead(d, bs, 0xA0, |pairs|, rest);
    var keys, values :| |keys| == |values| && bs[HeadLength(bs)..] == Alternating(keys, values)
                        && AdmitsPairs(d, keys, values, pairs);
    PairsRead(d, keys, values, pairs, None, v, rest);
  }

  lemma {:induction false} PairsRead(d: Decoder, keys: seq<Bytes>, values: seq<Bytes>, pairs: seq<Pair>,
                                     prior: Option<Bytes>, v: CborValue, rest: Bytes)
    requires |keys| == |values| && AdmitsPairs(d, keys, values, pairs)
    requires forall i :: 0 <= i < |pairs| ==> pairs[i].1 < v
    requires d == Python && prior.Some? && keys != [] ==> Less(prior.value, keys[0])
    ensures ReadPairs(d, |pairs|, prior, Alternating(keys, values) + rest) == Some((pairs, rest))
    decreases v, 0, |pairs|
  {
    hide Admits, AdmitsText, AdmitsPairs, Alternating, ReadValue, ReadKey, Less;
    if pairs == [] {
      NoEntries(d, keys, values);
      assert Alternating(keys, values) + rest == rest;
    } else {
      PairsTail(d, keys, values, pairs);
      var more := Alternating(keys[1..], values[1..]) + rest;
      AlternatingStep(keys[0], values[0], keys[1..], values[1..]);
      Regrouped(keys[0], values[0], Alternating(keys[1..], values[1..]), rest);
      KeyRead(d, prior, keys[0], pairs[0].0, values[0] + more);
      AdmittedRead(d, values[0], pairs[0].1, more);
      PairsRead(d, keys[1..], values[1..], pairs[1..], Some(keys[0]), v, rest);
      assert pairs == [pairs[0]] + pairs[1..];
    }
  }

  lemma NoEntries(d: Decoder, keys: seq<Bytes>, values: seq<Bytes>)
    requires AdmitsPairs(d, keys, values, [])
    ensures keys == [] && values == [] && Alternating(keys, values) == []
  {
  }

  /** The first entry and the others. */
  lemma PairsTail(d: Decoder, keys: seq<Bytes>, values: seq<Bytes>, pairs: seq<Pair>)
    requires AdmitsPairs(d, keys, values, pairs) && pairs != []
    ensures |keys| == |values| == |pairs| && AdmitsText(d, keys[0], pairs[0].0) && Admits(d, values[0], pairs[0].1)
    ensures AdmitsPairs(d, keys[1..], values[1..], pairs[1..])
    ensures d == Python && |keys| > 1 ==> Less(keys[0], keys[1])
    ensures keys == [keys[0]] + keys[1..] && values == [values[0]] + values[1..]
  {
    hide Admits, AdmitsText, Less;
  }

  lemma KeyRead(d: Decoder, prior: Option<Bytes>, key: Bytes, text: Bytes, rest: Bytes)
    requires AdmitsText(d, key, text) && (d == Python && prior.Some? ==> Less(prior.value, key))
    ensures ReadKey(d, prior, key + rest) == Some(Cbor.KeyRead(text, key, rest))
  {
    StringRead(d, key, Text(text), rest);
    hide AdmitsText, ReadValue, Less;
    assert (key + rest)[..|key + rest| - |rest|] == key;
  }

  // ---- the grammar decides ----

  /** A decoder answers `v` exactly on the octets the grammar has for `v`. */
  lemma DecodesIffAdmitted(d: Decoder, bs: Bytes, v: CborValue)
    ensures Decode(d, bs) == Some(v) <==> Admits(d, bs, v)
  {
    hide ReadValue, Admits;
    if Decode(d, bs) == Some(v) {
      ReadAdmitted(d, bs);
      assert Without(bs, 0) == bs;
    }
    if Admits(d, bs, v) {
      AdmittedRead(d, bs, v, []);
      assert bs + [] == bs;
    }
  }

  /** An encoding is written in the grammar, for its normal form, whichever decoder reads it. */
  lemma EncodingAdmitted(d: Decoder, v: CborValue)
    requires Readable(d, v)
    ensures Admits(d, Encode(v), Normalise(v))
  {
    ReadEncode(d, v, []);
    assert Encode(v) + [] == Encode(v);
    DecodesIffAdmitted(d, Encode(v), Normalise(v));
  }

  /** What the first octets of an encoding say, and the contents of a string behind them. */
  lemma EncodedHead(v: CborValue)
    requires Encodable(v)
    ensures var bs := Encode(v);
            match v
            case Uint(n) => 0x00 <= bs[0] <= 0x1B && |bs| == HeadLength(bs) && Announced(bs) == n && Shortest(bs)
            case ByteString(b) =>
              && 0x40 <= bs[0] <= 0x5B && HeadLength(bs) <= |bs| && Announced(bs) == |b| && Shortest(bs)
              && bs[HeadLength(bs)..] == b
            case Text(t) =>
              && 0x60 <= bs[0] <= 0x7B && HeadLength(bs) <= |bs| && Announced(bs) == |t| && Shortest(bs)
              && bs[HeadLength(bs)..] == t
            case Array(items) =>
              && 0x80 <= bs[0] <= 0x9B && HeadLength(bs) <= |bs| && Announced(bs) == |items| && Shortest(bs)
            case Map(pairs) =>
              && 0xA0 <= bs[0] <= 0xBB && HeadLength(bs) <= |bs| && Announced(bs) == |pairs| && Shortest(bs)
            case Bool(b) => bs == [if b then 0xF5 else 0xF4]
            case Null => bs == [0xF6]
            case Float(x) =>
              && 0xF9 <= bs[0] <= 0xFB && |bs| == HeadLength(bs)
              && FloatStated(RustChecked, bs[0], Announced(bs), x)
  {
    EncodingAdmitted(RustChecked, v);
    hide Encode, Announced, Shortest, HeadLength, FloatStated;
  }

  /** The entries of a map come shorter keys first, keys of one length by their octets, repeated keys as listed. */
  lemma NormalOrder(pairs: seq<Pair>) returns (order: seq<nat>)
    requires WellFormed(Map(pairs))
    ensures |order| == |pairs| && forall i: nat :: i in order <==> i < |pairs|
    ensures var sorted := Normalise(Map(pairs));
            && sorted.Map? && |sorted.pairs| == |pairs|
            && forall p :: 0 <= p < |order| ==>
                 order[p] < |pairs| && sorted.pairs[p] == (pairs[order[p]].0, Normalise(pairs[order[p]].1))
    ensures forall p, q :: 0 <= p < q < |order| ==>
              && order[p] < |pairs| && order[q] < |pairs|
              && var a, b := pairs[order[p]].0, pairs[order[q]].0;
                 || |a| < |b| || (|a| == |b| && Less(a, b)) || (a == b && order[p] < order[q])
  {
    var keys := Keys(pairs);
    order := Order(KeyLess, keys);
    KeyLessIsStrictOrder();
    OrderIsStable(KeyLess, keys);
    SortedNormalPairs(pairs);
    SortSameKeys(KeyLess, pairs, pairs);
    forall p, q | 0 <= p < q < |order|
      ensures var a, b := pairs[order[p]].0, pairs[order[q]].0;
              || |a| < |b| || (|a| == |b| && Less(a, b)) || (a == b && order[p] < order[q])
    {
      assert Before(KeyLess, keys, order[p], order[q]);
      KeyOrder(keys[order[p]], keys[order[q]]);
    }
    hide Order, KeyLess, Normalise, Less, ValidUtf8;
  }
}
