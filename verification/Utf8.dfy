/** Text validity: `ValidUtf8` accepts exactly the octets of Unicode scalar values, one after the other. */
module Utf8 {
  import opened ByteStrings

  /** Unicode scalar values: every code point but the surrogates. */
  predicate Scalar(c: nat) { c < 0xD800 || 0xE000 <= c < 0x11_0000 }

  ghost predicate Scalars(cs: seq<nat>) { forall i :: 0 <= i < |cs| ==> Scalar(cs[i]) }

  /** The UTF-8 octets of one scalar value (section 3 of RFC 3629). */
  function Octets(c: nat): (r: Bytes)
    requires Scalar(c)
    ensures r != []
  {
    if c < 0x80 then [c]
    else if c < 0x800 then [0xC0 + c / 64, 0x80 + c % 64]
    else if c < 0x1_0000 then [0xE0 + c / 4096, 0x80 + c / 64 % 64, 0x80 + c % 64]
    else [0xF0 + c / 262144, 0x80 + c / 4096 % 64, 0x80 + c / 64 % 64, 0x80 + c % 64]
  }

  function Written(cs: seq<nat>): Bytes
    requires Scalars(cs)
  {
    if cs == [] then [] else Octets(cs[0]) + Written(cs[1..])
  }

  lemma Split(q: nat, r: nat)
    requires r < 64
    ensures (64 * q + r) / 64 == q && (64 * q + r) % 64 == r
  {
  }

  lemma DividedTwice(c: nat)
    ensures c / 4096 == c / 64 / 64 && c / 262144 == c / 64 / 64 / 64
  {
  }

  /** Base-64 digits are what division gives back. */
  function Number(h: nat, x: nat, y: nat, z: nat): (c: nat)
    requires x < 64 && y < 64 && z < 64
    ensures c / 262144 == h && c / 4096 == 64 * h + x && c / 64 == 4096 * h + 64 * x + y
    ensures c / 4096 % 64 == x && c / 64 % 64 == y && c % 64 == z
  {
    Split(h, x);
    Split(64 * h + x, y);
    Split(64 * (64 * h + x) + y, z);
    DividedTwice(64 * (64 * (64 * h + x) + y) + z);
    64 * (64 * (64 * h + x) + y) + z
  }

  lemma PairIsScalar(a: byte, b: byte) returns (c: nat)
    requires Utf8Step([a, b]) == 2
    ensures Scalar(c) && Octets(c) == [a, b]
  {
    c := Number(0, 0, a - 0xC0, b - 0x80);
  }

  lemma TripleIsScalar(a: byte, b: byte, d: byte) returns (c: nat)
    requires Utf8Step([a, b, d]) == 3
    ensures Scalar(c) && Octets(c) == [a, b, d]
  {
    c := Number(0, a - 0xE0, b - 0x80, d - 0x80);
  }

  lemma QuadIsScalar(a: byte, b: byte, d: byte, e: byte) returns (c: nat)
    requires Utf8Step([a, b, d, e]) == 4
    ensures Scalar(c) && Octets(c) == [a, b, d, e]
  {
    c := Number(a - 0xF0, b - 0x80, d - 0x80, e - 0x80);
  }

  /** A well-formed sequence is the octets of a scalar value. */
  lemma StepIsScalar(s: Bytes) returns (c: nat)
    requires Utf8Step(s) > 0
    ensures Scalar(c) && s[..Utf8Step(s)] == Octets(c)
  {
    var n := Utf8Step(s);
    if n == 1 {
      c := s[0];
    } else if n == 2 {
      c := PairIsScalar(s[0], s[1]);
    } else if n == 3 {
      c := TripleIsScalar(s[0], s[1], s[2]);
    } else {
      c := QuadIsScalar(s[0], s[1], s[2], s[3]);
    }
  }

  /** The octets of a scalar value are a well-formed sequence, whatever follows. */
  lemma ScalarIsStep(c: nat, rest: Bytes)
    requires Scalar(c)
    ensures Utf8Step(Octets(c) + rest) == |Octets(c)|
  {
    OctetsWellFormed(c);
    var o, s := Octets(c), Octets(c) + rest;
    hide Octets;
    assert s[0] == o[0];
    assert forall i :: 0 <= i < |o| ==> s[i] == o[i];
  }

  /** The octets of a scalar value fit the table of well-formed sequences. */
  lemma OctetsWellFormed(c: nat)
    requires Scalar(c)
    ensures var o := Octets(c);
            && |o| <= 4 && (forall i :: 0 < i < |o| ==> Continuation(o[i]))
            && (|o| == 1 ==> o[0] < 0x80) && (|o| == 2 ==> 0xC2 <= o[0] < 0xE0)
            && (|o| == 3 ==> 0xE0 <= o[0] < 0xF0 && (o[0] == 0xE0 ==> o[1] >= 0xA0) && (o[0] == 0xED ==> o[1] < 0xA0))
            && (|o| == 4 ==> 0xF0 <= o[0] < 0xF5 && (o[0] == 0xF0 ==> o[1] >= 0x90) && (o[0] == 0xF4 ==> o[1] < 0x90))
  {
    DividedTwice(c);
  }

  lemma {:induction false} ScalarsOf(s: Bytes) returns (cs: seq<nat>)
    requires ValidUtf8(s)
    ensures Scalars(cs) && Written(cs) == s
    decreases |s|
  {
    hide Octets, Utf8Step, Scalar;
    if s == [] {
      cs := [];
    } else {
      var n := Utf8Step(s);
      var c := StepIsScalar(s);
      var more := ScalarsOf(s[n..]);
      cs := [c] + more;
      assert cs[1..] == more && s == s[..n] + s[n..];
    }
  }

  lemma {:induction false} WrittenIsValid(cs: seq<nat>)
    requires Scalars(cs)
    ensures ValidUtf8(Written(cs))
  {
    if cs != [] {
      WrittenIsValid(cs[1..]);
      ScalarIsStep(cs[0], Written(cs[1..]));
      assert Written(cs)[|Octets(cs[0])|..] == Written(cs[1..]);
    }
  }

  /** Exactly the octet strings that write a list of scalar values are valid. */
  lemma ValidIffWritten(s: Bytes)
    ensures ValidUtf8(s) <==> exists cs :: Scalars(cs) && Written(cs) == s
  {
    if ValidUtf8(s) {
      var cs := ScalarsOf(s);
    } else if cs :| Scalars(cs) && Written(cs) == s {
      WrittenIsValid(cs);
    }
  }
}
