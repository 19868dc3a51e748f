/** Hexadecimal text of octets, and the `blake3:` form hashes are stored in. */
module Hex {
  import opened ByteStrings
  import opened Receipts

  function HexDigit(n: nat): (c: byte)
    requires n < 16
    ensures 48 <= c < 58 || 97 <= c < 103
  {
    if n < 10 then 48 + n else 87 + n
  }

  /** A digit of either case, as the hex reader takes it. */
  function DigitValue(c: byte): (n: Option<nat>)
    ensures n.Some? ==> n.value < 16
  {
    if 48 <= c < 58 then Some(c - 48)
    else if 97 <= c < 103 then Some(c - 87)
    else if 65 <= c < 71 then Some(c - 55)
    else None
  }

  /** `hex::encode` */
  function HexText(bs: Bytes): (t: Bytes)
    ensures |t| == 2 * |bs|
  {
    if bs == [] then [] else [HexDigit(bs[0] / 16), HexDigit(bs[0] % 16)] + HexText(bs[1..])
  }

  /** `hex::decode` */
  function FromHex(t: Bytes): (bs: Option<Bytes>)
    ensures bs.Some? ==> |t| == 2 * |bs.value|
  {
    if t == [] then Some([])
    else if |t| == 1 then None
    else
      var high, low, rest := DigitValue(t[0]), DigitValue(t[1]), FromHex(t[2..]);
      if high.None? || low.None? || rest.None? then None
      else Some([16 * high.value + low.value] + rest.value)
  }

  lemma DigitRoundTrip(n: nat)
    requires n < 16
    ensures DigitValue(HexDigit(n)) == Some(n)
  {
  }

  lemma {:induction false} HexRoundTrip(bs: Bytes)
    ensures FromHex(HexText(bs)) == Some(bs)
  {
    if bs != [] {
      HexRoundTrip(bs[1..]);
      DigitRoundTrip(bs[0] / 16);
      DigitRoundTrip(bs[0] % 16);
      assert HexText(bs)[2..] == HexText(bs[1..]);
      assert bs == [bs[0]] + bs[1..];
    }
  }

  /** `is_lower_hex` */
  predicate IsLowerHex(t: Bytes, length: nat) {
    |t| == length && forall i :: 0 <= i < |t| ==> 48 <= t[i] < 58 || 97 <= t[i] < 103
  }

  lemma {:induction false} HexTextIsLowerHex(bs: Bytes)
    ensures IsLowerHex(HexText(bs), 2 * |bs|)
  {
    if bs != [] {
      HexTextIsLowerHex(bs[1..]);
    }
  }

  const BLAKE3_PREFIX := Ascii("blake3:")

  /** `encode_blake3_prefixed`, and the format the enrichment block is built with. */
  function Prefixed(hash: Digest): Bytes { BLAKE3_PREFIX + HexText(hash) }

  function StripPrefix(t: Bytes, prefix: Bytes): Bytes {
    if |t| >= |prefix| && t[..|prefix|] == prefix then t[|prefix|..] else t
  }

  /** `parse_blake3_prefixed_hash`, `decode_blake3_prefixed`: the prefix is optional. */
  function ParsePrefixed(t: Bytes): (hash: Option<Digest>) {
    var bytes := FromHex(StripPrefix(t, BLAKE3_PREFIX));
    if bytes.Some? && |bytes.value| == HASH_LEN then Some(bytes.value) else None
  }

  lemma PrefixedRoundTrip(hash: Digest)
    ensures ParsePrefixed(Prefixed(hash)) == Some(hash)
  {
    HexRoundTrip(hash);
    assert Prefixed(hash)[|BLAKE3_PREFIX|..] == HexText(hash);
  }

  /** Two lower-case digits for every octet, the high half first. */
  ghost predicate HexOf(t: Bytes, bs: Bytes) {
    && |t| == 2 * |bs|
    && forall i :: 0 <= i < |bs| ==> LowerDigit(t[2 * i], bs[i] / 16) && LowerDigit(t[2 * i + 1], bs[i] % 16)
  }

  /** `c` is the digit of `n`: '0' to '9', then 'a' to 'f'. */
  predicate LowerDigit(c: byte, n: nat) { (n < 10 && c == 48 + n) || (10 <= n < 16 && c == 97 + (n - 10)) }

  lemma {:induction false} HexTextIs(bs: Bytes)
    ensures HexOf(HexText(bs), bs)
  {
    if bs != [] {
      HexTextIs(bs[1..]);
      var t, more := HexText(bs), HexText(bs[1..]);
      forall i | 0 < i < |bs| ensures LowerDigit(t[2 * i], bs[i] / 16) && LowerDigit(t[2 * i + 1], bs[i] % 16) {
        assert t[2 * i] == more[2 * (i - 1)] && t[2 * i + 1] == more[2 * (i - 1) + 1] && bs[1..][i - 1] == bs[i];
        assert LowerDigit(more[2 * (i - 1)], bs[1..][i - 1] / 16);
      }
    }
  }

  /** A stored hash is "blake3:" and sixty-four lower-case digits. */
  lemma PrefixedIs(hash: Digest)
    ensures var t := Prefixed(hash);
            |t| == 71 && t[..7] == [98, 108, 97, 107, 101, 51, 58] && HexOf(t[7..], hash)
  {
    HexTextIs(hash);
    assert BLAKE3_PREFIX == [98, 108, 97, 107, 101, 51, 58];
    assert Prefixed(hash)[7..] == HexText(hash);
  }

  /** `c` is a digit of either case for `n`. */
  predicate EitherDigit(c: byte, n: int) {
    (48 <= c <= 57 && n == c - 48) || (97 <= c <= 102 && n == c - 87) || (65 <= c <= 70 && n == c - 55)
  }

  /** Two digits of either case for every octet, the high half first. */
  ghost predicate Spells(t: Bytes, bs: Bytes) {
    && |t| == 2 * |bs|
    && forall i :: 0 <= i < |bs| ==> EitherDigit(t[2 * i], bs[i] / 16) && EitherDigit(t[2 * i + 1], bs[i] % 16)
  }

  lemma {:induction false} FromHexIff(t: Bytes, bs: Bytes)
    ensures FromHex(t) == Some(bs) <==> Spells(t, bs)
    decreases |t|
  {
    if |t| >= 2 && bs != [] {
      FromHexIff(t[2..], bs[1..]);
      assert bs == [bs[0]] + bs[1..];
      SpellsFirst(t, bs);
    } else if |t| >= 2 && FromHex(t).Some? {
      assert FromHex(t).value != [];
    }
  }

  lemma SpellsFirst(t: Bytes, bs: Bytes)
    requires |t| >= 2 && bs != []
    ensures Spells(t, bs) <==>
            EitherDigit(t[0], bs[0] / 16) && EitherDigit(t[1], bs[0] % 16) && Spells(t[2..], bs[1..])
  {
    if EitherDigit(t[0], bs[0] / 16) && EitherDigit(t[1], bs[0] % 16) && Spells(t[2..], bs[1..]) {
      forall i | 0 <= i < |bs| ensures EitherDigit(t[2 * i], bs[i] / 16) && EitherDigit(t[2 * i + 1], bs[i] % 16) {
        if i > 0 {
          assert EitherDigit(t[2..][2 * (i - 1)], bs[1..][i - 1] / 16);
          assert EitherDigit(t[2..][2 * (i - 1) + 1], bs[1..][i - 1] % 16);
        }
      }
    }
    if Spells(t, bs) {
      assert EitherDigit(t[2 * 0], bs[0] / 16) && EitherDigit(t[2 * 0 + 1], bs[0] % 16);
      forall i | 0 <= i < |bs[1..]|
        ensures EitherDigit(t[2..][2 * i], bs[1..][i] / 16) && EitherDigit(t[2..][2 * i + 1], bs[1..][i] % 16)
      {
        assert EitherDigit(t[2 * (i + 1)], bs[i + 1] / 16) && EitherDigit(t[2 * (i + 1) + 1], bs[i + 1] % 16);
      }
    }
  }

  /** A text is read as a hash exactly if it is sixty-four digits of either case, "blake3:" before them or not. */
  lemma ParsedIff(t: Bytes, hash: Digest)
    ensures ParsePrefixed(t) == Some(hash) <==>
            Spells(t, hash) || (|t| == 71 && t[..7] == [98, 108, 97, 107, 101, 51, 58] && Spells(t[7..], hash))
  {
    assert BLAKE3_PREFIX == [98, 108, 97, 107, 101, 51, 58];
    FromHexIff(StripPrefix(t, BLAKE3_PREFIX), hash);
    if Spells(t, hash) && |t| >= 7 {
      assert EitherDigit(t[2 * 0 + 1], hash[0] % 16);
      assert t[..7][1] != 108;
    }
    hide FromHex;
  }
}
