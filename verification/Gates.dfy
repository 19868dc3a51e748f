/**
 Three ways of deciding that octets are canonical: strict decode and re-encode (Rust), lenient decode
 and re-encode (Go), and a single strict pass (Python). They accept the image of the encoder.
 */
module Gates {
  import opened ByteStrings
  import opened Floats
  import opened StableSort
  import opened Cbor
  import opened CborLaws
  import opened RustReader

  // ---- a strict pass only accepts encodings ----

  lemma WrittenHalf(y: nat)
    requires y < 0x1_0000 && Finite(F16, y)
    ensures WriteFloat(Widen(F16, y)) == [0xF9] + BigEndian(y, 2) && IsFinite(Widen(F16, y))
  {
    WidenExact(F16, y);
    NarrowWiden(F16, y);
    SameSignFloatEq(Widen(F16, y), Widen(F16, y));
    hide Widen, Narrow, Magnitude, Nearest, BigEndian;
  }

  lemma WrittenSingle(y: nat)
    requires y < 0x1_0000_0000 && Finite(F32, y) && !RoundTrips(F16, Widen(F32, y))
    ensures WriteFloat(Widen(F32, y)) == [0xFA] + BigEndian(y, 4) && IsFinite(Widen(F32, y))
  {
    WidenExact(F32, y);
    NarrowWiden(F32, y);
    SameSignFloatEq(Widen(F32, y), Widen(F32, y));
    hide Widen, Narrow, Magnitude, Nearest, BigEndian;
  }

  /** The octets of a float a strict decoder accepts are those the encoder writes for its value. */
  lemma ReadBitsSound(info: nat, bits: u64)
    requires 25 <= info <= 27 && bits < Pow256(Width(info)) && ReadBits(Python, info, bits).Some?
    ensures var x := ReadBits(Python, info, bits).value;
            IsFinite(x) && WriteFloat(x) == [0xE0 + info] + BigEndian(bits, Width(info))
  {
    Pow256Values();
    hide Magnitude, Nearest, Narrow, BigEndian;
    if info == 25 {
      WrittenHalf(bits);
    } else if info == 26 {
      WidenExact(F32, bits);
      BothRoundTrips(F16, Widen(F32, bits));
      WrittenSingle(bits);
    } else {
      hide Widen, RoundTrips, SameBitsAt;
      BothRoundTrips(F16, bits);
      BothRoundTrips(F32, bits);
    }
  }

  lemma ReadFloatSound(info: nat, rest: Bytes)
    requires ReadFloat(Python, info, rest).Some?
    ensures var r := ReadFloat(Python, info, rest).value;
            Encodable(r.0) && [0xE0 + info] + rest == WriteFloat(r.0.bits) + r.1
  {
    hide ReadBits, WriteFloat, BigEndian, FromBigEndian;
    var field := rest[..Width(info)];
    var r := ReadFloat(Python, info, rest).value;
    Pow256Values();
    ToFromBigEndian(field);
    ReadBitsSound(info, FromBigEndian(field));
    assert rest == field + r.1;
  }

  ghost predicate Canonical(v: CborValue) { Readable(Python, v) && Normalise(v) == v }

  /** Whatever the one-pass decoder accepts is the encoding of a duplicate-free value in normal form. */
  lemma {:induction false} ReadValueSound(bs: Bytes)
    requires ReadValue(Python, bs).Some?
    ensures var r := ReadValue(Python, bs).value; Canonical(r.0) && bs == Encode(r.0) + r.1
    decreases |bs|, 0, 0
  {
    hide Head, WriteFloat, ValidUtf8, ReadArg, ReadFloat, ReadItems, ReadPairs, Sort, Rows, Concat, Canonical;
    var first, rest := bs[0], bs[1..];
    var major, info := first / 32, first % 32;
    assert bs == [first] + rest;
    if first == 0xF5 || first == 0xF4 || first == 0xF6 {
      SimpleSound(first);
    } else if major == 7 {
      ReadFloatSound(info, rest);
      FloatCanonical(ReadFloat(Python, info, rest).value.0);
    } else {
      ReadHeadOf(Python, info, major, rest);
      var n, body := ReadArg(Python, info, rest).value.0, ReadArg(Python, info, rest).value.1;
      if major == ARRAY {
        ReadArraySound(bs, n, body);
      } else if major == MAP {
        ReadMapSound(bs, n, body);
      } else {
        ReadStringSound(bs, major, n, body);
      }
    }
  }

  lemma SimpleSound(first: byte)
    requires first == 0xF5 || first == 0xF4 || first == 0xF6
    ensures var v := if first == 0xF6 then Null else Bool(first == 0xF5);
            Canonical(v) && Encode(v) == [first]
  {
  }

  lemma FloatCanonical(v: CborValue)
    requires v.Float? && Encodable(v)
    ensures Canonical(v)
  {
  }

  lemma ReadStringSound(bs: Bytes, major: nat, n: u64, body: Bytes)
    requires major < 7 && major != ARRAY && major != MAP && bs == Head(major, n) + body
    ensures major == UINT ==> Canonical(Uint(n)) && bs == Encode(Uint(n)) + body
    ensures Take(body, n).Some? ==>
              var (s, rest) := Take(body, n).value;
              && (major == BYTES ==> Canonical(ByteString(s)) && bs == Encode(ByteString(s)) + rest)
              && (major == TEXT && ValidUtf8(s) ==> Canonical(Text(s)) && bs == Encode(Text(s)) + rest)
  {
  }

  lemma {:induction false} ReadArraySound(bs: Bytes, n: u64, body: Bytes)
    requires ReadItems(Python, n, body).Some? && bs == Head(ARRAY, n) + body && |body| < |bs|
    ensures var r := ReadItems(Python, n, body).value;
            Canonical(Array(r.0)) && bs == Encode(Array(r.0)) + r.1
    decreases |body|, 2
  {
    hide Head, ReadItems, Concat, Canonical;
    ReadItemsSound(n, body);
    var r := ReadItems(Python, n, body).value;
    CanonicalArray(r.0);
    assert bs == Head(ARRAY, n) + Concat(EncodedItems(r.0)) + r.1;
  }

  lemma CanonicalArray(items: seq<CborValue>)
    requires |items| < U64 && forall i :: 0 <= i < |items| ==> Canonical(items[i])
    ensures Canonical(Array(items))
  {
  }

  lemma {:induction false} ReadItemsSound(count: nat, bs: Bytes)
    requires ReadItems(Python, count, bs).Some?
    ensures var r := ReadItems(Python, count, bs).value;
            && |r.0| == count && (forall i :: 0 <= i < count ==> Canonical(r.0[i]))
            && bs == Concat(EncodedItems(r.0)) + r.1
    decreases |bs|, 1
  {
    hide ReadValue, Canonical, Encode, Concat;
    if count > 0 {
      ReadValueSound(bs);
      var head := ReadValue(Python, bs).value;
      ReadItemsSound(count - 1, head.1);
      var tail := ReadItems(Python, count - 1, head.1).value;
      ConcatCons(head.0, tail.0);
      assert bs == Encode(head.0) + Concat(EncodedItems(tail.0)) + tail.1;
    } else {
      NoItems();
    }
  }

  lemma NoItems()
    ensures Concat(EncodedItems([])) == []
  {
  }

  lemma ConcatCons(head: CborValue, tail: seq<CborValue>)
    ensures Concat(EncodedItems([head] + tail)) == Encode(head) + Concat(EncodedItems(tail))
  {
    hide Encode;
    assert EncodedItems([head] + tail)[1..] == EncodedItems(tail);
  }

  lemma {:induction false} ReadMapSound(bs: Bytes, n: u64, body: Bytes)
    requires ReadPairs(Python, n, None, body).Some? && bs == Head(MAP, n) + body && |body| < |bs|
    ensures var r := ReadPairs(Python, n, None, body).value;
            Canonical(Map(r.0)) && bs == Encode(Map(r.0)) + r.1
    decreases |body|, 2
  {
    ReadPairsSound(n, None, body);
    var r := ReadPairs(Python, n, None, body).value;
    hide Head, ReadPairs;
    CanonicalMap(r.0);
    assert bs == Head(MAP, n) + Rows(EncodedPairs(r.0)) + r.1;
  }

  ghost predicate CanonicalPairs(pairs: seq<Pair>) {
    forall i :: 0 <= i < |pairs| ==> WellFormedText(pairs[i].0) && Canonical(pairs[i].1)
  }

  lemma CanonicalMap(pairs: seq<Pair>)
    requires |pairs| < U64 && CanonicalPairs(pairs) && StrictlySorted(KeyLess, pairs)
    ensures Canonical(Map(pairs)) && Sort(KeyLess, EncodedPairs(pairs)) == EncodedPairs(pairs)
  {
    AscendingFixed(pairs);
    MapReadable(pairs);
    assert NormalPairs(pairs) == pairs;
    hide Sort, KeyLess, Encode, Readable;
  }

  lemma MapReadable(pairs: seq<Pair>)
    requires |pairs| < U64 && CanonicalPairs(pairs) && StrictlySorted(KeyLess, pairs)
    ensures Readable(Python, Map(pairs))
  {
    AscendingDistinct(pairs);
    hide ValidUtf8, KeyLess, Normalise, StrictlySorted;
    assert forall i :: 0 <= i < |pairs| ==> Readable(Python, pairs[i].1);
  }

  lemma AscendingFixed(pairs: seq<Pair>)
    requires StrictlySorted(KeyLess, pairs)
    ensures Sort(KeyLess, EncodedPairs(pairs)) == EncodedPairs(pairs) && Sort(KeyLess, pairs) == pairs
  {
    hide Sort, StrictOrder, KeyLess, Encode;
    KeyLessIsStrictOrder();
    AscendingDistinct(pairs);
    SortSorted(KeyLess, EncodedPairs(pairs));
    SortSorted(KeyLess, pairs);
  }

  lemma AscendingDistinct(pairs: seq<Pair>)
    requires StrictlySorted(KeyLess, pairs)
    ensures DistinctKeys(pairs)
    ensures forall p, q :: 0 <= p < q < |pairs| ==> !KeyLess(pairs[q].0, pairs[p].0)
  {
    KeyLessIsStrictOrder();
    hide KeyLess;
  }

  lemma {:induction false} ReadPairsSound(count: nat, prior: Option<Bytes>, bs: Bytes)
    requires ReadPairs(Python, count, prior, bs).Some?
    ensures var r := ReadPairs(Python, count, prior, bs).value;
            && |r.0| == count && CanonicalPairs(r.0) && StrictlyAfter(prior, r.0)
            && bs == Rows(EncodedPairs(r.0)) + r.1
    decreases |bs|, 1
  {
    hide Encode, Less, EncodeText, ValidUtf8, Normalise, ReadValue, ReadKey, StrictlyAfter, Rows, Canonical;
    if count > 0 {
      ReadKeySound(prior, bs);
      var key := ReadKey(Python, prior, bs).value;
      ReadValueSound(key.rest);
      var value := ReadValue(Python, key.rest).value;
      ReadPairsSound(count - 1, Some(key.encoded), value.1);
      var tail := ReadPairs(Python, count - 1, Some(key.encoded), value.1).value;
      var p := (key.text, value.0);
      StrictlyAfterCons(prior, p, tail.0);
      RowsCons(p, tail.0);
      assert bs == EncodeText(p.0) + Encode(p.1) + Rows(EncodedPairs(tail.0)) + tail.1;
    } else {
      NoRows(prior);
    }
  }

  lemma NoRows(prior: Option<Bytes>)
    ensures Rows(EncodedPairs([])) == [] && StrictlyAfter(prior, [])
  {
  }

  lemma {:induction false} ReadKeySound(prior: Option<Bytes>, bs: Bytes)
    requires ReadKey(Python, prior, bs).Some?
    ensures var key := ReadKey(Python, prior, bs).value;
            && WellFormedText(key.text) && key.encoded == EncodeText(key.text) && bs == key.encoded + key.rest
            && (prior.Some? ==> Less(prior.value, key.encoded))
    decreases |bs|, 0, 1
  {
    ReadValueSound(bs);
    hide ReadValue, Less;
  }

  lemma RowsCons(p: Pair, tail: seq<Pair>)
    ensures Rows(EncodedPairs([p] + tail)) == EncodeText(p.0) + Encode(p.1) + Rows(EncodedPairs(tail))
  {
    hide EncodeText, Encode;
    assert EncodedPairs([p] + tail)[1..] == EncodedPairs(tail);
  }

  lemma StrictlyAfterCons(prior: Option<Bytes>, p: Pair, tail: seq<Pair>)
    requires StrictlyAfter(Some(EncodeText(p.0)), tail)
    requires prior.Some? ==> Less(prior.value, EncodeText(p.0))
    ensures StrictlyAfter(prior, [p] + tail)
  {
    KeyLessIsStrictOrder();
    hide EncodeText, Less;
    var all := [p] + tail;
    forall i, j | 0 <= i < j < |all| ensures KeyLess(all[i].0, all[j].0) {
      if i == 0 && j > 1 {
        assert KeyLess(tail[0].0, tail[j - 1].0);
      }
    }
  }

  // ---- the missing finiteness check ----

  /**
   The strict Rust decoder accepts some values its encoder cannot write. They are exactly the values
   that a finiteness check on half floats would have refused.
   */
  lemma {:induction false} HalfFloatsAreTheOnlyGap(bs: Bytes)
    ensures ReadValue(RustChecked, bs) == Checked(ReadValue(Rust, bs))
    decreases |bs|, 0
  {
    hide FromBigEndian, ValidUtf8;
    if bs != [] {
      var first, rest := bs[0], bs[1..];
      var major, info := first / 32, first % 32;
      if first != 0xF5 && first != 0xF4 && first != 0xF6 {
        if major == 7 {
          CheckedFloat(info, rest);
          hide ReadFloat;
        } else if ReadArg(Rust, info, rest).Some? {
          var n, body := ReadArg(Rust, info, rest).value.0, ReadArg(Rust, info, rest).value.1;
          if major == ARRAY { CheckedItems(n, body); }
          if major == MAP { CheckedPairs(n, None, body); }
        }
      }
    }
  }

  lemma CheckedBits(info: nat, bits: nat)
    requires 25 <= info <= 27 && bits < Pow256(Width(info))
    ensures var plain := ReadBits(Rust, info, bits);
            ReadBits(RustChecked, info, bits) == (if plain.Some? && IsFinite(plain.value) then plain else None)
  {
    Pow256Values();
    if info == 25 {
      WidenFinite(F16, bits);
    } else if info == 26 {
      WidenFinite(F32, bits);
    }
    hide Widen, RoundTrips;
  }

  lemma CheckedFloat(info: nat, rest: Bytes)
    ensures var plain := ReadFloat(Rust, info, rest);
            ReadFloat(RustChecked, info, rest) == (if plain.Some? && AllFinite(plain.value.0) then plain else None)
  {
    hide ReadBits, FromBigEndian;
    if 25 <= info <= 27 && Take(rest, Width(info)).Some? {
      CheckedBits(info, FromBigEndian(Take(rest, Width(info)).value.0));
    }
  }

  lemma WidenFinite(f: Format, y: nat)
    requires (f == F16 || f == F32) && y < 2 * f.sign
    ensures IsFinite(Widen(f, y)) <==> Finite(f, y)
  {
    if Finite(f, y) {
      WidenExact(f, y);
    }
  }

  lemma {:induction false} CheckedItems(count: nat, bs: Bytes)
    ensures var plain := ReadItems(Rust, count, bs);
            ReadItems(RustChecked, count, bs) ==
            (if plain.Some? && AllFinite(Array(plain.value.0)) then plain else None)
    decreases |bs|, 1
  {
    if count > 0 {
      HalfFloatsAreTheOnlyGap(bs);
      if ReadValue(Rust, bs).Some? {
        var head := ReadValue(Rust, bs).value;
        CheckedItems(count - 1, head.1);
        hide ReadValue;
        if ReadItems(Rust, count - 1, head.1).Some? {
          var tail := ReadItems(Rust, count - 1, head.1).value;
          FiniteItemsCons(head.0, tail.0);
        }
      }
    }
  }

  /** One reading with the check, given the reading without it. */
  function Checked(plain: Option<(CborValue, Bytes)>): Option<(CborValue, Bytes)> {
    if plain.Some? && AllFinite(plain.value.0) then plain else None
  }

  function CheckedEntries(plain: Option<(seq<Pair>, Bytes)>): Option<(seq<Pair>, Bytes)> {
    if plain.Some? && AllFinite(Map(plain.value.0)) then plain else None
  }

  function Prepend(p: Pair, tail: Option<(seq<Pair>, Bytes)>): Option<(seq<Pair>, Bytes)> {
    if tail.None? then None else Some(([p] + tail.value.0, tail.value.1))
  }

  lemma CheckedPrepend(p: Pair, tail: Option<(seq<Pair>, Bytes)>)
    ensures CheckedEntries(Prepend(p, tail)) == if AllFinite(p.1) then Prepend(p, CheckedEntries(tail)) else None
  {
    if tail.Some? {
      FinitePairsCons(p, tail.value.0);
    }
    hide AllFinite;
  }

  lemma {:induction false} CheckedPairs(count: nat, prior: Option<Bytes>, bs: Bytes)
    ensures ReadPairs(RustChecked, count, prior, bs) == CheckedEntries(ReadPairs(Rust, count, prior, bs))
    decreases |bs|, 1
  {
    if count == 0 {
      assert AllFinite(Map([]));
    } else {
      HalfFloatsAreTheOnlyGap(bs);
      CheckedKey(prior, bs);
      hide ReadKey, ReadValue, AllFinite, CheckedEntries;
      var key := ReadKey(Rust, prior, bs);
      if key.Some? {
        HalfFloatsAreTheOnlyGap(key.value.rest);
        var value := ReadValue(Rust, key.value.rest);
        if value.Some? {
          CheckedPairs(count - 1, Some(key.value.encoded), value.value.1);
          CheckedPrepend((key.value.text, value.value.0),
                         ReadPairs(Rust, count - 1, Some(key.value.encoded), value.value.1));
        } else {
          NothingChecked();
        }
      } else {
        NothingChecked();
      }
    }
  }

  lemma NothingChecked()
    ensures CheckedEntries(None) == None
  {
  }

  lemma CheckedKey(prior: Option<Bytes>, bs: Bytes)
    requires ReadValue(RustChecked, bs) == Checked(ReadValue(Rust, bs))
    ensures ReadKey(RustChecked, prior, bs) == ReadKey(Rust, prior, bs)
  {
  }

  lemma FiniteItemsCons(head: CborValue, tail: seq<CborValue>)
    ensures AllFinite(Array([head] + tail)) <==> AllFinite(head) && AllFinite(Array(tail))
  {
    assert forall i :: 0 <= i < |tail| ==> tail[i] == ([head] + tail)[i + 1];
    assert ([head] + tail)[0] == head;
  }

  lemma FinitePairsCons(p: Pair, tail: seq<Pair>)
    ensures AllFinite(Map([p] + tail)) <==> AllFinite(p.1) && AllFinite(Map(tail))
  {
    assert forall i :: 0 <= i < |tail| ==> tail[i] == ([p] + tail)[i + 1];
    assert ([p] + tail)[0] == p;
  }

  // ---- the Go and Python encoders ----

  /** Both sort rows of encoded keys, where Rust sorts positions; they differ in how they choose a float's width. */
  datatype Encoder = GoEncoder | PythonEncoder

  /** `_encode_float`: the first width at which the bits, not the numbers, survive the round trip. */
  function PythonWriteFloat(x: f64bits): Bytes {
    if SameBitsAt(F16, x) then [0xF9] + BigEndian(Narrow(F16, x), 2)
    else if SameBitsAt(F32, x) then [0xFA] + BigEndian(Narrow(F32, x), 4)
    else [0xFB] + BigEndian(x, 8)
  }

  function WriteFloatBy(e: Encoder, x: f64bits): Bytes {
    match e
    case GoEncoder => GoWriteFloat(x)
    case PythonEncoder => PythonWriteFloat(x)
  }

  function ItemsBy(e: Encoder, items: seq<CborValue>): (r: seq<Bytes>)
    ensures |r| == |items| && forall i :: 0 <= i < |items| ==> r[i] == EncodeBy(e, items[i])
    decreases items, 0
  {
    seq(|items|, i requires 0 <= i < |items| => EncodeBy(e, items[i]))
  }

  /** `encodedPair`, `keyed`: the encoded key, and here also the encoded value. */
  function PairsBy(e: Encoder, pairs: seq<Pair>): (r: seq<(Bytes, Bytes)>)
    ensures |r| == |pairs| && forall i :: 0 <= i < |pairs| ==> r[i] == (EncodeText(pairs[i].0), EncodeBy(e, pairs[i].1))
    decreases Map(pairs), 0
  {
    seq(|pairs|, i requires 0 <= i < |pairs| => (EncodeText(pairs[i].0), EncodeBy(e, pairs[i].1)))
  }

  function EncodeBy(e: Encoder, v: CborValue): Bytes
    decreases v, 1
  {
    match v
    case Uint(n) => Head(UINT, n)
    case ByteString(b) => Head(BYTES, |b|) + b
    case Text(t) => EncodeText(t)
    case Array(items) => Head(ARRAY, |items|) + Concat(ItemsBy(e, items))
    case Map(pairs) => Head(MAP, |pairs|) + Joined(Sort(Less, PairsBy(e, pairs)))
    case Bool(b) => [if b then 0xF5 else 0xF4]
    case Null => [0xF6]
    case Float(x) => WriteFloatBy(e, x)
  }

  /** `EncodeCbor`, on values whose floats are finite; it returns an error on others. */
  function GoEncode(v: CborValue): Bytes { EncodeBy(GoEncoder, v) }

  /** `canonical_cbor_encode`, on values whose floats are finite; it raises on others. */
  function PythonEncode(v: CborValue): Bytes { EncodeBy(PythonEncoder, v) }

  lemma {:induction false} SameRows(a: seq<(Bytes, Bytes)>, b: seq<(Bytes, Bytes)>)
    requires |a| == |b| && forall i :: 0 <= i < |a| ==> a[i] == (EncodeText(b[i].0), b[i].1)
    ensures Joined(a) == Rows(b)
  {
    if a != [] {
      SameRows(a[1..], b[1..]);
    }
  }

  lemma SameSortedRows(e: Encoder, pairs: seq<Pair>)
    requires forall i :: 0 <= i < |pairs| ==> EncodeBy(e, pairs[i].1) == Encode(pairs[i].1)
    ensures Joined(Sort(Less, PairsBy(e, pairs))) == Rows(Sort(KeyLess, EncodedPairs(pairs)))
  {
    hide Order, Less, EncodeText, Encode, EncodeBy, KeyLess;
    EncodedOrder(Keys(EncodedPairs(pairs)), Keys(PairsBy(e, pairs)));
    SameRows(Sort(Less, PairsBy(e, pairs)), Sort(KeyLess, EncodedPairs(pairs)));
  }

  lemma SameFloats(e: Encoder, x: f64bits)
    requires IsFinite(x)
    ensures WriteFloatBy(e, x) == WriteFloat(x)
  {
    GoWriteFloatAgrees(x);
    BothRoundTrips(F16, x);
    BothRoundTrips(F32, x);
    hide GoWriteFloat, SameBitsAt, RoundTrips, Narrow, BigEndian;
  }

  lemma {:induction false} SameOctets(e: Encoder, v: CborValue)
    requires AllFinite(v)
    ensures EncodeBy(e, v) == Encode(v)
  {
    match v {
      case Array(items) =>
        forall i | 0 <= i < |items| ensures EncodeBy(e, items[i]) == Encode(items[i]) {
          SameOctets(e, items[i]);
        }
        assert ItemsBy(e, items) == EncodedItems(items);
      case Map(pairs) =>
        forall i | 0 <= i < |pairs| ensures EncodeBy(e, pairs[i].1) == Encode(pairs[i].1) {
          SameOctets(e, pairs[i].1);
        }
        SameSortedRows(e, pairs);
        hide Sort, Joined, Rows, Head;
      case Float(x) => SameFloats(e, x);
      case _ =>
    }
  }

  /** The three encoders write the same octets for every value they accept. */
  lemma EncodersAgree(v: CborValue)
    requires AllFinite(v)
    ensures GoEncode(v) == Encode(v) && PythonEncode(v) == Encode(v)
  {
    SameOctets(GoEncoder, v);
    SameOctets(PythonEncoder, v);
  }

  // ---- the gates ----

  /** How a verifier disposes of octets before it looks at any field. */
  datatype Gate = Accepted(value: CborValue) | Undecodable | NotCanonical | Panics

  /**
   Decode, then `value.encode() != bytes`; the encoder asserts finiteness. The gates are compared with room
   for any count; `RoomOnlyPanics` says what less room does.
   */
  function RustGate(bs: Bytes, room: Room := AMPLE): Gate {
    match RunDecode(room, bs)
    case Halted => Panics
    case Refused => Undecodable
    case Got(v, _) =>
      if !AllFinite(v) then Panics else if Encode(v) != bs then NotCanonical else Accepted(v)
  }

  function GoGate(bs: Bytes): Gate {
    var v := Decode(Go, bs);
    if v.None? || !AllFinite(v.value) then Undecodable
    else if GoEncode(v.value) != bs then NotCanonical
    else Accepted(v.value)
  }

  /** `bs` is what the encoder writes for some value, and `v` is that value's normal form. */
  ghost predicate IsEncodingOf(bs: Bytes, v: CborValue) {
    Encodable(v) && Normalise(v) == v && Encode(v) == bs
  }

  lemma {:induction false} DecodedWellFormed(d: Decoder, bs: Bytes)
    requires ReadValue(d, bs).Some?
    ensures WellFormed(ReadValue(d, bs).value.0)
    decreases |bs|, 0, 0
  {
    hide FromBigEndian, ValidUtf8, ReadFloat;
    var first, rest := bs[0], bs[1..];
    var major, info := first / 32, first % 32;
    if first != 0xF5 && first != 0xF4 && first != 0xF6 && major != 7 {
      var n, body := ReadArg(d, info, rest).value.0, ReadArg(d, info, rest).value.1;
      hide ReadArg;
      if major == ARRAY { DecodedItems(d, n, body); }
      if major == MAP { DecodedPairs(d, n, None, body); }
    }
  }

  lemma {:induction false} DecodedItems(d: Decoder, count: nat, bs: Bytes)
    requires ReadItems(d, count, bs).Some?
    ensures forall i :: 0 <= i < count ==> WellFormed(ReadItems(d, count, bs).value.0[i])
    decreases |bs|, 1
  {
    hide WellFormed, ReadValue;
    if count > 0 {
      DecodedWellFormed(d, bs);
      DecodedItems(d, count - 1, ReadValue(d, bs).value.1);
    }
  }

  ghost predicate WellFormedPair(p: Pair) { WellFormedText(p.0) && WellFormed(p.1) }

  lemma {:induction false} DecodedPairs(d: Decoder, count: nat, prior: Option<Bytes>, bs: Bytes)
    requires ReadPairs(d, count, prior, bs).Some?
    ensures forall i :: 0 <= i < count ==> WellFormedPair(ReadPairs(d, count, prior, bs).value.0[i])
    decreases |bs|, 1
  {
    hide ReadValue, ReadKey, WellFormed, WellFormedText;
    if count > 0 {
      DecodedKey(d, prior, bs);
      var key := ReadKey(d, prior, bs).value;
      DecodedWellFormed(d, key.rest);
      var value := ReadValue(d, key.rest).value;
      DecodedPairs(d, count - 1, Some(key.encoded), value.1);
      assert WellFormedPair((key.text, value.0));
      hide WellFormedPair;
      var tail := ReadPairs(d, count - 1, Some(key.encoded), value.1).value;
      assert ReadPairs(d, count, prior, bs).value.0 == [(key.text, value.0)] + tail.0;
    }
  }

  lemma {:induction false} DecodedKey(d: Decoder, prior: Option<Bytes>, bs: Bytes)
    requires ReadKey(d, prior, bs).Some?
    ensures WellFormedText(ReadKey(d, prior, bs).value.text)
    decreases |bs|, 0, 1
  {
  }

  /** An encoding decodes, with every decoder that does not mind duplicates, to its normal form. */
  lemma DecodeEncode(d: Decoder, v: CborValue)
    requires Readable(d, v)
    ensures Decode(d, Encode(v)) == Some(Normalise(v))
  {
    ReadEncode(d, v, []);
    assert Encode(v) + [] == Encode(v);
    hide ReadValue, Encode, Normalise;
  }

  lemma DecodedIsNormal(d: Decoder, bs: Bytes, v: CborValue)
    requires d != Python && Decode(d, bs) == Some(v) && AllFinite(v) && Encode(v) == bs
    ensures IsEncodingOf(bs, v)
  {
    DecodedWellFormed(d, bs);
    DecodeEncode(d, v);
    hide ReadValue, Encode, Normalise;
  }

  lemma IsNormalForm(v: CborValue)
    requires Encodable(v)
    ensures IsEncodingOf(Encode(v), Normalise(v))
  {
    EncodeNormalise(v);
    NormaliseKeeps(v);
    DecodeEncode(Rust, v);
    DecodeEncode(Rust, Normalise(v));
    hide Encode, Normalise, Encodable, Decode;
  }

  /** A whole reading against `Decode`: only for want of room does a readable input halt it. */
  lemma RunsLikeDecode(room: Room, bs: Bytes)
    ensures var run := RunDecode(room, bs);
            && (run.Got? ==> Decode(Rust, bs) == Some(run.value))
            && (run.Refused? ==> Decode(Rust, bs).None?)
            && (run.Halted? && Decode(Rust, bs).Some? ==> Tight(room, |bs|) && Tight(room, U64))
  {
    RunAgrees(room, |bs|, bs);
    hide RunValue, ReadValue, Tight;
  }

  /** The Rust gate accepts exactly the image of the encoder, and hands over the normal form. */
  lemma RustGateAcceptsEncodings(bs: Bytes, v: CborValue)
    ensures RustGate(bs) == Accepted(v) <==> IsEncodingOf(bs, v)
  {
    RunsLikeDecode(AMPLE, bs);
    hide RunDecode, ReadValue, Encode, Normalise;
    if IsEncodingOf(bs, v) {
      DecodeEncode(Rust, v);
    }
    if RustGate(bs) == Accepted(v) {
      DecodedIsNormal(Rust, bs, v);
    }
  }

  /** So does the Go gate, although its decoder refuses less. */
  lemma GoGateAcceptsEncodings(bs: Bytes, v: CborValue)
    ensures GoGate(bs) == Accepted(v) <==> IsEncodingOf(bs, v)
  {
    hide ReadValue, Encode, GoEncode, Normalise;
    if AllFinite(v) {
      EncodersAgree(v);
    }
    if IsEncodingOf(bs, v) {
      DecodeEncode(Go, v);
    }
    if GoGate(bs) == Accepted(v) {
      DecodedIsNormal(Go, bs, v);
    }
  }

  /** The one-pass strict decoder accepts exactly the encodings of duplicate-free values. */
  lemma StrictPassAcceptsEncodings(bs: Bytes, v: CborValue)
    ensures Decode(Python, bs) == Some(v) <==> IsEncodingOf(bs, v) && NoDuplicates(v)
  {
    hide ReadValue, Encode, Normalise;
    if IsEncodingOf(bs, v) && NoDuplicates(v) {
      DecodeEncode(Python, v);
    }
    if Decode(Python, bs) == Some(v) {
      ReadValueSound(bs);
      assert bs == Encode(v) + [];
    }
  }

  /** Agreement of the three on every octet string. */
  lemma GatesAgree(bs: Bytes)
    ensures RustGate(bs).Accepted? <==> GoGate(bs).Accepted?
    ensures RustGate(bs).Accepted? ==> GoGate(bs) == RustGate(bs)
    ensures RustGate(bs).Accepted? <==> exists v :: Encodable(v) && Encode(v) == bs
    ensures Decode(Python, bs).Some? <==> RustGate(bs).Accepted? && NoDuplicates(RustGate(bs).value)
    ensures Decode(Python, bs).Some? ==> RustGate(bs) == Accepted(Decode(Python, bs).value)
  {
    if RustGate(bs).Accepted? {
      RustGateAcceptsEncodings(bs, RustGate(bs).value);
      GoGateAcceptsEncodings(bs, RustGate(bs).value);
      StrictPassAcceptsEncodings(bs, RustGate(bs).value);
    }
    if GoGate(bs).Accepted? {
      GoGateAcceptsEncodings(bs, GoGate(bs).value);
      RustGateAcceptsEncodings(bs, GoGate(bs).value);
    }
    if Decode(Python, bs).Some? {
      StrictPassAcceptsEncodings(bs, Decode(Python, bs).value);
      RustGateAcceptsEncodings(bs, Decode(Python, bs).value);
    }
    hide RustGate, GoGate, Decode;
    forall v | Encodable(v) && Encode(v) == bs ensures RustGate(bs).Accepted? {
      IsNormalForm(v);
      RustGateAcceptsEncodings(bs, Normalise(v));
    }
  }

  /**
   When the Rust gate panics: reading stops at a fatal head, or the finiteness check missing on half floats
   would have refused what was read.
   */
  lemma GatePanics(bs: Bytes, room: Room)
    ensures RustGate(bs, room) == Panics <==>
            Stops(room, |bs|, bs) || (Decode(Rust, bs).Some? && Decode(RustChecked, bs).None?)
    ensures Decode(RustChecked, bs).Some? ==> AllFinite(Decode(RustChecked, bs).value)
  {
    HaltsIff(room, |bs|, bs);
    RunsLikeDecode(room, bs);
    HalfFloatsAreTheOnlyGap(bs);
    hide ReadValue, RunValue, Encode, Stops;
  }

  /** Less room turns verdicts into panics and changes nothing else, and no verdict on a short enough encoding. */
  lemma RoomOnlyPanics(bs: Bytes, room: Room)
    ensures RustGate(bs, room) == Panics || RustGate(bs, room) == RustGate(bs)
    ensures RustGate(bs).Accepted? && RustGate(bs, room) == Panics ==> room.items < |bs| || room.pairs < |bs|
  {
    RunsLikeDecode(AMPLE, bs);
    RunsLikeDecode(room, bs);
    RunInLess(room, |bs|, bs);
    hide RunValue, ReadValue, Encode;
  }

  lemma {:induction false} LargestOctets(w: nat)
    ensures BigEndian(Pow256(w) - 1, w) == seq(w, _ => 0xFF)
  {
    if w > 0 {
      LargestOctets(w - 1);
      assert (Pow256(w) - 1) / 256 == Pow256(w - 1) - 1;
    }
  }

  /** The head that announces 2^64 - 1 octets, items or pairs, and nothing after it. */
  function LargestHead(major: nat): (r: Bytes)
    requires major < 8
    ensures |r| == 9
  {
    [major * 32 + 27] + seq(8, _ => 0xFF)
  }

  lemma LargestHeadIs(major: nat)
    requires major < 8
    ensures Head(major, U64 - 1) + [] == LargestHead(major)
  {
    LargestOctets(8);
    Pow256Values();
    HeadShape(major, U64 - 1);
  }

  lemma LargestHeadHalts(room: Room, major: nat)
    requires Fatal(room, 9, major, U64 - 1, [])
    ensures major < 8 && RustGate(LargestHead(major), room) == Panics
  {
    FatalHeadHalts(room, 9, major, U64 - 1, []);
    LargestHeadIs(major);
    hide Head, LargestHead, RunValue, Fatal;
  }

  lemma LargestArrayRefused(room: Room)
    requires room.items >= U64 - 1
    ensures RustGate(LargestHead(ARRAY), room) == Undecodable
  {
    LargestHeadIs(ARRAY);
    ReadHead(Rust, ARRAY, U64 - 1, []);
    var bs := LargestHead(ARRAY);
    assert RunItems(room, U64 - 1, 9, []) == Refused;
    assert ReadArg(Rust, bs[0] % 32, bs[1..]) == Some((U64 - 1, []));
    assert bs[0] / 32 == ARRAY;
    hide Head, LargestHead, RunItems, ReadArg;
    assert RunValue(room, 9, bs) == RunBody(room, 9, ARRAY, U64 - 1, []);
  }

  /**
   Nine octets panic on any machine, a head announcing 2^64 - 1 octets of a string; so do the three octets of an
   infinite half float, when re-encoded. A head announcing as many array items panics if they cannot be reserved.
   */
  lemma ShortInputsPanic(room: Room)
    ensures RustGate(LargestHead(BYTES), room) == Panics && RustGate(LargestHead(TEXT), room) == Panics
    ensures RustGate(LargestHead(ARRAY), room) == Panics <==> room.items < U64 - 1
    ensures RustGate([0xF9, 0x7C, 0x00], room) == Panics
  {
    LargestHeadHalts(room, BYTES);
    LargestHeadHalts(room, TEXT);
    if room.items < U64 - 1 {
      LargestHeadHalts(room, ARRAY);
    } else {
      LargestArrayRefused(room);
    }
    HalfInfinity();
    RunsLikeDecode(room, [0xF9, 0x7C, 0x00]);
    hide RunDecode, ReadValue;
  }

  lemma HalfInfinity()
    ensures Decode(Rust, [0xF9, 0x7C, 0x00]) == Some(Float(F64.inf))
  {
  }
}
