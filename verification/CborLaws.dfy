/** Laws of the canonical encoding: key order, round trip, prefix freedom, independence of entry order. */
module CborLaws {
  import opened ByteStrings
  import opened Floats
  import opened StableSort
  import opened Cbor

  // ---- heads ----

  function Info(arg: nat): nat {
    if arg < 24 then arg else if arg <= 0xFF then 24 else if arg <= 0xFFFF then 25
    else if arg <= 0xFFFF_FFFF then 26 else 27
  }

  function Extra(arg: nat): nat { if arg < 24 then 0 else Width(Info(arg)) }

  lemma HeadShape(major: nat, arg: nat)
    requires major < 8
    ensures Head(major, arg) == [major * 32 + Info(arg)] + BigEndian(arg, Extra(arg))
  {
  }

  /** The argument fits the octets its head gives it. */
  lemma ExtraFits(arg: u64)
    ensures arg >= 24 ==> arg < Pow256(Extra(arg))
  {
    Pow256Values();
  }

  /** A larger argument makes the whole string larger, whatever follows. */
  lemma HeadLess(major: nat, x: nat, y: u64, a: Bytes, b: Bytes)
    requires major < 8 && x < y
    ensures Less(Head(major, x) + a, Head(major, y) + b)
  {
    HeadShape(major, x);
    HeadShape(major, y);
    if Info(x) == Info(y) {
      var f, w := [major * 32 + Info(x)], Extra(x);
      ExtraFits(y);
      BigEndianOrder(x, y, w);
      LessAsymmetric(BigEndian(x, w), BigEndian(y, w));
      LessByPrefix(BigEndian(x, w), BigEndian(y, w), a, b);
      LessAfterPrefix(f, BigEndian(x, w) + a, BigEndian(y, w) + b);
      assert Head(major, x) + a == f + (BigEndian(x, w) + a);
      assert Head(major, y) + b == f + (BigEndian(y, w) + b);
    }
  }

  /** Sorting by encoded key is sorting by length and then by octets, across all five head widths. */
  lemma KeyOrder(a: Bytes, b: Bytes)
    requires |a| < U64 && |b| < U64
    ensures KeyLess(a, b) <==> |a| < |b| || (|a| == |b| && Less(a, b))
  {
    if |a| < |b| {
      HeadLess(TEXT, |a|, |b|, a, b);
    } else if |b| < |a| {
      HeadLess(TEXT, |b|, |a|, b, a);
      LessAsymmetric(EncodeText(b), EncodeText(a));
    } else {
      LessAfterPrefix(Head(TEXT, |a|), a, b);
    }
  }

  lemma EncodeTextInjective(a: Bytes, b: Bytes)
    requires EncodeText(a) == EncodeText(b)
    ensures a == b
  {
    HeadShape(TEXT, |a|);
    HeadShape(TEXT, |b|);
    assert EncodeText(a)[0] == EncodeText(b)[0];
    assert |Head(TEXT, |a|)| == |Head(TEXT, |b|)|;
    assert a == EncodeText(a)[|Head(TEXT, |a|)|..] == EncodeText(b)[|Head(TEXT, |b|)|..] == b;
  }

  lemma KeyLessIsStrictOrder()
    ensures StrictOrder(KeyLess)
  {
    LessIsStrictOrder();
    forall a: Bytes, b: Bytes | a != b ensures KeyLess(a, b) || KeyLess(b, a) {
      if EncodeText(a) == EncodeText(b) {
        EncodeTextInjective(a, b);
      }
    }
    forall a: Bytes, b: Bytes | KeyLess(a, b) ensures !KeyLess(b, a) {
      LessAsymmetric(EncodeText(a), EncodeText(b));
    }
    forall a: Bytes, b: Bytes, c: Bytes | KeyLess(a, b) && KeyLess(b, c) ensures KeyLess(a, c) {
      LessTransitive(EncodeText(a), EncodeText(b), EncodeText(c));
    }
  }

  /** Ordering encoded keys is ordering texts by `KeyLess`. */
  lemma EncodedOrder(texts: seq<Bytes>, keys: seq<Bytes>)
    requires |keys| == |texts| && forall i :: 0 <= i < |keys| ==> keys[i] == EncodeText(texts[i])
    ensures Order(Less, keys) == Order(KeyLess, texts)
  {
    var idx := Order(KeyLess, texts);
    LessIsStrictOrder();
    KeyLessIsStrictOrder();
    OrderIsStable(KeyLess, texts);
    hide Order, Less, EncodeText, StrictOrder;
    forall p, q | 0 <= p < q < |idx| ensures Before(Less, keys, idx[p], idx[q]) {
      assert Before(KeyLess, texts, idx[p], idx[q]);
    }
    StableOrderUnique(Less, keys, idx);
  }

  /** Every decoder reads back the argument of a head. */
  lemma ReadHead(d: Decoder, major: nat, n: u64, rest: Bytes)
    requires major < 8
    ensures var bs := Head(major, n) + rest;
            bs[0] / 32 == major && ReadArg(d, bs[0] % 32, bs[1..]) == Some((n, rest))
  {
    HeadShape(major, n);
    var bs := Head(major, n) + rest;
    var w := Extra(n);
    assert bs[0] == major * 32 + Info(n);
    assert bs[1..] == BigEndian(n, w) + rest;
    if n >= 24 {
      ExtraFits(n);
      FromToBigEndian(n, w);
      assert (BigEndian(n, w) + rest)[..w] == BigEndian(n, w) && (BigEndian(n, w) + rest)[w..] == rest;
    }
  }

  // ---- floats ----

  lemma BothRoundTrips(f: Format, x: f64bits)
    requires IsFormat(f) && IsFinite(x)
    ensures SameBitsAt(f, x) <==> RoundTrips(f, x)
  {
  }

  lemma NarrowReads(d: Decoder, x: f64bits)
    requires IsFinite(x)
    ensures RoundTrips(F16, x) ==> ReadHalf(d, Narrow(F16, x)) == Some(x)
    ensures RoundTrips(F32, x) && !RoundTrips(F16, x) ==> ReadSingle(d, Narrow(F32, x)) == Some(x)
    ensures !RoundTrips(F32, x) && !RoundTrips(F16, x) ==> ReadDouble(d, x) == Some(x)
  {
    RoundTripsIffRepresentable(F16, x);
    RoundTripsIffRepresentable(F32, x);
    BothRoundTrips(F16, x);
    BothRoundTrips(F32, x);
    GoToFloat64Exact(Narrow(F16, x));
    hide Magnitude, Nearest, Narrow, Widen, Representable, RoundTrips, SameBitsAt, GoToFloat64;
  }

  lemma ReadWrittenBits(d: Decoder, info: nat, bits: u64, rest: Bytes)
    requires 25 <= info <= 27 && bits < Pow256(Width(info))
    ensures var x := ReadBits(d, info, bits);
            var bs := [0xE0 + info] + BigEndian(bits, Width(info)) + rest;
            ReadValue(d, bs) == if x.None? then None else Some((Float(x.value), rest))
  {
    hide ReadBits;
    var w := Width(info);
    var bs := [0xE0 + info] + BigEndian(bits, w) + rest;
    assert bs[1..] == BigEndian(bits, w) + rest;
    FromToBigEndian(bits, w);
    assert bs[1..][..w] == BigEndian(bits, w) && bs[1..][w..] == rest;
  }

  lemma ReadFloatBack(d: Decoder, x: f64bits, rest: Bytes)
    requires IsFinite(x)
    ensures ReadValue(d, WriteFloat(x) + rest) == Some((Float(x), rest))
  {
    hide Magnitude, Nearest, ReadHalf, ReadSingle, ReadDouble, RoundTrips, Narrow, Widen, BigEndian, ReadValue;
    NarrowReads(d, x);
    Pow256Values();
    if RoundTrips(F16, x) {
      ReadWrittenBits(d, 25, Narrow(F16, x), rest);
    } else if RoundTrips(F32, x) {
      ReadWrittenBits(d, 26, Narrow(F32, x), rest);
    } else {
      ReadWrittenBits(d, 27, x, rest);
    }
  }

  // ---- sorting commutes with encoding and with normalising ----

  lemma SortedEncodedPairs(pairs: seq<Pair>)
    ensures Sort(KeyLess, EncodedPairs(pairs)) == EncodedPairs(Sort(KeyLess, pairs))
  {
    SortSameKeys(KeyLess, pairs, EncodedPairs(pairs));
  }

  lemma SortedNormalPairs(pairs: seq<Pair>)
    ensures Sort(KeyLess, NormalPairs(pairs)) == NormalPairs(Sort(KeyLess, pairs))
  {
    SortSameKeys(KeyLess, pairs, NormalPairs(pairs));
  }

  // ---- round trip ----

  /** What the Python decoder needs of a key sequence that follows the key `prior`. */
  ghost predicate StrictlyAfter(prior: Option<Bytes>, pairs: seq<Pair>) {
    && StrictlySorted(KeyLess, pairs)
    && (prior.Some? && pairs != [] ==> Less(prior.value, EncodeText(pairs[0].0)))
  }

  ghost predicate Readable(d: Decoder, v: CborValue) {
    Encodable(v) && (d == Python ==> NoDuplicates(v))
  }

  /** Decoding an encoding yields the normal form and leaves exactly what followed. */
  lemma {:induction false} ReadEncode(d: Decoder, v: CborValue, rest: Bytes)
    requires Readable(d, v)
    ensures ReadValue(d, Encode(v) + rest) == Some((Normalise(v), rest))
    decreases v, 2
  {
    hide Head, BigEndian, ReadArg, ReadFloat, WriteFloat, Sort, ValidUtf8, Concat, Rows, ReadPairs, ReadItems;
    var bs := Encode(v) + rest;
    match v {
      case Uint(n) => ReadHead(d, UINT, n, rest);
      case ByteString(b) =>
        ReadHead(d, BYTES, |b|, b + rest);
        assert bs == Head(BYTES, |b|) + (b + rest);
        assert (b + rest)[..|b|] == b && (b + rest)[|b|..] == rest;
      case Text(t) =>
        ReadTextBack(d, t, rest);
      case Array(items) =>
        var body := Concat(EncodedItems(items)) + rest;
        ReadHead(d, ARRAY, |items|, body);
        assert bs == Head(ARRAY, |items|) + body;
        ReadItemsBack(d, v, items, rest);
      case Map(pairs) =>
        var sorted := Sort(KeyLess, pairs);
        SortedEncodedPairs(pairs);
        SortedNormalPairs(pairs);
        var body := Rows(EncodedPairs(sorted)) + rest;
        ReadHead(d, MAP, |pairs|, body);
        assert bs == Head(MAP, |pairs|) + body;
        ReadSortedBack(d, v, rest);
      case Bool(b) =>
        assert bs[1..] == rest;
      case Null =>
        assert bs[1..] == rest;
      case Float(x) => ReadFloatBack(d, x, rest);
    }
  }

  lemma {:induction false} ReadSortedBack(d: Decoder, v: CborValue, rest: Bytes)
    requires v.Map? && Readable(d, v)
    ensures var sorted := Sort(KeyLess, v.pairs);
            ReadPairs(d, |v.pairs|, None, Rows(EncodedPairs(sorted)) + rest) == Some((NormalPairs(sorted), rest))
    decreases v, 1
  {
    KeyLessIsStrictOrder();
    SortIsSorted(KeyLess, v.pairs);
    SortSameKeys(KeyLess, v.pairs, v.pairs);
    var sorted := Sort(KeyLess, v.pairs);
    hide Sort, Order, KeyLess;
    assert forall i :: 0 <= i < |sorted| ==>
        WellFormedText(sorted[i].0) && sorted[i].1 < v && Readable(d, sorted[i].1);
    ReadPairsBack(d, v, sorted, None, rest);
  }

  lemma ReadTextBack(d: Decoder, t: Bytes, rest: Bytes)
    requires WellFormedText(t)
    ensures ReadValue(d, EncodeText(t) + rest) == Some((Text(t), rest))
  {
    ReadHead(d, TEXT, |t|, t + rest);
    assert EncodeText(t) + rest == Head(TEXT, |t|) + (t + rest);
    assert (t + rest)[..|t|] == t && (t + rest)[|t|..] == rest;
  }

  lemma {:induction false} ReadItemsBack(d: Decoder, parent: CborValue, items: seq<CborValue>, rest: Bytes)
    requires forall i :: 0 <= i < |items| ==> items[i] < parent && Readable(d, items[i])
    ensures ReadItems(d, |items|, Concat(EncodedItems(items)) + rest) == Some((NormalItems(items), rest))
    decreases parent, 0, |items|
  {
    if items == [] {
      assert Concat(EncodedItems(items)) + rest == rest;
    } else {
      var more := Concat(EncodedItems(items[1..])) + rest;
      assert EncodedItems(items)[1..] == EncodedItems(items[1..]);
      assert Concat(EncodedItems(items)) + rest == Encode(items[0]) + more;
      ReadEncode(d, items[0], more);
      ReadItemsBack(d, parent, items[1..], rest);
      assert NormalItems(items) == [Normalise(items[0])] + NormalItems(items[1..]);
    }
  }

  lemma StrictlyAfterTail(prior: Option<Bytes>, pairs: seq<Pair>)
    requires StrictlyAfter(prior, pairs) && pairs != []
    ensures StrictlyAfter(Some(EncodeText(pairs[0].0)), pairs[1..])
    ensures prior.Some? ==> Less(prior.value, EncodeText(pairs[0].0))
  {
  }

  lemma ReadKeyBack(d: Decoder, prior: Option<Bytes>, key: Bytes, rest: Bytes)
    requires WellFormedText(key)
    requires d == Python && prior.Some? ==> Less(prior.value, EncodeText(key))
    ensures ReadKey(d, prior, EncodeText(key) + rest) == Some(KeyRead(key, EncodeText(key), rest))
  {
    ReadTextBack(d, key, rest);
    hide EncodeText, Less, ValidUtf8, ReadValue;
    var bs := EncodeText(key) + rest;
    assert bs[..|bs| - |rest|] == EncodeText(key);
  }

  lemma {:induction false} ReadPairsBack(d: Decoder, parent: CborValue, pairs: seq<Pair>, prior: Option<Bytes>,
                                         rest: Bytes)
    requires forall i :: 0 <= i < |pairs| ==>
               WellFormedText(pairs[i].0) && pairs[i].1 < parent && Readable(d, pairs[i].1)
    requires d == Python ==> StrictlyAfter(prior, pairs)
    ensures ReadPairs(d, |pairs|, prior, Rows(EncodedPairs(pairs)) + rest) == Some((NormalPairs(pairs), rest))
    decreases parent, 0, |pairs|
  {
    hide EncodeText, Less, ValidUtf8, Encode, ReadValue, ReadKey, Normalise, Encodable, NoDuplicates, StrictlyAfter;
    if pairs == [] {
      assert Rows(EncodedPairs(pairs)) + rest == rest;
    } else {
      var key, value := pairs[0].0, pairs[0].1;
      var more := Rows(EncodedPairs(pairs[1..])) + rest;
      assert EncodedPairs(pairs)[1..] == EncodedPairs(pairs[1..]);
      assert Rows(EncodedPairs(pairs)) + rest == EncodeText(key) + (Encode(value) + more);
      if d == Python { StrictlyAfterTail(prior, pairs); }
      ReadKeyBack(d, prior, key, Encode(value) + more);
      ReadEncode(d, value, more);
      ReadPairsBack(d, parent, pairs[1..], Some(EncodeText(key)), rest);
      assert NormalPairs(pairs) == [(key, Normalise(value))] + NormalPairs(pairs[1..]);
    }
  }

  // ---- consequences ----

  /** The normal form has the encoding of the value it came from. */
  lemma {:induction false} EncodeNormalise(v: CborValue)
    ensures Encode(Normalise(v)) == Encode(v)
  {
    match v {
      case Array(items) =>
        forall i | 0 <= i < |items| ensures Encode(NormalItems(items)[i]) == Encode(items[i]) {
          EncodeNormalise(items[i]);
        }
        assert EncodedItems(NormalItems(items)) == EncodedItems(items);
      case Map(pairs) =>
        forall i | 0 <= i < |pairs| ensures Encode(NormalPairs(pairs)[i].1) == Encode(pairs[i].1) {
          EncodeNormalise(pairs[i].1);
        }
        EncodeSortedPairs(pairs);
      case _ =>
    }
  }

  lemma EncodeSortedPairs(pairs: seq<Pair>)
    requires forall i :: 0 <= i < |pairs| ==> Encode(NormalPairs(pairs)[i].1) == Encode(pairs[i].1)
    ensures Encode(Normalise(Map(pairs))) == Encode(Map(pairs))
  {
    hide Sort, KeyLess, Rows, Head, EncodeText;
    SortedRowsAgree(pairs);
    assert Normalise(Map(pairs)) == Map(Sort(KeyLess, NormalPairs(pairs)));
  }

  lemma SortedRowsAgree(pairs: seq<Pair>)
    requires forall i :: 0 <= i < |pairs| ==> Encode(NormalPairs(pairs)[i].1) == Encode(pairs[i].1)
    ensures Sort(KeyLess, EncodedPairs(Sort(KeyLess, NormalPairs(pairs)))) == Sort(KeyLess, EncodedPairs(pairs))
  {
    hide Sort, KeyLess, Encode, Normalise;
    EncodedSortedFixed(NormalPairs(pairs));
    SortedEncodedPairs(NormalPairs(pairs));
    assert EncodedPairs(NormalPairs(pairs)) == EncodedPairs(pairs);
  }

  lemma EncodedSortedFixed(pairs: seq<Pair>)
    ensures Sort(KeyLess, EncodedPairs(Sort(KeyLess, pairs))) == EncodedPairs(Sort(KeyLess, pairs))
  {
    hide Sort, KeyLess, Encode, StrictOrder;
    KeyLessIsStrictOrder();
    SortIsSorted(KeyLess, pairs);
    var rows := EncodedPairs(Sort(KeyLess, pairs));
    SortSorted(KeyLess, rows);
  }

  lemma {:induction false} NormaliseKeeps(v: CborValue)
    ensures Encodable(v) ==> Encodable(Normalise(v))
    ensures NoDuplicates(v) ==> NoDuplicates(Normalise(v))
  {
    match v {
      case Array(items) =>
        forall i | 0 <= i < |items|
          ensures Encodable(items[i]) ==> Encodable(NormalItems(items)[i])
          ensures NoDuplicates(items[i]) ==> NoDuplicates(NormalItems(items)[i])
        {
          NormaliseKeeps(items[i]);
        }
      case Map(pairs) =>
        forall i | 0 <= i < |pairs|
          ensures Encodable(pairs[i].1) ==> Encodable(NormalPairs(pairs)[i].1)
          ensures NoDuplicates(pairs[i].1) ==> NoDuplicates(NormalPairs(pairs)[i].1)
        {
          NormaliseKeeps(pairs[i].1);
        }
        NormalPairsKeep(pairs);
        SortKeeps(NormalPairs(pairs));
        assert Normalise(v) == Map(Sort(KeyLess, NormalPairs(pairs)));
        hide Encodable, NoDuplicates;
      case _ =>
    }
  }

  lemma NormalPairsKeep(pairs: seq<Pair>)
    requires forall i :: 0 <= i < |pairs| ==>
               && (Encodable(pairs[i].1) ==> Encodable(NormalPairs(pairs)[i].1))
               && (NoDuplicates(pairs[i].1) ==> NoDuplicates(NormalPairs(pairs)[i].1))
    ensures Encodable(Map(pairs)) ==> Encodable(Map(NormalPairs(pairs)))
    ensures NoDuplicates(Map(pairs)) ==> NoDuplicates(Map(NormalPairs(pairs)))
  {
    hide Normalise, WellFormedText, NormalPairs;
    var normal := NormalPairs(pairs);
    if Encodable(Map(pairs)) {
      EncodablePairs(pairs);
      hide Encodable;
      assert forall i :: 0 <= i < |normal| ==> WellFormedText(normal[i].0) && Encodable(normal[i].1);
      EncodablePairs(normal);
    }
    hide Encodable;
  }

  /** What it takes for a map to be encodable. */
  lemma EncodablePairs(pairs: seq<Pair>)
    ensures Encodable(Map(pairs)) <==>
            |pairs| < U64 && forall i :: 0 <= i < |pairs| ==> WellFormedText(pairs[i].0) && Encodable(pairs[i].1)
  {
  }

  lemma SortKeeps(pairs: seq<Pair>)
    ensures Encodable(Map(pairs)) ==> Encodable(Map(Sort(KeyLess, pairs)))
    ensures NoDuplicates(Map(pairs)) ==> NoDuplicates(Map(Sort(KeyLess, pairs)))
  {
    KeyLessIsStrictOrder();
    SortIsSorted(KeyLess, pairs);
    SortSameKeys(KeyLess, pairs, pairs);
    var idx := Order(KeyLess, Keys(pairs));
    hide ValidUtf8, KeyLess, Order, Sort;
    var sorted := Sort(KeyLess, pairs);
    assert forall i :: 0 <= i < |sorted| ==> sorted[i] == pairs[idx[i]];
  }

  /** No encoding is a proper prefix of another, and equal encodings come from equal normal forms. */
  lemma PrefixFree(a: CborValue, x: Bytes, b: CborValue, y: Bytes)
    requires Encodable(a) && Encodable(b) && Encode(a) + x == Encode(b) + y
    ensures Normalise(a) == Normalise(b) && x == y
  {
    ReadEncode(Rust, a, x);
    ReadEncode(Rust, b, y);
  }

  lemma EncodeInjective(a: CborValue, b: CborValue)
    requires Encodable(a) && Encodable(b)
    ensures Encode(a) == Encode(b) <==> Normalise(a) == Normalise(b)
  {
    if Encode(a) == Encode(b) {
      PrefixFree(a, [], b, []);
    }
    EncodeNormalise(a);
    EncodeNormalise(b);
  }

  /** With distinct keys, the order in which a map's entries were listed leaves no trace. */
  lemma EncodePermutation(a: seq<Pair>, b: seq<Pair>)
    requires DistinctKeys(a) && DistinctKeys(b) && SameMembers(a, b)
    ensures Encode(Map(a)) == Encode(Map(b))
  {
    KeyLessIsStrictOrder();
    SortPermutation(KeyLess, a, b);
    SortedEncodedPairs(a);
    SortedEncodedPairs(b);
    assert |Sort(KeyLess, a)| == |a| && |Sort(KeyLess, b)| == |b|;
  }
}
