/**
 Canonical CBOR: the value model, the deterministic encoder, and the three decoders of the
 repository, which differ only in what they refuse (sections 3 and 4.2 of RFC 8949).
 */
module Cbor {
  import opened ByteStrings
  import opened Floats
  import opened StableSort

  datatype CborValue =
    | Uint(number: u64)
    | ByteString(bytes: Bytes)
    | Text(text: Bytes)
    | Array(items: seq<CborValue>)
    | Map(pairs: seq<(Bytes, CborValue)>)
    | Bool(boolean: bool)
    | Null
    | Float(bits: f64bits)

  type Pair = (Bytes, CborValue)

  const UINT := 0
  const BYTES := 2
  const TEXT := 3
  const ARRAY := 4
  const MAP := 5

  // ---- what the Rust types already guarantee ----

  predicate WellFormedText(t: Bytes) { |t| < U64 && ValidUtf8(t) }

  predicate WellFormed(v: CborValue) {
    match v
    case ByteString(b) => |b| < U64
    case Text(t) => WellFormedText(t)
    case Array(items) => |items| < U64 && forall i :: 0 <= i < |items| ==> WellFormed(items[i])
    case Map(pairs) =>
      |pairs| < U64 && forall i :: 0 <= i < |pairs| ==> WellFormedText(pairs[i].0) && WellFormed(pairs[i].1)
    case _ => true
  }

  /** No infinity or NaN anywhere: what the encoder asserts of its argument. */
  predicate AllFinite(v: CborValue) {
    match v
    case Array(items) => forall i :: 0 <= i < |items| ==> AllFinite(items[i])
    case Map(pairs) => forall i :: 0 <= i < |pairs| ==> AllFinite(pairs[i].1)
    case Float(x) => IsFinite(x)
    case _ => true
  }

  predicate Encodable(v: CborValue) { WellFormed(v) && AllFinite(v) }

  /** No map, at any depth, holds a key twice. */
  ghost predicate NoDuplicates(v: CborValue) {
    match v
    case Array(items) => forall i :: 0 <= i < |items| ==> NoDuplicates(items[i])
    case Map(pairs) => DistinctKeys(pairs) && forall i :: 0 <= i < |pairs| ==> NoDuplicates(pairs[i].1)
    case _ => true
  }

  // ---- encoding ----

  /** Major type and argument in the shortest form. */
  function Head(major: nat, arg: nat): (r: Bytes)
    requires major < 8
    ensures r != []
  {
    var prefix := major * 32;
    if arg < 24 then [prefix + arg]
    else if arg <= 0xFF then [prefix + 24] + BigEndian(arg, 1)
    else if arg <= 0xFFFF then [prefix + 25] + BigEndian(arg, 2)
    else if arg <= 0xFFFF_FFFF then [prefix + 26] + BigEndian(arg, 4)
    else [prefix + 27] + BigEndian(arg, 8)
  }

  function EncodeText(t: Bytes): (r: Bytes)
    ensures r != []
  {
    Head(TEXT, |t|) + t
  }

  /** Map entries are ordered by their encoded keys. */
  predicate KeyLess(a: Bytes, b: Bytes) { Less(EncodeText(a), EncodeText(b)) }

  function Concat(parts: seq<Bytes>): Bytes {
    if parts == [] then [] else parts[0] + Concat(parts[1..])
  }

  /** Encoded keys and already encoded values, one entry after the other. */
  function Rows(rows: seq<(Bytes, Bytes)>): Bytes {
    if rows == [] then [] else EncodeText(rows[0].0) + rows[0].1 + Rows(rows[1..])
  }

  function EncodedItems(items: seq<CborValue>): (r: seq<Bytes>)
    ensures |r| == |items| && forall i :: 0 <= i < |items| ==> r[i] == Encode(items[i])
    decreases items, 0
  {
    seq(|items|, i requires 0 <= i < |items| => Encode(items[i]))
  }

  function EncodedPairs(pairs: seq<Pair>): (r: seq<(Bytes, Bytes)>)
    ensures |r| == |pairs| && forall i :: 0 <= i < |pairs| ==> r[i] == (pairs[i].0, Encode(pairs[i].1))
    decreases Map(pairs), 0
  {
    seq(|pairs|, i requires 0 <= i < |pairs| => (pairs[i].0, Encode(pairs[i].1)))
  }

  /** `CborValue::encode`, on values whose floats are finite. */
  function Encode(v: CborValue): (r: Bytes)
    ensures r != []
    decreases v, 1
  {
    match v
    case Uint(n) => Head(UINT, n)
    case ByteString(b) => Head(BYTES, |b|) + b
    case Text(t) => EncodeText(t)
    case Array(items) => Head(ARRAY, |items|) + Concat(EncodedItems(items))
    case Map(pairs) => Head(MAP, |pairs|) + Rows(Sort(KeyLess, EncodedPairs(pairs)))
    case Bool(b) => [if b then 0xF5 else 0xF4]
    case Null => [0xF6]
    case Float(x) => WriteFloat(x)
  }

  // ---- normal form: every map stably sorted by encoded key ----

  function NormalItems(items: seq<CborValue>): (r: seq<CborValue>)
    ensures |r| == |items| && forall i :: 0 <= i < |items| ==> r[i] == Normalise(items[i])
    decreases items, 0
  {
    seq(|items|, i requires 0 <= i < |items| => Normalise(items[i]))
  }

  function NormalPairs(pairs: seq<Pair>): (r: seq<Pair>)
    ensures |r| == |pairs| && forall i :: 0 <= i < |pairs| ==> r[i] == (pairs[i].0, Normalise(pairs[i].1))
    decreases Map(pairs), 0
  {
    seq(|pairs|, i requires 0 <= i < |pairs| => (pairs[i].0, Normalise(pairs[i].1)))
  }

  function Normalise(v: CborValue): CborValue
    decreases v, 1
  {
    match v
    case Array(items) => Array(NormalItems(items))
    case Map(pairs) => Map(Sort(KeyLess, NormalPairs(pairs)))
    case _ => v
  }

  // ---- decoding ----

  /**
   The Rust decoder, the same with the finiteness check it leaves out on half floats, the Go decoder,
   and the Python decoder in strict map order. Each branch below that depends on the decoder is one
   where their sources differ.
   */
  datatype Decoder = Rust | RustChecked | Go | Python

  function Take(bs: Bytes, count: nat): (r: Option<(Bytes, Bytes)>)
    ensures r.Some? ==> |r.value.0| == count && r.value.0 + r.value.1 == bs
  {
    if count > |bs| then None else Some((bs[..count], bs[count..]))
  }

  /** Smallest argument that needs the given additional information. */
  function Minimum(info: nat): nat {
    if info == 24 then 24 else if info == 25 then 0x100 else if info == 26 then 0x1_0000 else 0x1_0000_0000
  }

  function Width(info: nat): nat {
    if info == 24 then 1 else if info == 25 then 2 else if info == 26 then 4 else 8
  }

  /** `read_arg`, `readCborArgument`, `_argument`: only Go accepts an argument in a longer form than needed. */
  function ReadArg(d: Decoder, info: nat, bs: Bytes): (r: Option<(u64, Bytes)>)
    ensures r.Some? ==> |r.value.1| <= |bs|
  {
    if info < 24 then Some((info, bs))
    else if info > 27 then None
    else
      var taken := Take(bs, Width(info));
      if taken.None? then None
      else
        Pow256Values();
        var n := FromBigEndian(taken.value.0);
        if d != Go && n < Minimum(info) then None else Some((n, taken.value.1))
  }

  /** `_roundtrips_at_format`: bits, not numbers, are compared, and an overflow is no round trip. */
  predicate SameBitsAt(f: Format, x: f64bits)
    requires IsFormat(f)
  {
    Finite(f, Narrow(f, x)) && Widen(f, Narrow(f, x)) == x
  }

  predicate FitsHalf(d: Decoder, x: f64bits) { if d == Python then SameBitsAt(F16, x) else RoundTrips(F16, x) }

  predicate FitsSingle(d: Decoder, x: f64bits) { if d == Python then SameBitsAt(F32, x) else RoundTrips(F32, x) }

  function ReadHalf(d: Decoder, y: nat): Option<f64bits>
    requires y < 0x1_0000
  {
    match d
    case Rust => Some(Widen(F16, y))
    case Go => GoToFloat64(y)
    case _ => if Finite(F16, y) then Some(Widen(F16, y)) else None
  }

  function ReadSingle(d: Decoder, y: nat): Option<f64bits>
    requires y < 0x1_0000_0000
  {
    var x := Widen(F32, y);
    if d != Go && (!Finite(F32, y) || FitsHalf(d, x)) then None else Some(x)
  }

  function ReadDouble(d: Decoder, x: f64bits): Option<f64bits> {
    if d != Go && (!IsFinite(x) || FitsHalf(d, x) || FitsSingle(d, x)) then None else Some(x)
  }

  function ReadBits(d: Decoder, info: nat, bits: nat): Option<f64bits>
    requires 25 <= info <= 27 && bits < Pow256(Width(info))
  {
    Pow256Values();
    if info == 25 then ReadHalf(d, bits) else if info == 26 then ReadSingle(d, bits) else ReadDouble(d, bits)
  }

  function ReadFloat(d: Decoder, info: nat, bs: Bytes): (r: Option<(CborValue, Bytes)>)
    ensures r.Some? ==> |r.value.1| <= |bs| && r.value.0.Float?
  {
    if info < 25 || info > 27 then None
    else
      var taken := Take(bs, Width(info));
      if taken.None? then None
      else
        var x := ReadBits(d, info, FromBigEndian(taken.value.0));
        if x.None? then None else Some((Float(x.value), taken.value.1))
  }

  /** One value off the front of `bs`, with the octets after it. */
  function ReadValue(d: Decoder, bs: Bytes): (r: Option<(CborValue, Bytes)>)
    ensures r.Some? ==> |r.value.1| < |bs|
    decreases |bs|, 0
  {
    if bs == [] then None
    else
      var first, rest := bs[0], bs[1..];
      var major, info := first / 32, first % 32;
      if first == 0xF5 then Some((Bool(true), rest))
      else if first == 0xF4 then Some((Bool(false), rest))
      else if first == 0xF6 then Some((Null, rest))
      else if major == 7 then ReadFloat(d, info, rest)
      else
        var arg := ReadArg(d, info, rest);
        if arg.None? then None
        else
          var n, body := arg.value.0, arg.value.1;
          if major == UINT then Some((Uint(n), body))
          else if major == BYTES || major == TEXT then
            var taken := Take(body, n);
            if taken.None? then None
            else if major == BYTES then Some((ByteString(taken.value.0), taken.value.1))
            else if ValidUtf8(taken.value.0) then Some((Text(taken.value.0), taken.value.1))
            else None
          else if major == ARRAY then
            var items := ReadItems(d, n, body);
            if items.None? then None else Some((Array(items.value.0), items.value.1))
          else if major == MAP then
            var pairs := ReadPairs(d, n, None, body);
            if pairs.None? then None else Some((Map(pairs.value.0), pairs.value.1))
          else None
  }

  function ReadItems(d: Decoder, count: nat, bs: Bytes): (r: Option<(seq<CborValue>, Bytes)>)
    ensures r.Some? ==> |r.value.1| <= |bs| && |r.value.0| == count
    decreases |bs|, 1
  {
    if count == 0 then Some(([], bs))
    else
      var head := ReadValue(d, bs);
      if head.None? then None
      else
        var tail := ReadItems(d, count - 1, head.value.1);
        if tail.None? then None else Some(([head.value.0] + tail.value.0, tail.value.1))
  }

  datatype KeyRead = KeyRead(text: Bytes, encoded: Bytes, rest: Bytes)

  /** A text key; `prior` is the encoded form of the key before it, and only Python looks at it. */
  function ReadKey(d: Decoder, prior: Option<Bytes>, bs: Bytes): (r: Option<KeyRead>)
    ensures r.Some? ==> |r.value.rest| < |bs|
    decreases |bs|, 1
  {
    var key := ReadValue(d, bs);
    if key.None? || !key.value.0.Text? then None
    else
      var encoded := bs[..|bs| - |key.value.1|];
      if d == Python && prior.Some? && !Less(prior.value, encoded) then None
      else Some(KeyRead(key.value.0.text, encoded, key.value.1))
  }

  function ReadPairs(d: Decoder, count: nat, prior: Option<Bytes>, bs: Bytes): (r: Option<(seq<Pair>, Bytes)>)
    ensures r.Some? ==> |r.value.1| <= |bs| && |r.value.0| == count
    decreases |bs|, 2
  {
    if count == 0 then Some(([], bs))
    else
      var key := ReadKey(d, prior, bs);
      if key.None? then None
      else
        var value := ReadValue(d, key.value.rest);
        if value.None? then None
        else
          var tail := ReadPairs(d, count - 1, Some(key.value.encoded), value.value.1);
          if tail.None? then None
          else Some(([(key.value.text, value.value.0)] + tail.value.0, tail.value.1))
  }

  /** `decode`: a whole value and nothing after it. */
  function Decode(d: Decoder, bs: Bytes): Option<CborValue> {
    var r := ReadValue(d, bs);
    if r.None? || r.value.1 != [] then None else Some(r.value.0)
  }
}
