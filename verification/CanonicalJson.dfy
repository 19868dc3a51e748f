/** Canonical JSON: compact, members sorted by key, and a reader of that form. */
module CanonicalJson {
  import opened ByteStrings
  import opened StableSort
  import opened Floats
  import opened Decimals
  import opened Hex

  /** A parsed JSON value; an object keeps its members in insertion order, each key once. */
  datatype Json =
    | JNull
    | JBool(boolean: bool)
    | JInt(number: int)
    | JFloat(bits: f64bits)
    | JString(text: Bytes)
    | JArray(items: seq<Json>)
    | JObject(members: seq<(Bytes, Json)>)

  type Member = (Bytes, Json)

  const I64_MIN: int := -0x8000_0000_0000_0000

  /** What the JSON value type guarantees: 64-bit integers, finite floats, each key once. */
  ghost predicate Proper(v: Json) {
    match v
    case JInt(n) => I64_MIN <= n < U64
    case JFloat(x) => IsFinite(x)
    case JArray(items) => forall i :: 0 <= i < |items| ==> Proper(items[i])
    case JObject(members) => DistinctKeys(members) && forall i :: 0 <= i < |members| ==> Proper(members[i].1)
    case _ => true
  }

  ghost predicate FloatFree(v: Json) {
    match v
    case JFloat(_) => false
    case JArray(items) => forall i :: 0 <= i < |items| ==> FloatFree(items[i])
    case JObject(members) => forall i :: 0 <= i < |members| ==> FloatFree(members[i].1)
    case _ => true
  }

  /** A value whose text can be read back; floats ask for digits that read back. */
  ghost predicate Legible(ryu: Ryu, v: Json) { Proper(v) && (FloatFree(v) || Faithful(ryu)) }

  const QUOTE: byte := 34
  const BACKSLASH: byte := 92
  const COMMA: byte := 44
  const COLON: byte := 58
  const OPEN_ARRAY: byte := 91
  const CLOSE_ARRAY: byte := 93
  const OPEN_OBJECT: byte := 123
  const CLOSE_OBJECT: byte := 125

  const NULL_TEXT: Bytes := [110, 117, 108, 108]
  const TRUE_TEXT: Bytes := [116, 114, 117, 101]
  const FALSE_TEXT: Bytes := [102, 97, 108, 115, 101]

  // ---- writing ----

  /** One octet of a string, escaped where JSON requires it (section 7 of RFC 8259). */
  function EscapeByte(b: byte): (t: Bytes)
    ensures t != [] && t[0] != QUOTE
  {
    if b == QUOTE || b == BACKSLASH then [BACKSLASH, b]
    else if b == 8 then [BACKSLASH, 98]
    else if b == 9 then [BACKSLASH, 116]
    else if b == 10 then [BACKSLASH, 110]
    else if b == 12 then [BACKSLASH, 102]
    else if b == 13 then [BACKSLASH, 114]
    else if b < 32 then [BACKSLASH, 117, ZERO, ZERO, HexDigit(b / 16), HexDigit(b % 16)]
    else [b]
  }

  function Escaped(t: Bytes): Bytes {
    if t == [] then [] else EscapeByte(t[0]) + Escaped(t[1..])
  }

  function QuotedText(t: Bytes): Bytes { [QUOTE] + Escaped(t) + [QUOTE] }

  /** `join(",")` */
  function Joined(parts: seq<Bytes>): Bytes {
    if parts == [] then []
    else if |parts| == 1 then parts[0]
    else parts[0] + [COMMA] + Joined(parts[1..])
  }

  function MemberParts(rows: seq<(Bytes, Bytes)>): (r: seq<Bytes>)
    ensures |r| == |rows| && forall i :: 0 <= i < |rows| ==> r[i] == QuotedText(rows[i].0) + [COLON] + rows[i].1
  {
    seq(|rows|, i requires 0 <= i < |rows| => QuotedText(rows[i].0) + [COLON] + rows[i].1)
  }

  function ItemTexts(ryu: Ryu, items: seq<Json>): (r: seq<Bytes>)
    ensures |r| == |items| && forall i :: 0 <= i < |items| ==> r[i] == JsonText(ryu, items[i])
    decreases items, 0
  {
    seq(|items|, i requires 0 <= i < |items| => JsonText(ryu, items[i]))
  }

  function MemberTexts(ryu: Ryu, members: seq<Member>): (r: seq<(Bytes, Bytes)>)
    ensures |r| == |members| && forall i :: 0 <= i < |members| ==> r[i] == (members[i].0, JsonText(ryu, members[i].1))
    decreases JObject(members), 0
  {
    seq(|members|, i requires 0 <= i < |members| => (members[i].0, JsonText(ryu, members[i].1)))
  }

  /** `canonicalize_json` */
  function JsonText(ryu: Ryu, v: Json): Bytes
    decreases v, 1
  {
    match v
    case JNull => NULL_TEXT
    case JBool(b) => if b then TRUE_TEXT else FALSE_TEXT
    case JInt(n) => IntText(n)
    case JFloat(x) => FloatText(ryu, x)
    case JString(t) => QuotedText(t)
    case JArray(items) => [OPEN_ARRAY] + Joined(ItemTexts(ryu, items)) + [CLOSE_ARRAY]
    case JObject(members) =>
      [OPEN_OBJECT] + Joined(MemberParts(Sort(Less, MemberTexts(ryu, members)))) + [CLOSE_OBJECT]
  }

  // ---- normal form: every object sorted by key ----

  function NormalItems(items: seq<Json>): (r: seq<Json>)
    ensures |r| == |items| && forall i :: 0 <= i < |items| ==> r[i] == NormalJson(items[i])
    decreases items, 0
  {
    seq(|items|, i requires 0 <= i < |items| => NormalJson(items[i]))
  }

  function NormalMembers(members: seq<Member>): (r: seq<Member>)
    ensures |r| == |members| && forall i :: 0 <= i < |members| ==> r[i] == (members[i].0, NormalJson(members[i].1))
    decreases JObject(members), 0
  {
    seq(|members|, i requires 0 <= i < |members| => (members[i].0, NormalJson(members[i].1)))
  }

  function NormalJson(v: Json): Json
    decreases v, 1
  {
    match v
    case JArray(items) => JArray(NormalItems(items))
    case JObject(members) => JObject(Sort(Less, NormalMembers(members)))
    case _ => v
  }

  // ---- reading ----

  /** One possibly escaped octet inside a string. */
  function ReadChar(bs: Bytes): (r: Option<(byte, Bytes)>)
    ensures r.Some? ==> |r.value.1| < |bs|
  {
    if bs == [] || bs[0] < 32 then None
    else if bs[0] != BACKSLASH then Some((bs[0], bs[1..]))
    else if |bs| < 2 then None
    else if bs[1] == QUOTE || bs[1] == BACKSLASH then Some((bs[1], bs[2..]))
    else if bs[1] == 98 then Some((8, bs[2..]))
    else if bs[1] == 116 then Some((9, bs[2..]))
    else if bs[1] == 110 then Some((10, bs[2..]))
    else if bs[1] == 102 then Some((12, bs[2..]))
    else if bs[1] == 114 then Some((13, bs[2..]))
    else if bs[1] == 117 && |bs| >= 6 && bs[2] == ZERO && bs[3] == ZERO
            && DigitValue(bs[4]).Some? && DigitValue(bs[5]).Some? then
      Some((16 * DigitValue(bs[4]).value + DigitValue(bs[5]).value, bs[6..]))
    else None
  }

  /** The rest of a string after its opening quote. */
  function ReadChars(bs: Bytes): (r: Option<(Bytes, Bytes)>)
    ensures r.Some? ==> |r.value.1| < |bs|
    decreases |bs|
  {
    if bs == [] then None
    else if bs[0] == QUOTE then Some(([], bs[1..]))
    else
      var head := ReadChar(bs);
      if head.None? then None
      else
        var tail := ReadChars(head.value.1);
        if tail.None? then None else Some(([head.value.0] + tail.value.0, tail.value.1))
  }

  predicate NumberByte(b: byte) { IsDigit(b) || b == MINUS || b == DOT || b == EXPONENT }

  function TokenLength(bs: Bytes): (n: nat)
    ensures n <= |bs|
  {
    if bs == [] || !NumberByte(bs[0]) then 0 else 1 + TokenLength(bs[1..])
  }

  function ReadNumber(ryu: Ryu, bs: Bytes): (r: Option<(Json, Bytes)>)
    ensures r.Some? ==> |r.value.1| < |bs|
  {
    var n := TokenLength(bs);
    var token, rest := bs[..n], bs[n..];
    if n == 0 then None
    else if DOT in token || EXPONENT in token then
      var x := ReadFloatText(ryu, token);
      if x.None? then None else Some((JFloat(x.value), rest))
    else
      var number := ReadInt(token);
      if number.None? then None else Some((JInt(number.value), rest))
  }

  predicate Begins(bs: Bytes, prefix: Bytes) {
    |prefix| <= |bs| && forall i :: 0 <= i < |prefix| ==> bs[i] == prefix[i]
  }

  /** One value off the front of `bs`, with the octets after it. */
  function ReadJson(ryu: Ryu, bs: Bytes): (r: Option<(Json, Bytes)>)
    ensures r.Some? ==> |r.value.1| < |bs|
    decreases |bs|, 0
  {
    if bs == [] then None
    else if Begins(bs, NULL_TEXT) then Some((JNull, bs[4..]))
    else if Begins(bs, TRUE_TEXT) then Some((JBool(true), bs[4..]))
    else if Begins(bs, FALSE_TEXT) then Some((JBool(false), bs[5..]))
    else if bs[0] == QUOTE then
      var t := ReadChars(bs[1..]);
      if t.None? then None else Some((JString(t.value.0), t.value.1))
    else if bs[0] == OPEN_ARRAY then
      if |bs| > 1 && bs[1] == CLOSE_ARRAY then Some((JArray([]), bs[2..]))
      else
        var items := ReadItems(ryu, bs[1..]);
        if items.None? then None else Some((JArray(items.value.0), items.value.1))
    else if bs[0] == OPEN_OBJECT then
      if |bs| > 1 && bs[1] == CLOSE_OBJECT then Some((JObject([]), bs[2..]))
      else
        var members := ReadMembers(ryu, bs[1..]);
        if members.None? then None else Some((JObject(members.value.0), members.value.1))
    else ReadNumber(ryu, bs)
  }

  /** One or more items up to the closing bracket. */
  function ReadItems(ryu: Ryu, bs: Bytes): (r: Option<(seq<Json>, Bytes)>)
    ensures r.Some? ==> |r.value.1| < |bs|
    decreases |bs|, 1
  {
    var head := ReadJson(ryu, bs);
    if head.None? || head.value.1 == [] then None
    else
      var next, rest := head.value.1[0], head.value.1[1..];
      if next == CLOSE_ARRAY then Some(([head.value.0], rest))
      else if next != COMMA then None
      else
        var tail := ReadItems(ryu, rest);
        if tail.None? then None else Some(([head.value.0] + tail.value.0, tail.value.1))
  }

  function ReadMember(ryu: Ryu, bs: Bytes): (r: Option<(Member, Bytes)>)
    ensures r.Some? ==> |r.value.1| < |bs|
    decreases |bs|, 1
  {
    if bs == [] || bs[0] != QUOTE then None
    else
      var key := ReadChars(bs[1..]);
      if key.None? || key.value.1 == [] || key.value.1[0] != COLON then None
      else
        var value := ReadJson(ryu, key.value.1[1..]);
        if value.None? then None else Some(((key.value.0, value.value.0), value.value.1))
  }

  function ReadMembers(ryu: Ryu, bs: Bytes): (r: Option<(seq<Member>, Bytes)>)
    ensures r.Some? ==> |r.value.1| < |bs|
    decreases |bs|, 2
  {
    var head := ReadMember(ryu, bs);
    if head.None? || head.value.1 == [] then None
    else
      var next, rest := head.value.1[0], head.value.1[1..];
      if next == CLOSE_OBJECT then Some(([head.value.0], rest))
      else if next != COMMA then None
      else
        var tail := ReadMembers(ryu, rest);
        if tail.None? then None else Some(([head.value.0] + tail.value.0, tail.value.1))
  }

  // ---- strings and numbers read back ----

  lemma ReadEscapedByte(b: byte, rest: Bytes)
    ensures ReadChar(EscapeByte(b) + rest) == Some((b, rest))
  {
  }

  lemma {:induction false} ReadEscaped(t: Bytes, rest: Bytes)
    ensures ReadChars(Escaped(t) + [QUOTE] + rest) == Some((t, rest))
  {
    hide EscapeByte, ReadChar;
    var bs := Escaped(t) + [QUOTE] + rest;
    if t == [] {
      assert bs[1..] == rest;
    } else {
      var more := Escaped(t[1..]) + [QUOTE] + rest;
      assert bs == EscapeByte(t[0]) + more;
      ReadEscapedByte(t[0], more);
      ReadEscaped(t[1..], rest);
      assert t == [t[0]] + t[1..];
    }
  }

  /** Nothing that could continue a number follows. */
  ghost predicate Delimited(rest: Bytes) { rest == [] || !NumberByte(rest[0]) }

  ghost predicate AllNumberBytes(t: Bytes) { forall i :: 0 <= i < |t| ==> NumberByte(t[i]) }

  lemma {:induction false} TokenEnds(t: Bytes, rest: Bytes)
    requires AllNumberBytes(t) && Delimited(rest)
    ensures TokenLength(t + rest) == |t|
  {
    if t == [] {
      assert t + rest == rest;
    } else {
      assert (t + rest)[1..] == t[1..] + rest;
      TokenEnds(t[1..], rest);
    }
  }

  lemma IntTextBytes(n: int)
    ensures AllNumberBytes(IntText(n)) && DOT !in IntText(n) && EXPONENT !in IntText(n)
  {
    NatTextReads(if n < 0 then -n else n);
  }

  lemma DecimalTextBytes(d: Decimal)
    ensures AllNumberBytes(DecimalText(d)) && (DOT in DecimalText(d) || EXPONENT in DecimalText(d))
  {
    hide NatText, IntText;
    NatTextReads(d.digits);
    var digits := NatText(d.digits);
    var kk := |digits| + d.k;
    IntTextBytes(kk - 1);
    var t := DecimalText(d);
    if 0 <= d.k && kk <= 16 {
      assert t[|t| - 2] == DOT;
    } else if 0 < kk <= 16 {
      assert t[kk] == DOT;
    } else if -5 < kk <= 0 {
      assert t[1] == DOT;
    } else {
      assert t[if |digits| == 1 then 1 else |digits| + 1] == EXPONENT;
    }
  }

  lemma FloatTextBytes(ryu: Ryu, x: f64bits)
    ensures AllNumberBytes(FloatText(ryu, x)) && (DOT in FloatText(ryu, x) || EXPONENT in FloatText(ryu, x))
  {
    hide DecimalText;
    if Unsigned(F64, x) == 0 {
      assert DOT in [ZERO, DOT, ZERO];
    } else {
      DecimalTextBytes(ryu.shortest(Unsigned(F64, x)));
    }
  }

  ghost predicate IsNumber(v: Json) { v.JInt? || v.JFloat? }

  lemma ReadNumberBack(ryu: Ryu, v: Json, rest: Bytes)
    requires Legible(ryu, v) && IsNumber(v) && Delimited(rest)
    ensures ReadNumber(ryu, JsonText(ryu, v) + rest) == Some((v, rest))
    ensures NumberByte(JsonText(ryu, v)[0])
  {
    hide FloatText, IntText, ReadInt, ReadFloatText, Faithful, TokenLength;
    var t := JsonText(ryu, v);
    if v.JInt? {
      IntTextBytes(v.number);
      IntTextReads(v.number);
    } else {
      FloatTextBytes(ryu, v.bits);
      FloatTextReads(ryu, v.bits);
    }
    TokenEnds(t, rest);
    assert (t + rest)[..|t|] == t && (t + rest)[|t|..] == rest;
  }

  // ---- values read back ----

  /** The reader recovers the normal form of a value from its canonical text, and what followed. */
  lemma {:induction false} ReadText(ryu: Ryu, v: Json, rest: Bytes)
    requires Legible(ryu, v) && Delimited(rest)
    ensures ReadJson(ryu, JsonText(ryu, v) + rest) == Some((NormalJson(v), rest))
    decreases v, 3
  {
    hide Faithful, Sort, ReadNumber, ReadChars, ReadItems, ReadMembers, Escaped, FloatText, IntText, Joined;
    var bs := JsonText(ryu, v) + rest;
    match v {
      case JNull => assert bs[4..] == rest;
      case JBool(b) => BooleanReads(ryu, b, rest);
      case JString(t) =>
        NoLiteral(bs);
        ReadEscaped(t, rest);
        assert bs[1..] == Escaped(t) + [QUOTE] + rest;
      case JArray(items) => ReadArrayBack(ryu, v, rest);
      case JObject(members) => ReadObjectBack(ryu, v, rest);
      case _ =>
        ReadNumberBack(ryu, v, rest);
        NumberStarts(ryu, bs);
    }
  }

  lemma BooleanReads(ryu: Ryu, b: bool, rest: Bytes)
    ensures ReadJson(ryu, (if b then TRUE_TEXT else FALSE_TEXT) + rest) == Some((JBool(b), rest))
  {
    var bs := (if b then TRUE_TEXT else FALSE_TEXT) + rest;
    assert bs[0] != NULL_TEXT[0] && (bs[0] == TRUE_TEXT[0] <==> b) && TRUE_TEXT[0] != FALSE_TEXT[0];
    assert bs[|if b then TRUE_TEXT else FALSE_TEXT|..] == rest;
  }

  lemma NoLiteral(bs: Bytes)
    requires bs != [] && bs[0] != NULL_TEXT[0] && bs[0] != TRUE_TEXT[0] && bs[0] != FALSE_TEXT[0]
    ensures !Begins(bs, NULL_TEXT) && !Begins(bs, TRUE_TEXT) && !Begins(bs, FALSE_TEXT)
  {
  }

  lemma NumberStarts(ryu: Ryu, bs: Bytes)
    requires bs != [] && NumberByte(bs[0])
    ensures ReadJson(ryu, bs) == ReadNumber(ryu, bs)
  {
  }

  lemma {:induction false} ReadArrayBack(ryu: Ryu, v: Json, rest: Bytes)
    requires Legible(ryu, v) && v.JArray?
    ensures ReadJson(ryu, JsonText(ryu, v) + rest) == Some((NormalJson(v), rest))
    decreases v, 2
  {
    hide Faithful, ReadItems;
    var bs, body := JsonText(ryu, v) + rest, Joined(ItemTexts(ryu, v.items)) + [CLOSE_ARRAY] + rest;
    NoLiteral(bs);
    assert bs[1..] == body;
    if v.items == [] {
      assert bs[2..] == rest;
      assert NormalItems(v.items) == [];
    } else {
      ReadItemsBack(ryu, v, v.items, rest);
    }
  }

  lemma {:induction false} ReadItemsBack(ryu: Ryu, parent: Json, items: seq<Json>, rest: Bytes)
    requires items != [] && forall i :: 0 <= i < |items| ==> items[i] < parent && Legible(ryu, items[i])
    ensures var bs := Joined(ItemTexts(ryu, items)) + [CLOSE_ARRAY] + rest;
            bs[0] != CLOSE_ARRAY && ReadItems(ryu, bs) == Some((NormalItems(items), rest))
    decreases parent, 1, |items|
  {
    hide Legible, JsonText, NormalJson, ReadJson;
    FirstByte(ryu, items[0]);
    if |items| == 1 {
      ReadText(ryu, items[0], [CLOSE_ARRAY] + rest);
      assert Joined(ItemTexts(ryu, items)) + [CLOSE_ARRAY] + rest == JsonText(ryu, items[0]) + ([CLOSE_ARRAY] + rest);
      assert NormalItems(items) == [NormalJson(items[0])];
    } else {
      var more := Joined(ItemTexts(ryu, items[1..])) + [CLOSE_ARRAY] + rest;
      assert ItemTexts(ryu, items)[1..] == ItemTexts(ryu, items[1..]);
      assert Joined(ItemTexts(ryu, items)) + [CLOSE_ARRAY] + rest == JsonText(ryu, items[0]) + ([COMMA] + more);
      ReadText(ryu, items[0], [COMMA] + more);
      ReadItemsBack(ryu, parent, items[1..], rest);
      assert NormalItems(items) == [NormalJson(items[0])] + NormalItems(items[1..]);
    }
  }

  /** A text begins with none of the closing brackets. */
  lemma FirstByte(ryu: Ryu, v: Json)
    ensures JsonText(ryu, v) != [] && JsonText(ryu, v)[0] != CLOSE_ARRAY
  {
    hide Sort, Joined, IntText, FloatText;
    if v.JInt? {
      IntTextBytes(v.number);
    } else if v.JFloat? {
      FloatTextBytes(ryu, v.bits);
    }
  }

  lemma SortedMemberTexts(ryu: Ryu, members: seq<Member>)
    ensures Sort(Less, MemberTexts(ryu, members)) == MemberTexts(ryu, Sort(Less, members))
  {
    SortSameKeys(Less, members, MemberTexts(ryu, members));
  }

  lemma SortedNormalMembers(members: seq<Member>)
    ensures Sort(Less, NormalMembers(members)) == NormalMembers(Sort(Less, members))
  {
    SortSameKeys(Less, members, NormalMembers(members));
  }

  lemma SortedParts(ryu: Ryu, v: Json)
    requires v.JObject? && Legible(ryu, v)
    ensures var sorted := Sort(Less, v.members);
            |sorted| == |v.members| && forall i :: 0 <= i < |sorted| ==> sorted[i].1 < v && Legible(ryu, sorted[i].1)
  {
  }

  lemma ObjectTexts(ryu: Ryu, v: Json, rest: Bytes)
    requires v.JObject?
    ensures var sorted := Sort(Less, v.members);
            JsonText(ryu, v) + rest ==
              [OPEN_OBJECT] + (Joined(MemberParts(MemberTexts(ryu, sorted))) + [CLOSE_OBJECT] + rest)
    ensures NormalJson(v) == JObject(NormalMembers(Sort(Less, v.members)))
  {
    SortedMemberTexts(ryu, v.members);
    SortedNormalMembers(v.members);
    hide Sort, Joined, Less, MemberParts;
  }

  lemma {:induction false} ReadObjectBack(ryu: Ryu, v: Json, rest: Bytes)
    requires Legible(ryu, v) && v.JObject?
    ensures ReadJson(ryu, JsonText(ryu, v) + rest) == Some((NormalJson(v), rest))
    decreases v, 2
  {
    var sorted := Sort(Less, v.members);
    SortedParts(ryu, v);
    ObjectTexts(ryu, v, rest);
    hide Legible, ReadMembers, Sort, JsonText, NormalJson, MemberParts;
    var bs, body := JsonText(ryu, v) + rest, Joined(MemberParts(MemberTexts(ryu, sorted))) + [CLOSE_OBJECT] + rest;
    NoLiteral(bs);
    assert bs[1..] == body;
    if sorted == [] {
      assert bs[2..] == rest;
      assert NormalMembers(sorted) == [];
    } else {
      ReadMembersBack(ryu, v, sorted, rest);
    }
  }

  lemma {:induction false} ReadMemberBack(ryu: Ryu, parent: Json, member: Member, rest: Bytes)
    requires member.1 < parent && Legible(ryu, member.1) && Delimited(rest)
    ensures var bs := QuotedText(member.0) + [COLON] + JsonText(ryu, member.1) + rest;
            ReadMember(ryu, bs) == Some(((member.0, NormalJson(member.1)), rest))
    decreases parent, 0
  {
    hide Legible, JsonText, NormalJson, ReadJson, ReadChars, Escaped;
    var value := JsonText(ryu, member.1) + rest;
    var bs := QuotedText(member.0) + [COLON] + JsonText(ryu, member.1) + rest;
    assert bs[1..] == Escaped(member.0) + [QUOTE] + ([COLON] + value);
    ReadEscaped(member.0, [COLON] + value);
    ReadText(ryu, member.1, rest);
  }

  lemma {:induction false} ReadMembersBack(ryu: Ryu, parent: Json, members: seq<Member>, rest: Bytes)
    requires members != [] && forall i :: 0 <= i < |members| ==> members[i].1 < parent && Legible(ryu, members[i].1)
    ensures var bs := Joined(MemberParts(MemberTexts(ryu, members))) + [CLOSE_OBJECT] + rest;
            bs[0] != CLOSE_OBJECT && ReadMembers(ryu, bs) == Some((NormalMembers(members), rest))
    decreases parent, 1, |members|
  {
    hide Legible, JsonText, NormalJson, ReadMember, Escaped;
    var parts := MemberParts(MemberTexts(ryu, members));
    if |members| == 1 {
      ReadMemberBack(ryu, parent, members[0], [CLOSE_OBJECT] + rest);
      assert Joined(parts) + [CLOSE_OBJECT] + rest == parts[0] + ([CLOSE_OBJECT] + rest);
      assert NormalMembers(members) == [(members[0].0, NormalJson(members[0].1))];
    } else {
      var more := Joined(MemberParts(MemberTexts(ryu, members[1..]))) + [CLOSE_OBJECT] + rest;
      assert parts[1..] == MemberParts(MemberTexts(ryu, members[1..]));
      assert Joined(parts) + [CLOSE_OBJECT] + rest == parts[0] + ([COMMA] + more);
      ReadMemberBack(ryu, parent, members[0], [COMMA] + more);
      ReadMembersBack(ryu, parent, members[1..], rest);
      assert NormalMembers(members) == [(members[0].0, NormalJson(members[0].1))] + NormalMembers(members[1..]);
    }
  }

  // ---- consequences ----

  lemma {:induction false} TextOfNormal(ryu: Ryu, v: Json)
    ensures JsonText(ryu, NormalJson(v)) == JsonText(ryu, v)
  {
    match v {
      case JArray(items) =>
        forall i | 0 <= i < |items| ensures JsonText(ryu, NormalItems(items)[i]) == JsonText(ryu, items[i]) {
          TextOfNormal(ryu, items[i]);
        }
        assert ItemTexts(ryu, NormalItems(items)) == ItemTexts(ryu, items);
      case JObject(members) =>
        forall i | 0 <= i < |members|
          ensures JsonText(ryu, NormalMembers(members)[i].1) == JsonText(ryu, members[i].1)
        {
          TextOfNormal(ryu, members[i].1);
        }
        TextOfSorted(ryu, members);
      case _ =>
    }
  }

  lemma TextOfSorted(ryu: Ryu, members: seq<Member>)
    requires forall i :: 0 <= i < |members| ==>
            JsonText(ryu, NormalMembers(members)[i].1) == JsonText(ryu, members[i].1)
    ensures JsonText(ryu, NormalJson(JObject(members))) == JsonText(ryu, JObject(members))
  {
    hide Joined, Sort;
    assert NormalJson(JObject(members)) == JObject(Sort(Less, NormalMembers(members)));
    SortTwice(ryu, NormalMembers(members));
    hide JsonText, NormalJson;
    assert MemberTexts(ryu, NormalMembers(members)) == MemberTexts(ryu, members);
    assert Sort(Less, MemberTexts(ryu, Sort(Less, NormalMembers(members)))) == Sort(Less, MemberTexts(ryu, members));
  }

  lemma SortTwice(ryu: Ryu, members: seq<Member>)
    ensures Sort(Less, MemberTexts(ryu, Sort(Less, members))) == Sort(Less, MemberTexts(ryu, members))
  {
    hide Sort, JsonText, StrictOrder, Less;
    LessIsStrictOrder();
    SortedMemberTexts(ryu, members);
    SortIsSorted(Less, members);
    SortSorted(Less, MemberTexts(ryu, Sort(Less, members)));
  }

  /** Two values have one canonical text exactly when they differ in member order only. */
  lemma TextDetermines(ryu: Ryu, a: Json, b: Json)
    requires Legible(ryu, a) && Legible(ryu, b)
    ensures JsonText(ryu, a) == JsonText(ryu, b) <==> NormalJson(a) == NormalJson(b)
  {
    hide Legible;
    ReadText(ryu, a, []);
    ReadText(ryu, b, []);
    assert JsonText(ryu, a) + [] == JsonText(ryu, a) && JsonText(ryu, b) + [] == JsonText(ryu, b);
    TextOfNormal(ryu, a);
    TextOfNormal(ryu, b);
  }

  /** The order in which members were inserted leaves no trace. */
  lemma MemberOrderIgnored(ryu: Ryu, a: seq<Member>, b: seq<Member>)
    requires DistinctKeys(a) && DistinctKeys(b) && SameMembers(a, b)
    ensures JsonText(ryu, JObject(a)) == JsonText(ryu, JObject(b))
  {
    LessIsStrictOrder();
    SortPermutation(Less, a, b);
    SortedMemberTexts(ryu, a);
    SortedMemberTexts(ryu, b);
    hide Sort, SameMembers, Joined;
  }

  // ---- what octets a text can hold ----

  /** Neither a control octet nor the one that ends a digest frame. */
  predicate Plain(b: byte) { 32 <= b < 255 }

  ghost predicate AllPlain(t: Bytes) { forall i :: 0 <= i < |t| ==> Plain(t[i]) }

  /** No string in the value holds an octet that UTF-8 never uses. */
  ghost predicate FreeOfFF(v: Json) {
    match v
    case JString(t) => 0xFF !in t
    case JArray(items) => forall i :: 0 <= i < |items| ==> FreeOfFF(items[i])
    case JObject(members) => forall i :: 0 <= i < |members| ==> 0xFF !in members[i].0 && FreeOfFF(members[i].1)
    case _ => true
  }

  lemma {:induction false} EscapedPlain(t: Bytes)
    requires 0xFF !in t
    ensures AllPlain(Escaped(t))
  {
    if t != [] {
      EscapedPlain(t[1..]);
      assert t[0] in t;
      assert AllPlain(EscapeByte(t[0]));
    }
  }

  lemma {:induction false} JoinedPlain(parts: seq<Bytes>)
    requires forall i :: 0 <= i < |parts| ==> AllPlain(parts[i])
    ensures AllPlain(Joined(parts))
  {
    if |parts| > 1 {
      JoinedPlain(parts[1..]);
    }
  }

  /** Canonical text holds no control octet and no 0xFF, however strings and members nest. */
  lemma {:induction false} TextIsPlain(ryu: Ryu, v: Json)
    requires FreeOfFF(v)
    ensures AllPlain(JsonText(ryu, v))
    decreases v
  {
    hide Sort, Joined, IntText, FloatText, Escaped, MemberParts;
    match v {
      case JInt(n) => IntTextBytes(n);
      case JFloat(x) => FloatTextBytes(ryu, x);
      case JString(t) => EscapedPlain(t);
      case JArray(items) =>
        forall i | 0 <= i < |items| ensures AllPlain(ItemTexts(ryu, items)[i]) {
          TextIsPlain(ryu, items[i]);
        }
        JoinedPlain(ItemTexts(ryu, items));
      case JObject(members) =>
        forall i | 0 <= i < |members| ensures AllPlain(JsonText(ryu, members[i].1)) {
          TextIsPlain(ryu, members[i].1);
        }
        MembersPlain(ryu, members);
      case _ =>
    }
  }

  lemma MembersPlain(ryu: Ryu, members: seq<Member>)
    requires forall i :: 0 <= i < |members| ==> 0xFF !in members[i].0 && AllPlain(JsonText(ryu, members[i].1))
    ensures AllPlain(Joined(MemberParts(Sort(Less, MemberTexts(ryu, members)))))
  {
    hide Order, JsonText, AllPlain, Less;
    var rows := MemberTexts(ryu, members);
    SortSameKeys(Less, rows, rows);
    var sorted := Sort(Less, rows);
    assert forall i :: 0 <= i < |sorted| ==> 0xFF !in sorted[i].0 && AllPlain(sorted[i].1);
    hide Sort;
    forall i | 0 <= i < |sorted| ensures AllPlain(MemberParts(sorted)[i]) {
      MemberPlain(sorted[i]);
    }
    JoinedPlain(MemberParts(sorted));
  }

  lemma MemberPlain(row: (Bytes, Bytes))
    requires 0xFF !in row.0 && AllPlain(row.1)
    ensures AllPlain(QuotedText(row.0) + [COLON] + row.1)
  {
    EscapedPlain(row.0);
    hide Escaped;
  }
}
