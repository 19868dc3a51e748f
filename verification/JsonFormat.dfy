/**
 Canonical JSON text as a grammar in literals (RFC 8259), which one text of each value meets; how short
 its escapes are, and where its floats take an exponent.
 */
module JsonFormat {
  import opened ByteStrings
  import opened StableSort
  import opened Floats
  import opened Decimals
  import opened CanonicalJson

  // ---- strings ----

  /** How a string writes one octet: most as they are, seven behind a backslash, the other controls by number. */
  predicate Escapes(e: Bytes, b: byte) {
    || (b >= 32 && b != 34 && b != 92 && e == [b])
    || (|e| == 2 && e[0] == 92
        && (b, e[1]) in [(34, 34), (92, 92), (8, 98), (9, 116), (10, 110), (12, 102), (13, 114)])
    || (&& b < 32 && b !in [8, 9, 10, 12, 13] && |e| == 6 && e[..4] == Ascii("\\u00")
        && e[4] == 48 + b / 16 && e[5] == if b % 16 < 10 then 48 + b % 16 else 87 + b % 16)
  }

  /** `bs` runs through the escapes of `t`, octet by octet. */
  ghost predicate StringSpelled(bs: Bytes, t: Bytes)
    decreases |t|
  {
    if t == [] then bs == []
    else exists k :: 0 < k <= |bs| && Escapes(bs[..k], t[0]) && StringSpelled(bs[k..], t[1..])
  }

  ghost predicate Quoted(bs: Bytes, t: Bytes) {
    |bs| >= 2 && bs[0] == 34 && bs[|bs| - 1] == 34 && StringSpelled(bs[1..|bs| - 1], t)
  }

  lemma EscapeSpelled(e: Bytes, b: byte)
    ensures Escapes(e, b) <==> e == EscapeByte(b)
  {
    assert Ascii("\\u00") == [92, 117, 48, 48];
    if Escapes(e, b) && |e| == 6 {
      assert e == e[..4] + [e[4], e[5]];
    }
  }

  lemma {:induction false} StringText(bs: Bytes, t: Bytes)
    ensures StringSpelled(bs, t) <==> bs == Escaped(t)
    decreases |t|
  {
    hide Escapes, EscapeByte;
    if t != [] {
      var e := EscapeByte(t[0]);
      EscapeSpelled(e, t[0]);
      if bs == Escaped(t) {
        assert bs[..|e|] == e && bs[|e|..] == Escaped(t[1..]);
        StringText(bs[|e|..], t[1..]);
      }
      if StringSpelled(bs, t) {
        var k :| 0 < k <= |bs| && Escapes(bs[..k], t[0]) && StringSpelled(bs[k..], t[1..]);
        EscapeSpelled(bs[..k], t[0]);
        StringText(bs[k..], t[1..]);
        assert bs == bs[..k] + bs[k..];
      }
    }
  }

  lemma QuotedSpelled(bs: Bytes, t: Bytes)
    ensures Quoted(bs, t) <==> bs == QuotedText(t)
  {
    if |bs| >= 2 {
      StringText(bs[1..|bs| - 1], t);
      assert bs == [bs[0]] + bs[1..|bs| - 1] + [bs[|bs| - 1]];
    }
    assert QuotedText(t)[1..|QuotedText(t)| - 1] == Escaped(t);
  }

  // ---- no escape is longer than it has to be ----

  /** Whatever reads as one octet is at least as long as its escape. */
  lemma EscapeShortest(bs: Bytes)
    requires ReadChar(bs).Some? && bs[0] != 34
    ensures |EscapeByte(ReadChar(bs).value.0)| <= |bs| - |ReadChar(bs).value.1|
  {
  }

  /** No text that reads back as `t` is shorter than the escaped one. */
  lemma {:induction false} EscapedShortest(e: Bytes, t: Bytes)
    requires ReadChars(e + [34]) == Some((t, []))
    ensures |Escaped(t)| <= |e|
    decreases |e|
  {
    hide ReadChar, EscapeByte;
    var bs := e + [34];
    if bs[0] == 34 {
      assert t == [];
    } else {
      var head := ReadChar(bs).value;
      EscapeShortest(bs);
      ReadCharTakes(bs);
      var k := |bs| - |head.1|;
      assert ReadChars(head.1) == Some((t[1..], []));
      LastQuote(head.1, t[1..]);
      assert head.1 == e[k..] + [34];
      EscapedShortest(e[k..], t[1..]);
    }
  }

  lemma ReadCharTakes(bs: Bytes)
    requires ReadChar(bs).Some?
    ensures ReadChar(bs).value.1 == bs[|bs| - |ReadChar(bs).value.1|..]
  {
  }

  /** Something is left for the closing quote. */
  lemma LastQuote(bs: Bytes, t: Bytes)
    requires ReadChars(bs) == Some((t, []))
    ensures bs != []
  {
  }

  // ---- integers ----

  /** Decimal digits without a superfluous zero in front. */
  ghost predicate Digits(bs: Bytes, n: nat) {
    bs != [] && AllDigits(bs) && (|bs| > 1 ==> bs[0] != 48) && ReadNat(bs) == n
  }

  ghost predicate Integer(bs: Bytes, n: int) {
    if n < 0 then bs != [] && bs[0] == 45 && Digits(bs[1..], -n) else Digits(bs, n)
  }

  lemma {:induction false} DigitsSpelled(bs: Bytes, n: nat)
    ensures Digits(bs, n) <==> bs == NatText(n)
    decreases n
  {
    NatTextReads(n);
    if n >= 10 {
      DigitsSpelled(NatText(n / 10), n / 10);
      assert NatText(n)[0] == NatText(n / 10)[0];
      if Digits(bs, n) {
        var init := bs[..|bs| - 1];
        assert bs == init + [bs[|bs| - 1]];
        DigitsSpelled(init, n / 10);
      }
    } else if Digits(bs, n) && |bs| > 1 {
      LeadingDigit(bs);
    }
  }

  /** A number of two digits or more that starts with no zero is at least ten. */
  lemma {:induction false} LeadingDigit(bs: Bytes)
    requires |bs| > 1 && AllDigits(bs) && bs[0] != 48
    ensures ReadNat(bs) >= 10
  {
    var init := bs[..|bs| - 1];
    if |bs| == 2 {
      assert ReadNat(init) == 10 * ReadNat([]) + (init[0] - ZERO);
    } else {
      LeadingDigit(init);
    }
  }

  lemma IntegerSpelled(bs: Bytes, n: int)
    ensures Integer(bs, n) <==> bs == IntText(n)
  {
    if n < 0 {
      if bs != [] {
        DigitsSpelled(bs[1..], -n);
        assert bs == [bs[0]] + bs[1..];
      }
      assert IntText(n)[1..] == NatText(-n);
    } else {
      DigitsSpelled(bs, n);
    }
  }

  // ---- floats ----

  /** The number `d` is at least ten to the `m`. */
  predicate Reaches(d: Decimal, m: int) { d.k >= m || d.digits >= Pow10(m - d.k) }

  lemma {:induction false} Pow10Grows(m: nat, n: nat)
    requires m < n
    ensures Pow10(m) < Pow10(n)
  {
    if m + 1 < n { Pow10Grows(m, n - 1); }
  }

  /** A number has `n` digits from ten to the `n - 1` up to the next power. */
  lemma {:induction false} DigitCount(n: nat)
    requires n > 0
    ensures Pow10(|NatText(n)| - 1) <= n < Pow10(|NatText(n)|)
  {
    if n >= 10 { DigitCount(n / 10); }
  }

  lemma ReachesByPlace(d: Decimal, m: int)
    requires d.digits > 0
    ensures Reaches(d, m) <==> |NatText(d.digits)| + d.k > m
  {
    var len := |NatText(d.digits)|;
    DigitCount(d.digits);
    hide NatText, Pow10;
    if d.k < m {
      if m - d.k < len - 1 { Pow10Grows(m - d.k, len - 1); }
      if len < m - d.k { Pow10Grows(len, m - d.k); }
    }
  }

  /** A float is written with an exponent exactly from 10^16 up and below 10^-5. */
  lemma ExponentIff(d: Decimal)
    requires d.digits > 0
    ensures 101 in DecimalText(d) <==> Reaches(d, 16) || !Reaches(d, -5)
  {
    ReachesByPlace(d, 16);
    ReachesByPlace(d, -5);
    NatTextReads(d.digits);
    var digits := NatText(d.digits);
    var at := |digits| + d.k;
    hide NatText, IntText, Reaches, ReadNat;
    assert 101 !in digits;
    if at > 16 || at <= -5 {
      assert DecimalText(d)[if |digits| == 1 then 1 else |digits| + 1] == 101;
    }
  }

  /** The exponent of a number whose point is `at` places behind its first digit. */
  ghost predicate PowerFor(x: Bytes, at: int) { Integer(x, at - 1) }

  /** Digits with the point `at` places behind the first of them, as Python and Rust print them. */
  ghost predicate Laid(bs: Bytes, digits: Bytes, at: int)
    requires digits != []
  {
    if 0 < at <= 16 && at >= |digits| then bs == digits + seq(at - |digits|, _ => 48) + Ascii(".0")
    else if 0 < at <= 16 then bs == digits[..at] + Ascii(".") + digits[at..]
    else if -5 < at <= 0 then bs == Ascii("0.") + seq(-at, _ => 48) + digits
    else exists x ::
      && PowerFor(x, at)
      && bs == (if |digits| == 1 then digits else digits[..1] + Ascii(".") + digits[1..]) + Ascii("e") + x
  }

  ghost predicate DecimalSpelled(bs: Bytes, d: Decimal) {
    exists digits :: Digits(digits, d.digits) && Laid(bs, digits, |digits| + d.k)
  }

  /** A sign on every negative number, zero included, and the shortest digits. */
  ghost predicate FloatSpelled(ryu: Ryu, bs: Bytes, x: f64bits) {
    var low := x % 0x8000_0000_0000_0000;
    var sign := if x >= 0x8000_0000_0000_0000 then Ascii("-") else [];
    if low == 0 then bs == sign + Ascii("0.0")
    else exists body :: bs == sign + body && DecimalSpelled(body, ryu.shortest(low))
  }

  lemma LaidText(bs: Bytes, d: Decimal)
    ensures Laid(bs, NatText(d.digits), |NatText(d.digits)| + d.k) <==> bs == DecimalText(d)
  {
    var at := |NatText(d.digits)| + d.k;
    hide NatText, IntText, Ascii;
    PointTexts();
    if at > 16 || at <= -5 {
      PowersFor(at);
      hide PowerFor;
      assert PowerFor(IntText(at - 1), at);
    }
  }

  lemma PointTexts()
    ensures Ascii(".0") == [46, 48] && Ascii(".") == [46] && Ascii("0.") == [48, 46] && Ascii("e") == [101]
  {
  }

  lemma PowersFor(at: int)
    ensures forall x :: PowerFor(x, at) <==> x == IntText(at - 1)
  {
    forall x ensures PowerFor(x, at) <==> x == IntText(at - 1) {
      IntegerSpelled(x, at - 1);
    }
  }

  lemma DecimalIsSpelled(bs: Bytes, d: Decimal)
    ensures DecimalSpelled(bs, d) <==> bs == DecimalText(d)
  {
    LaidText(bs, d);
    DigitsSpelled(NatText(d.digits), d.digits);
    hide NatText, Laid, DecimalText;
    if digits :| Digits(digits, d.digits) && Laid(bs, digits, |digits| + d.k) {
      DigitsSpelled(digits, d.digits);
    }
  }

  lemma FloatIsSpelled(ryu: Ryu, bs: Bytes, x: f64bits)
    ensures FloatSpelled(ryu, bs, x) <==> bs == FloatText(ryu, x)
  {
    assert Ascii("-") == [45] && Ascii("0.0") == [48, 46, 48];
    var low := x % 0x8000_0000_0000_0000;
    assert Unsigned(F64, x) == low;
    hide DecimalText, DecimalSpelled, Ascii;
    if low != 0 {
      var d := ryu.shortest(low);
      DecimalIsSpelled(DecimalText(d), d);
      forall body | DecimalSpelled(body, d) ensures body == DecimalText(d) {
        DecimalIsSpelled(body, d);
      }
    }
  }

  // ---- values ----

  /** Every part behind a comma. */
  function AfterCommas(parts: seq<Bytes>): Bytes {
    if parts == [] then [] else Ascii(",") + parts[0] + AfterCommas(parts[1..])
  }

  /** Parts with commas between them, no spaces. */
  function Listed(parts: seq<Bytes>): Bytes {
    if parts == [] then [] else parts[0] + AfterCommas(parts[1..])
  }

  /** Each key, a colon, and its value. */
  function Entries(keys: seq<Bytes>, values: seq<Bytes>): (r: seq<Bytes>)
    requires |keys| == |values|
  {
    seq(|keys|, i requires 0 <= i < |keys| => keys[i] + Ascii(":") + values[i])
  }

  /** `order` lists the members by key, those with one key as they were inserted. */
  ghost predicate ByKey(members: seq<Member>, order: seq<nat>) {
    && |order| == |members| && (forall i: nat :: i in order <==> i < |members|)
    && (forall p :: 0 <= p < |order| ==> order[p] < |members|)
    && forall p, q :: 0 <= p < q < |order| ==>
         var a, b := members[order[p]].0, members[order[q]].0; Less(a, b) || (a == b && order[p] < order[q])
  }

  ghost predicate ItemsSpelled(ryu: Ryu, parts: seq<Bytes>, items: seq<Json>)
    decreases items, 0
  {
    |parts| == |items| && forall i :: 0 <= i < |items| ==> Spelled(ryu, parts[i], items[i])
  }

  ghost predicate MembersSpelled(ryu: Ryu, keys: seq<Bytes>, values: seq<Bytes>, members: seq<Member>, order: seq<nat>)
    decreases JObject(members), 0
  {
    && |keys| == |values| == |members| && ByKey(members, order)
    && (forall p :: 0 <= p < |order| ==> Quoted(keys[p], members[order[p]].0))
    && (forall p :: 0 <= p < |order| ==> Spelled(ryu, values[p], members[order[p]].1))
  }

  /** `bs` is the canonical text of `v`. */
  ghost predicate Spelled(ryu: Ryu, bs: Bytes, v: Json)
    decreases v, 1
  {
    match v
    case JNull => bs == Ascii("null")
    case JBool(b) => bs == Ascii(if b then "true" else "false")
    case JInt(n) => Integer(bs, n)
    case JFloat(x) => FloatSpelled(ryu, bs, x)
    case JString(t) => Quoted(bs, t)
    case JArray(items) =>
      exists parts :: bs == Ascii("[") + Listed(parts) + Ascii("]") && ItemsSpelled(ryu, parts, items)
    case JObject(members) =>
      exists keys, values, order ::
        && MembersSpelled(ryu, keys, values, members, order)
        && bs == Ascii("{") + Listed(Entries(keys, values)) + Ascii("}")
  }

  lemma {:induction false} ListedIsJoined(parts: seq<Bytes>)
    ensures Listed(parts) == Joined(parts)
  {
    assert Ascii(",") == [44];
    if |parts| > 1 {
      ListedIsJoined(parts[1..]);
      assert parts[1..][1..] == parts[2..];
      assert AfterCommas(parts[1..]) == [44] + Listed(parts[1..]);
    }
  }

  /** The text of a value meets the grammar, and no other does. */
  lemma {:induction false} TextIffSpelled(ryu: Ryu, bs: Bytes, v: Json)
    ensures Spelled(ryu, bs, v) <==> bs == JsonText(ryu, v)
    decreases v, 1
  {
    hide Ascii, FloatText, IntText, FloatSpelled, Integer, Quoted, QuotedText;
    match v {
      case JNull => LiteralTexts();
      case JBool(_) => LiteralTexts();
      case JInt(n) => IntegerSpelled(bs, n);
      case JFloat(x) => FloatIsSpelled(ryu, bs, x);
      case JString(t) => QuotedSpelled(bs, t);
      case JArray(items) => ArraySpelled(ryu, bs, v, items);
      case JObject(members) => ObjectSpelled(ryu, bs, v, members);
    }
  }

  lemma LiteralTexts()
    ensures Ascii("null") == NULL_TEXT && Ascii("true") == TRUE_TEXT && Ascii("false") == FALSE_TEXT
    ensures Ascii("[") == [OPEN_ARRAY] && Ascii("]") == [CLOSE_ARRAY]
    ensures Ascii("{") == [OPEN_OBJECT] && Ascii("}") == [CLOSE_OBJECT] && Ascii(":") == [COLON]
  {
  }

  lemma {:induction false} ArraySpelled(ryu: Ryu, bs: Bytes, v: Json, items: seq<Json>)
    requires v == JArray(items)
    ensures Spelled(ryu, bs, v) <==> bs == JsonText(ryu, v)
    decreases v, 0
  {
    hide Ascii, Listed, Joined;
    LiteralTexts();
    var texts := ItemTexts(ryu, items);
    ListedIsJoined(texts);
    forall i | 0 <= i < |items| ensures Spelled(ryu, texts[i], items[i]) {
      TextIffSpelled(ryu, texts[i], items[i]);
    }
    assert ItemsSpelled(ryu, texts, items);
    if Spelled(ryu, bs, v) {
      var parts :| bs == Ascii("[") + Listed(parts) + Ascii("]") && ItemsSpelled(ryu, parts, items);
      forall i | 0 <= i < |items| ensures parts[i] == texts[i] {
        TextIffSpelled(ryu, parts[i], items[i]);
      }
      assert parts == texts;
    }
  }

  lemma OrderByKey(members: seq<Member>, order: seq<nat>)
    ensures ByKey(members, order) <==> order == Order(Less, Keys(members))
  {
    var keys := Keys(members);
    LessIsStrictOrder();
    OrderIsStable(Less, keys);
    if ByKey(members, order) {
      forall p, q | 0 <= p < q < |order| ensures Before(Less, keys, order[p], order[q]) {
      }
      StableOrderUnique(Less, keys, order);
    }
    hide Order, Less;
    if order == Order(Less, keys) {
      forall p, q | 0 <= p < q < |order|
        ensures var a, b := members[order[p]].0, members[order[q]].0; Less(a, b) || (a == b && order[p] < order[q])
      {
        assert Before(Less, keys, order[p], order[q]);
      }
    }
  }

  /** The sorted parts of an object, from keys and values in key order. */
  lemma SortedEntries(ryu: Ryu, members: seq<Member>, keys: seq<Bytes>, values: seq<Bytes>)
    requires |keys| == |values| == |members|
    requires var order := Order(Less, Keys(members));
             forall p :: 0 <= p < |order| ==>
               keys[p] == QuotedText(members[order[p]].0) && values[p] == JsonText(ryu, members[order[p]].1)
    ensures Entries(keys, values) == MemberParts(Sort(Less, MemberTexts(ryu, members)))
  {
    LiteralTexts();
    SortSameKeys(Less, members, MemberTexts(ryu, members));
    hide Order, Less, JsonText, QuotedText, Ascii, Sort;
    var sorted := Sort(Less, MemberTexts(ryu, members));
    assert forall p :: 0 <= p < |sorted| ==> MemberParts(sorted)[p] == keys[p] + [COLON] + values[p];
  }

  lemma ObjectParts(ryu: Ryu, bs: Bytes, members: seq<Member>)
    returns (keys: seq<Bytes>, values: seq<Bytes>, order: seq<nat>)
    requires Spelled(ryu, bs, JObject(members))
    ensures MembersSpelled(ryu, keys, values, members, order)
    ensures bs == Ascii("{") + Listed(Entries(keys, values)) + Ascii("}")
  {
    keys, values, order :|
      && MembersSpelled(ryu, keys, values, members, order)
      && bs == Ascii("{") + Listed(Entries(keys, values)) + Ascii("}");
  }

  lemma {:induction false} ObjectSpelled(ryu: Ryu, bs: Bytes, v: Json, members: seq<Member>)
    requires v == JObject(members)
    ensures Spelled(ryu, bs, v) <==> bs == JsonText(ryu, v)
    decreases v, 0
  {
    var order := Order(Less, Keys(members));
    OrderByKey(members, order);
    hide Order, Less, ByKey, Ascii, Listed, Joined, QuotedText, Quoted, Sort, Keys;
    LiteralTexts();
    var keys := seq(|members|, p requires 0 <= p < |members| => QuotedText(members[order[p]].0));
    var values := seq(|members|, p requires 0 <= p < |members| => JsonText(ryu, members[order[p]].1));
    forall p | 0 <= p < |order| ensures Quoted(keys[p], members[order[p]].0) {
      QuotedSpelled(keys[p], members[order[p]].0);
    }
    forall p | 0 <= p < |order| ensures Spelled(ryu, values[p], members[order[p]].1) {
      TextIffSpelled(ryu, values[p], members[order[p]].1);
    }
    assert MembersSpelled(ryu, keys, values, members, order);
    SortedEntries(ryu, members, keys, values);
    ListedIsJoined(Entries(keys, values));
    if Spelled(ryu, bs, v) {
      var ks, vs, o := ObjectParts(ryu, bs, members);
      OrderByKey(members, o);
      forall p | 0 <= p < |order| ensures ks[p] == keys[p] && vs[p] == values[p] {
        QuotedSpelled(ks[p], members[order[p]].0);
        TextIffSpelled(ryu, vs[p], members[order[p]].1);
      }
      assert ks == keys && vs == values;
    }
  }
}