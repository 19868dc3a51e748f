/** Capability graphs: JSON embedded in canonical CBOR, and rendered back. */
module Embedding {
  import opened ByteStrings
  import opened StableSort
  import opened Cbor
  import opened CborLaws
  import opened Gates
  import opened Verify
  import opened Decimals
  import opened Hex
  import opened CanonicalJson

  // ---- JSON to CBOR ----

  function ConvertItems(items: seq<Json>): (r: Option<seq<CborValue>>)
    ensures r.Some? ==>
              |r.value| == |items| && forall i :: 0 <= i < |items| ==> JsonToCbor(items[i]) == Some(r.value[i])
    ensures r.None? ==> exists i :: 0 <= i < |items| && JsonToCbor(items[i]).None?
    decreases items, 0
  {
    if items == [] then Some([])
    else
      var head, tail := JsonToCbor(items[0]), ConvertItems(items[1..]);
      assert forall i :: 0 < i < |items| ==> items[i] == items[1..][i - 1];
      if head.None? || tail.None? then None else Some([head.value] + tail.value)
  }

  function ConvertMembers(members: seq<Member>): (r: Option<seq<Pair>>)
    ensures r.Some? ==> |r.value| == |members| && forall i :: 0 <= i < |members| ==>
              r.value[i].0 == members[i].0 && JsonToCbor(members[i].1) == Some(r.value[i].1)
    ensures r.None? ==> exists i :: 0 <= i < |members| && JsonToCbor(members[i].1).None?
    decreases JObject(members), 0
  {
    ConvertUpTo(members, |members|)
  }

  function ConvertUpTo(members: seq<Member>, n: nat): (r: Option<seq<Pair>>)
    requires n <= |members|
    ensures r.Some? ==> |r.value| == n && forall i :: 0 <= i < n ==>
              r.value[i].0 == members[i].0 && JsonToCbor(members[i].1) == Some(r.value[i].1)
    ensures r.None? ==> exists i :: 0 <= i < n && JsonToCbor(members[i].1).None?
    decreases JObject(members), 0, n
  {
    if n == 0 then Some([])
    else
      var init, last := ConvertUpTo(members, n - 1), JsonToCbor(members[n - 1].1);
      if init.None? || last.None? then None else Some(init.value + [(members[n - 1].0, last.value)])
  }

  /** `json_to_cbor`; `None` is its refusal of a number it cannot carry. */
  function JsonToCbor(v: Json): Option<CborValue>
    decreases v, 1
  {
    match v
    case JNull => Some(Null)
    case JBool(b) => Some(Bool(b))
    case JString(t) => Some(Text(t))
    case JInt(n) => if 0 <= n < U64 then Some(Uint(n)) else None
    case JFloat(x) => Some(Float(x))
    case JArray(items) =>
      var r := ConvertItems(items);
      if r.None? then None else Some(Array(r.value))
    case JObject(members) =>
      var r := ConvertMembers(members);
      if r.None? then None else Some(Map(r.value))
  }

  // ---- CBOR to JSON ----

  /** `Map::insert`: a key already there keeps its place and takes the new value. */
  function Insert(members: seq<Member>, key: Bytes, value: Json): seq<Member> {
    if members == [] then [(key, value)]
    else if members[0].0 == key then [(key, value)] + members[1..]
    else [members[0]] + Insert(members[1..], key, value)
  }

  function BuildObject(rows: seq<Member>): seq<Member> {
    if rows == [] then []
    else
      var last := rows[|rows| - 1];
      Insert(BuildObject(rows[..|rows| - 1]), last.0, last.1)
  }

  function JsonItems(items: seq<CborValue>): (r: seq<Json>)
    ensures |r| == |items| && forall i :: 0 <= i < |items| ==> r[i] == ToJson(items[i])
    decreases items, 0
  {
    seq(|items|, i requires 0 <= i < |items| => ToJson(items[i]))
  }

  function JsonMembers(pairs: seq<Pair>): (r: seq<Member>)
    ensures |r| == |pairs| && forall i :: 0 <= i < |pairs| ==> r[i] == (pairs[i].0, ToJson(pairs[i].1))
    decreases Map(pairs), 0
  {
    seq(|pairs|, i requires 0 <= i < |pairs| => (pairs[i].0, ToJson(pairs[i].1)))
  }

  /** `to_json_value` */
  function ToJson(v: CborValue): Json
    decreases v, 1
  {
    match v
    case Uint(n) => JInt(n)
    case ByteString(b) => JString(HexText(b))
    case Text(t) => JString(t)
    case Array(items) => JArray(JsonItems(items))
    case Map(pairs) => JObject(BuildObject(Sort(Less, JsonMembers(pairs))))
    case Bool(b) => JBool(b)
    case Null => JNull
    case Float(x) => JFloat(x)
  }

  // ---- what is refused ----

  /** An integer below zero, at any depth. */
  ghost predicate HasNegative(v: Json) {
    match v
    case JInt(n) => n < 0
    case JArray(items) => exists i :: 0 <= i < |items| && HasNegative(items[i])
    case JObject(members) => exists i :: 0 <= i < |members| && HasNegative(members[i].1)
    case _ => false
  }

  /** The only graphs that cannot be embedded are those with a negative integer somewhere. */
  lemma {:induction false} RefusedIffNegative(v: Json)
    requires Proper(v)
    ensures JsonToCbor(v).None? <==> HasNegative(v)
  {
    match v {
      case JArray(items) =>
        forall i | 0 <= i < |items| ensures JsonToCbor(items[i]).None? <==> HasNegative(items[i]) {
          RefusedIffNegative(items[i]);
        }
        hide JsonToCbor, HasNegative, ConvertItems;
        ItemsRefused(items);
      case JObject(members) =>
        forall i | 0 <= i < |members| ensures JsonToCbor(members[i].1).None? <==> HasNegative(members[i].1) {
          RefusedIffNegative(members[i].1);
        }
        MembersRefused(members);
      case _ =>
    }
  }

  lemma ItemsRefused(items: seq<Json>)
    requires forall i :: 0 <= i < |items| ==> (JsonToCbor(items[i]).None? <==> HasNegative(items[i]))
    ensures JsonToCbor(JArray(items)).None? <==> HasNegative(JArray(items))
  {
  }

  lemma MembersRefused(members: seq<Member>)
    requires forall i :: 0 <= i < |members| ==> (JsonToCbor(members[i].1).None? <==> HasNegative(members[i].1))
    ensures JsonToCbor(JObject(members)).None? <==> HasNegative(JObject(members))
  {
  }

  // ---- there and back ----

  /** Strings are UTF-8 and no collection outgrows a 64-bit length, as in any value in memory. */
  ghost predicate Sized(v: Json) {
    match v
    case JString(t) => WellFormedText(t)
    case JArray(items) => |items| < U64 && forall i :: 0 <= i < |items| ==> Sized(items[i])
    case JObject(members) =>
      |members| < U64 && forall i :: 0 <= i < |members| ==> WellFormedText(members[i].0) && Sized(members[i].1)
    case _ => true
  }

  lemma {:induction false} ConvertedEncodable(v: Json)
    requires Proper(v) && Sized(v) && JsonToCbor(v).Some?
    ensures Encodable(JsonToCbor(v).value)
  {
    hide WellFormedText;
    match v {
      case JArray(items) =>
        forall i | 0 <= i < |items| ensures Encodable(ConvertItems(items).value[i]) {
          ConvertedEncodable(items[i]);
        }
      case JObject(members) =>
        var pairs := ConvertMembers(members).value;
        forall i | 0 <= i < |members| ensures Encodable(pairs[i].1) {
          ConvertedEncodable(members[i].1);
        }
        EncodablePairs(pairs);
      case _ =>
    }
  }

  lemma {:induction false} InsertNew(members: seq<Member>, key: Bytes, value: Json)
    requires forall i :: 0 <= i < |members| ==> members[i].0 != key
    ensures Insert(members, key, value) == members + [(key, value)]
  {
    if members != [] {
      InsertNew(members[1..], key, value);
    }
  }

  lemma {:induction false} BuildDistinct(rows: seq<Member>)
    requires DistinctKeys(rows)
    ensures BuildObject(rows) == rows
  {
    if rows != [] {
      var init, last := rows[..|rows| - 1], rows[|rows| - 1];
      BuildDistinct(init);
      InsertNew(init, last.0, last.1);
      assert rows == init + [last];
    }
  }

  /** Both maps at once, on the values of a list of pairs. */
  function Rendered(pairs: seq<Pair>): seq<Member> { NormalMembers(JsonMembers(pairs)) }

  lemma RenderedSorted(pairs: seq<Pair>)
    ensures Rendered(Sort(KeyLess, pairs)) == Sort(KeyLess, Rendered(pairs))
  {
    SortSameKeys(KeyLess, pairs, Rendered(pairs));
    hide Sort, Order, NormalJson, ToJson;
  }

  /** Rendering an object whose pairs arrive sorted the other way. */
  lemma ObjectRendered(pairs: seq<Pair>)
    requires DistinctKeys(pairs)
    ensures NormalJson(ToJson(Map(Sort(KeyLess, pairs)))) == JObject(Sort(Less, Rendered(pairs)))
  {
    hide Sort, KeyLess, Less, StrictOrder;
    KeyLessIsStrictOrder();
    LessIsStrictOrder();
    SortIsSorted(KeyLess, pairs);
    var arrived := Sort(KeyLess, pairs);
    var rows := Sort(Less, JsonMembers(arrived));
    SortedDistinct(KeyLess, pairs);
    SortedDistinct(Less, JsonMembers(arrived));
    BuildDistinct(rows);
    assert ToJson(Map(arrived)) == JObject(rows);
    SortedAgain(JsonMembers(arrived));
    RenderedSorted(pairs);
    SortedDistinct(KeyLess, Rendered(pairs));
    SortMembers(KeyLess, Rendered(pairs));
    SortPermutation(Less, Sort(KeyLess, Rendered(pairs)), Rendered(pairs));
  }

  lemma SortedAgain(rows: seq<Member>)
    ensures NormalJson(JObject(Sort(Less, rows))) == JObject(Sort(Less, NormalMembers(rows)))
  {
    hide *;
    NormalObject(Sort(Less, rows));
    SortedNormalMembers(rows);
    SortingTwice(NormalMembers(rows));
  }

  lemma SortingTwice(rows: seq<Member>)
    ensures Sort(Less, Sort(Less, rows)) == Sort(Less, rows)
  {
    hide Sort, Less, StrictOrder;
    LessIsStrictOrder();
    SortIsSorted(Less, rows);
    SortSorted(Less, Sort(Less, rows));
  }

  lemma NormalObject(members: seq<Member>)
    ensures NormalJson(JObject(members)) == JObject(Sort(Less, NormalMembers(members)))
  {
  }

  lemma SortedDistinct<V(!new)>(lt: (Bytes, Bytes) -> bool, rows: seq<(Bytes, V)>)
    requires StrictOrder(lt) && DistinctKeys(rows)
    ensures DistinctKeys(Sort(lt, rows))
  {
    SortIsSorted(lt, rows);
  }

  /** A graph embedded, encoded, decoded and rendered is the graph, up to member order. */
  lemma {:induction false} RenderedBack(v: Json)
    requires Proper(v) && JsonToCbor(v).Some?
    ensures NormalJson(ToJson(Normalise(JsonToCbor(v).value))) == NormalJson(v)
  {
    match v {
      case JArray(items) =>
        var converted := ConvertItems(items).value;
        forall i | 0 <= i < |items| ensures NormalJson(ToJson(Normalise(converted[i]))) == NormalJson(items[i]) {
          RenderedBack(items[i]);
        }
        ArrayRendered(items, converted);
      case JObject(members) =>
        var pairs := ConvertMembers(members).value;
        forall i | 0 <= i < |members| ensures NormalJson(ToJson(Normalise(pairs[i].1))) == NormalJson(members[i].1) {
          RenderedBack(members[i].1);
        }
        MembersRendered(members, pairs);
      case _ =>
    }
  }

  lemma ArrayRendered(items: seq<Json>, converted: seq<CborValue>)
    requires |converted| == |items|
    requires forall i :: 0 <= i < |items| ==> NormalJson(ToJson(Normalise(converted[i]))) == NormalJson(items[i])
    ensures NormalJson(ToJson(Normalise(Array(converted)))) == NormalJson(JArray(items))
  {
  }

  lemma MembersRendered(members: seq<Member>, pairs: seq<Pair>)
    requires DistinctKeys(members) && |pairs| == |members|
    requires forall i :: 0 <= i < |members| ==>
               pairs[i].0 == members[i].0 && NormalJson(ToJson(Normalise(pairs[i].1))) == NormalJson(members[i].1)
    ensures NormalJson(ToJson(Normalise(Map(pairs)))) == NormalJson(JObject(members))
  {
    hide Sort, KeyLess, NormalJson, ToJson, Normalise;
    NormaliseMap(pairs);
    ObjectRendered(NormalPairs(pairs));
    assert Rendered(NormalPairs(pairs)) == NormalMembers(members);
    NormalObject(members);
  }

  /**
   JSON to CBOR to octets to CBOR to JSON: whenever the embedding succeeds, the canonical text at the
   end is the canonical text at the start, although the two formats sort keys differently.
   */
  lemma EmbeddingKeepsMeaning(ryu: Ryu, v: Json)
    requires Proper(v) && Sized(v) && JsonToCbor(v).Some?
    ensures var decoded := Decode(Rust, Encode(JsonToCbor(v).value));
            decoded.Some? && JsonText(ryu, ToJson(decoded.value)) == JsonText(ryu, v)
  {
    hide *;
    var c := JsonToCbor(v).value;
    ConvertedEncodable(v);
    RustReads(c);
    RenderedBack(v);
    TextOfNormal(ryu, v);
    TextOfNormal(ryu, ToJson(Normalise(c)));
  }

  lemma RustReads(v: CborValue)
    requires Encodable(v)
    ensures Decode(Rust, Encode(v)) == Some(Normalise(v))
  {
    DecodeEncode(Rust, v);
  }

  // ---- what each kind is rendered as ----

  /** `i` is the last place of the key. */
  ghost predicate LastAt<V>(rows: seq<(Bytes, V)>, key: Bytes, i: nat) {
    i < |rows| && rows[i].0 == key && forall j :: i < j < |rows| ==> rows[j].0 != key
  }

  ghost predicate KeysAscend(members: seq<Member>) {
    forall i, j :: 0 <= i < j < |members| ==> Less(members[i].0, members[j].0)
  }

  /** Octets become lower-case hexadecimal text; a map's members ascend by key, a repeated key taking its last value. */
  lemma RenderedKinds(v: CborValue)
    ensures var json := ToJson(v);
            match v
            case Uint(n) => json == JInt(n)
            case ByteString(b) => json.JString? && HexOf(json.text, b)
            case Text(t) => json == JString(t)
            case Array(items) =>
              && json.JArray? && |json.items| == |items|
              && forall i :: 0 <= i < |items| ==> json.items[i] == ToJson(items[i])
            case Map(pairs) =>
              && json.JObject? && KeysAscend(json.members)
              && (forall m :: m in json.members ==> exists p :: p in pairs && p.0 == m.0)
              && (forall i :: 0 <= i < |pairs| && LastAt(pairs, pairs[i].0, i) ==>
                    (pairs[i].0, ToJson(pairs[i].1)) in json.members)
            case Bool(b) => json == JBool(b)
            case Null => json == JNull
            case Float(x) => json == JFloat(x)
  {
    match v {
      case ByteString(b) => HexTextIs(b);
      case Map(pairs) => RenderedMap(pairs);
      case _ =>
    }
  }

  lemma RenderedMap(pairs: seq<Pair>)
    ensures var members := BuildObject(Sort(Less, JsonMembers(pairs)));
            && KeysAscend(members)
            && (forall m :: m in members ==> exists p :: p in pairs && p.0 == m.0)
            && (forall i :: 0 <= i < |pairs| && LastAt(pairs, pairs[i].0, i) ==>
                  (pairs[i].0, ToJson(pairs[i].1)) in members)
  {
    hide Less, ToJson, Sort;
    LessIsStrictOrder();
    var rows := JsonMembers(pairs);
    var sorted := Sort(Less, rows);
    SortIsSorted(Less, rows);
    SortMembers(Less, rows);
    BuildAscends(sorted);
    forall m | m in BuildObject(sorted) ensures exists p :: p in pairs && p.0 == m.0 {
      var i :| 0 <= i < |sorted| && sorted[i].0 == m.0;
      assert sorted[i] in rows;
      var k :| 0 <= k < |rows| && rows[k] == sorted[i];
      assert pairs[k] in pairs;
    }
    forall i | 0 <= i < |pairs| && LastAt(pairs, pairs[i].0, i)
      ensures (pairs[i].0, ToJson(pairs[i].1)) in BuildObject(sorted)
    {
      assert LastAt(rows, pairs[i].0, i);
      var p := LastAfterSort(rows, pairs[i].0, i);
      assert rows[i] == (pairs[i].0, ToJson(pairs[i].1));
    }
  }

  /** The last row of a key stays the last one when rows are sorted. */
  lemma LastAfterSort(rows: seq<Member>, key: Bytes, i: nat) returns (p: nat)
    requires LastAt(rows, key, i)
    ensures LastAt(Sort(Less, rows), key, p) && Sort(Less, rows)[p] == rows[i]
  {
    LessIsStrictOrder();
    OrderIsStable(Less, Keys(rows));
    var idx := Order(Less, Keys(rows));
    hide Less, Order;
    assert i in idx;
    p :| 0 <= p < |idx| && idx[p] == i;
    forall q | p < q < |idx| ensures Sort(Less, rows)[q].0 != key {
      assert Before(Less, Keys(rows), idx[p], idx[q]);
    }
  }

  /** Every member's key is that of some row. */
  ghost predicate KeysFrom(members: seq<Member>, rows: seq<Member>) {
    forall m :: m in members ==> exists i :: 0 <= i < |rows| && rows[i].0 == m.0
  }

  /** The last row of each key is a member. */
  ghost predicate LastsIn(rows: seq<Member>, members: seq<Member>) {
    forall i :: 0 <= i < |rows| && LastAt(rows, rows[i].0, i) ==> rows[i] in members
  }

  /** Inserting sorted rows one by one: ascending keys, each with the value of its last row. */
  lemma {:induction false} BuildAscends(rows: seq<Member>)
    requires forall p, q :: 0 <= p < q < |rows| ==> !Less(rows[q].0, rows[p].0)
    ensures var members := BuildObject(rows);
            KeysAscend(members) && KeysFrom(members, rows) && LastsIn(rows, members)
  {
    hide Less, KeysFrom, LastsIn, KeysAscend, Insert;
    if rows == [] {
      NothingBuilt();
    } else {
      var n := |rows| - 1;
      BuildAscends(rows[..n]);
      BuiltFurther(rows, BuildObject(rows[..n]));
    }
  }

  lemma NothingBuilt()
    ensures KeysAscend([]) && KeysFrom([], []) && LastsIn([], [])
  {
  }

  lemma BuiltFurther(rows: seq<Member>, before: seq<Member>)
    requires rows != [] && forall p, q :: 0 <= p < q < |rows| ==> !Less(rows[q].0, rows[p].0)
    requires var init := rows[..|rows| - 1]; KeysAscend(before) && KeysFrom(before, init) && LastsIn(init, before)
    ensures var r := Insert(before, rows[|rows| - 1].0, rows[|rows| - 1].1);
            KeysAscend(r) && KeysFrom(r, rows) && LastsIn(rows, r)
  {
    hide Less, KeysAscend, Insert;
    var n := |rows| - 1;
    var init, last := rows[..n], rows[n];
    BehindAll(init, last, before);
    InsertLast(before, last.0, last.1);
    var r := Insert(before, last.0, last.1);
    assert KeysFrom(r, rows) by {
      forall m | m in r ensures exists i :: 0 <= i < |rows| && rows[i].0 == m.0 {
        if m in before {
          var k :| 0 <= k < |init| && init[k].0 == m.0;
          assert rows[k].0 == m.0;
        } else {
          assert rows[n].0 == m.0;
        }
      }
    }
    hide KeysFrom;
    forall i | 0 <= i < |rows| && LastAt(rows, rows[i].0, i) ensures rows[i] in r {
      if i < n {
        assert LastAt(init, init[i].0, i) && rows[n].0 != rows[i].0;
      }
    }
  }

  /** No key built so far is above the next one. */
  lemma BehindAll(init: seq<Member>, last: Member, before: seq<Member>)
    requires forall p :: 0 <= p < |init| ==> !Less(last.0, init[p].0)
    requires forall m :: m in before ==> exists i :: 0 <= i < |init| && init[i].0 == m.0
    ensures forall i :: 0 <= i < |before| ==> before[i].0 == last.0 || Less(before[i].0, last.0)
  {
    hide Less;
    forall i | 0 <= i < |before| ensures before[i].0 == last.0 || Less(before[i].0, last.0) {
      assert before[i] in before;
      LessTotal(before[i].0, last.0);
    }
  }

  /** Inserting at or behind the last key keeps the keys ascending, every other member, and takes the new value. */
  lemma {:induction false} InsertLast(members: seq<Member>, key: Bytes, value: Json)
    requires KeysAscend(members)
    requires forall i :: 0 <= i < |members| ==> members[i].0 == key || Less(members[i].0, key)
    ensures var r := Insert(members, key, value);
            && KeysAscend(r) && (key, value) in r
            && (forall m :: m in r ==> m == (key, value) || m in members)
            && (forall m :: m in members && m.0 != key ==> m in r)
            && (members != [] ==> r[0].0 == members[0].0)
  {
    hide Less;
    if members != [] {
      var r := Insert(members, key, value);
      assert members == [members[0]] + members[1..];
      if members[0].0 == key {
        assert |members| == 1 by {
          if |members| > 1 { LessAsymmetric(members[0].0, members[1].0); }
        }
      } else {
        InsertLast(members[1..], key, value);
        var tail := Insert(members[1..], key, value);
        forall i, j | 0 <= i < j < |r| ensures Less(r[i].0, r[j].0) {
          if i == 0 {
            assert r[j] == tail[j - 1] && tail[j - 1] in tail;
          }
        }
      }
    }
  }
}
