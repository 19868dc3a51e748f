/** The enrichment bytes of a receipt determine the publisher's payload. */
module PayloadOctets {
  import opened ByteStrings
  import opened StableSort
  import opened Cbor
  import opened CborLaws
  import opened Verify
  import opened Decimals
  import opened Hex
  import opened CanonicalJson
  import opened Embedding
  import opened Enrichment
  import opened ReceiptOctets

  lemma SamePairs(p: Payload, q: Payload)
    requires PayloadFields(p).Some? && PayloadFields(q).Some?
    requires Encodable(Map(PayloadFields(p).value)) && Encodable(Map(PayloadFields(q).value))
    requires Encode(Map(PayloadFields(p).value)) == Encode(Map(PayloadFields(q).value))
    ensures NormalPairs(PayloadFields(p).value) == NormalPairs(PayloadFields(q).value)
  {
    var x, y := PayloadFields(p).value, PayloadFields(q).value;
    EncodeInjective(Map(x), Map(y));
    NormaliseMap(x);
    NormaliseMap(y);
    PayloadKeys(p);
    PayloadKeys(q);
    hide Encode, Encodable, Normalise, Sort, PayloadFields;
    assert Keys(NormalPairs(x)) == Keys(x) && Keys(NormalPairs(y)) == Keys(y);
    SortedAlike(NormalPairs(x), NormalPairs(y));
  }

  /** The keys do not depend on what the payload holds. */
  lemma PayloadKeys(p: Payload)
    requires PayloadFields(p).Some?
    ensures Keys(PayloadFields(p).value) ==
            [Ascii("category"), Ascii("min_tier"), Ascii("required_affinity"), CAPABILITY_GRAPH, Ascii("declared_at"),
             Ascii("declared_uri"), Ascii("declared_hash"), Ascii("publisher_rights_verified"),
             Ascii("verification_method"), Ascii("refresh_interval_seconds")]
  {
    hide Ascii, JsonToCbor, Prefixed;
  }

  ghost predicate SameButGraph(p: Payload, q: Payload) {
    && p.declaration.category == q.declaration.category
    && p.declaration.minTier == q.declaration.minTier
    && p.declaration.requiredAffinity == q.declaration.requiredAffinity
    && p.declaration.declaredAt == q.declaration.declaredAt
    && p.declaredUri == q.declaredUri && p.declaredHash == q.declaredHash
    && p.verificationMethod == q.verificationMethod && p.refreshInterval == q.refreshInterval
  }

  lemma ValuesDetermine(p: Payload, q: Payload)
    requires PayloadFields(p).Some? && PayloadFields(q).Some?
    requires NormalPairs(PayloadFields(p).value) == NormalPairs(PayloadFields(q).value)
    ensures SameButGraph(p, q)
    ensures JsonToCbor(p.declaration.graph).Some? && JsonToCbor(q.declaration.graph).Some?
    ensures Normalise(JsonToCbor(p.declaration.graph).value) == Normalise(JsonToCbor(q.declaration.graph).value)
  {
    hide Ascii, JsonToCbor, Prefixed, ParsePrefixed, Sort, WellFormedText;
    var x, y := PayloadFields(p).value, PayloadFields(q).value;
    forall i | 0 <= i < 10 ensures Normalise(x[i].1) == Normalise(y[i].1) {
      assert NormalPairs(x)[i] == NormalPairs(y)[i];
    }
    PrefixedRoundTrip(p.declaredHash);
    PrefixedRoundTrip(q.declaredHash);
    assert x[0].1 == y[0].1 && x[1].1 == y[1].1 && x[2].1 == y[2].1 && x[4].1 == y[4].1 && x[5].1 == y[5].1;
    assert x[6].1 == y[6].1 && x[8].1 == y[8].1 && x[9].1 == y[9].1;
    assert Normalise(x[3].1) == Normalise(y[3].1);
  }

  /**
   Equal enrichment bytes come from the same payload: equal in every field, the capability graphs equal in
   their canonical text.
   */
  lemma BytesDeterminePayload(ryu: Ryu, p: Payload, q: Payload)
    requires Proper(p.declaration.graph) && Sized(p.declaration.graph)
    requires Proper(q.declaration.graph) && Sized(q.declaration.graph)
    requires PayloadBytes(p).Some? && PayloadBytes(p) == PayloadBytes(q)
    ensures SameButGraph(p, q)
    ensures JsonText(ryu, p.declaration.graph) == JsonText(ryu, q.declaration.graph)
  {
    BytesOfFields(p);
    BytesOfFields(q);
    hide *;
    PayloadEncodable(p);
    PayloadEncodable(q);
    SamePairs(p, q);
    ValuesDetermine(p, q);
    SameGraphText(ryu, p.declaration.graph, q.declaration.graph);
  }

  lemma BytesOfFields(p: Payload)
    requires PayloadBytes(p).Some?
    ensures PayloadFields(p).Some? && PayloadBytes(p).value == Encode(Map(PayloadFields(p).value))
  {
  }

  lemma SameGraphText(ryu: Ryu, a: Json, b: Json)
    requires Proper(a) && Proper(b) && JsonToCbor(a).Some? && JsonToCbor(b).Some?
    requires Normalise(JsonToCbor(a).value) == Normalise(JsonToCbor(b).value)
    ensures JsonText(ryu, a) == JsonText(ryu, b)
  {
    hide *;
    RenderedBack(a);
    RenderedBack(b);
    TextOfNormal(ryu, a);
    TextOfNormal(ryu, b);
  }
}
