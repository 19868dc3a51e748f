/** What enrichment bytes, enrichment receipts and submissions say, name by name. */
module Declared {
  import opened ByteStrings
  import opened StableSort
  import opened Cbor
  import opened Gates
  import opened Receipts
  import opened Verify
  import opened Chains
  import opened Decimals
  import opened Hex
  import opened CanonicalJson
  import opened Embedding
  import opened Enrichment
  import opened ReceiptFields
  import PayloadOctets
  import Declarations

  // ---- the payload ----

  /** The hash as stored text: "blake3:" and its lower-case digits. */
  ghost predicate SaysHashText(f: seq<Pair>, name: string, hash: Digest) {
    exists t :: SaysText(f, name, t) && |t| == 71 && t[..7] == Ascii("blake3:") && HexOf(t[7..], hash)
  }

  /** Ten fields, the rights always verified. */
  ghost predicate PayloadSaid(f: seq<Pair>, p: Payload) {
    && |f| == 10 && SaysText(f, "category", p.declaration.category)
    && SaysOptionalText(f, "min_tier", p.declaration.minTier)
    && SaysOptionalText(f, "required_affinity", p.declaration.requiredAffinity)
    && SaysText(f, "declared_at", p.declaration.declaredAt) && SaysText(f, "declared_uri", p.declaredUri)
    && SaysHashText(f, "declared_hash", p.declaredHash)
    && Says(f, "publisher_rights_verified", Bool(true))
    && SaysText(f, "verification_method", p.verificationMethod)
    && Says(f, "refresh_interval_seconds", if p.refreshInterval.None? then Null else Uint(p.refreshInterval.value))
  }

  /** What the octets of encodable fields decode to, field by field. */
  lemma DecodedField(fields: seq<Pair>, i: nat)
    requires Encodable(Map(fields)) && DistinctKeys(fields) && i < |fields|
    ensures Lookup(FieldsOf(Encode(Map(fields))), fields[i].0) == Some(Normalise(fields[i].1))
    ensures |FieldsOf(Encode(Map(fields)))| == |fields|
  {
    hide Encode, Normalise, Encodable, RustGate, Sort, IsEncodingOf;
    IsNormalForm(Map(fields));
    NormaliseMap(fields);
    RustGateAcceptsEncodings(Encode(Map(fields)), Normalise(Map(fields)));
    LookupFirst(fields, fields[i].0, i);
    LookupDecoded(fields, fields[i].0);
  }

  lemma PayloadListed(p: Payload)
    requires PayloadFields(p).Some?
    ensures var f := PayloadFields(p).value;
            && |f| == 10 && f[0] == (Ascii("category"), Text(p.declaration.category))
            && f[1] == (Ascii("min_tier"), TextOrNull(p.declaration.minTier))
            && f[2] == (Ascii("required_affinity"), TextOrNull(p.declaration.requiredAffinity))
            && f[3].0 == Ascii("capability_graph")
            && f[4] == (Ascii("declared_at"), Text(p.declaration.declaredAt))
            && f[5] == (Ascii("declared_uri"), Text(p.declaredUri))
            && f[6] == (Ascii("declared_hash"), Text(Prefixed(p.declaredHash)))
            && f[7] == (Ascii("publisher_rights_verified"), Bool(true))
            && f[8] == (Ascii("verification_method"), Text(p.verificationMethod))
            && f[9] == (Ascii("refresh_interval_seconds"),
                        if p.refreshInterval.None? then Null else Uint(p.refreshInterval.value))
  {
    hide Ascii, JsonToCbor, Prefixed, WellFormedText;
  }

  lemma PayloadDistinct(p: Payload)
    requires PayloadFields(p).Some?
    ensures DistinctKeys(PayloadFields(p).value)
  {
    PayloadOctets.PayloadKeys(p);
    NamesDiffer();
    hide Ascii, PayloadFields, Prefixed, JsonToCbor;
    var f := PayloadFields(p).value;
    forall i, j | 0 <= i < j < |f| ensures f[i].0 != f[j].0 {
      assert f[i].0 == Keys(f)[i] && f[j].0 == Keys(f)[j];
    }
  }

  function PayloadNames(): seq<Bytes> {
    [ Ascii("category"), Ascii("min_tier"), Ascii("required_affinity"), Ascii("capability_graph"), Ascii("declared_at"),
      Ascii("declared_uri"), Ascii("declared_hash"), Ascii("publisher_rights_verified"), Ascii("verification_method"),
      Ascii("refresh_interval_seconds") ]
  }

  lemma NamesDiffer()
    ensures var names := PayloadNames(); forall i, j :: 0 <= i < j < |names| ==> names[i] != names[j]
  {
    assert Ascii("category")[0] != Ascii("min_tier")[0];
  }

  lemma PayloadField(p: Payload, i: nat, name: string, v: CborValue)
    requires Proper(p.declaration.graph) && Sized(p.declaration.graph) && PayloadBytes(p).Some?
    requires PayloadFields(p).Some? && i < |PayloadFields(p).value|
    requires PayloadFields(p).value[i] == (Ascii(name), v) && !v.Array? && !v.Map?
    ensures Says(FieldsOf(PayloadBytes(p).value), name, v)
    ensures |FieldsOf(PayloadBytes(p).value)| == |PayloadFields(p).value|
  {
    assert Normalise(v) == v;
    PayloadOctets.BytesOfFields(p);
    PayloadEncodable(p);
    PayloadDistinct(p);
    hide PayloadFields, PayloadBytes, Encode, Normalise, Encodable, FieldsOf, DistinctKeys, Ascii, Lookup, Proper,
         Sized;
    DecodedField(PayloadFields(p).value, i);
  }

  /** The enrichment bytes say what was declared, whatever the declaration holds. */
  lemma PayloadSays(p: Payload)
    requires Proper(p.declaration.graph) && Sized(p.declaration.graph) && PayloadBytes(p).Some?
    ensures PayloadSaid(FieldsOf(PayloadBytes(p).value), p)
  {
    hide *;
    PayloadOctets.BytesOfFields(p);
    PayloadListed(p);
    PayloadField(p, 0, "category", Text(p.declaration.category));
    PayloadField(p, 1, "min_tier", TextOrNull(p.declaration.minTier));
    PayloadField(p, 2, "required_affinity", TextOrNull(p.declaration.requiredAffinity));
    PayloadField(p, 4, "declared_at", Text(p.declaration.declaredAt));
    PayloadField(p, 5, "declared_uri", Text(p.declaredUri));
    PayloadField(p, 6, "declared_hash", Text(Prefixed(p.declaredHash)));
    PayloadField(p, 7, "publisher_rights_verified", Bool(true));
    PayloadField(p, 8, "verification_method", Text(p.verificationMethod));
    PayloadField(p, 9, "refresh_interval_seconds",
                 if p.refreshInterval.None? then Null else Uint(p.refreshInterval.value));
    PayloadAssembled(FieldsOf(PayloadBytes(p).value), p);
  }

  lemma PayloadAssembled(f: seq<Pair>, p: Payload)
    requires |f| == 10 && Says(f, "category", Text(p.declaration.category))
    requires Says(f, "min_tier", TextOrNull(p.declaration.minTier))
    requires Says(f, "required_affinity", TextOrNull(p.declaration.requiredAffinity))
    requires Says(f, "declared_at", Text(p.declaration.declaredAt)) && Says(f, "declared_uri", Text(p.declaredUri))
    requires Says(f, "declared_hash", Text(Prefixed(p.declaredHash)))
    requires Says(f, "publisher_rights_verified", Bool(true))
    requires Says(f, "verification_method", Text(p.verificationMethod))
    requires Says(f, "refresh_interval_seconds",
                  if p.refreshInterval.None? then Null else Uint(p.refreshInterval.value))
    ensures PayloadSaid(f, p)
  {
    PrefixedText(p.declaredHash);
    hide Says, Ascii, Prefixed, HexOf;
    assert SaysText(f, "declared_hash", Prefixed(p.declaredHash));
  }

  lemma PrefixedText(hash: Digest)
    ensures var t := Prefixed(hash); |t| == 71 && t[..7] == Ascii("blake3:") && HexOf(t[7..], hash)
  {
    PrefixedIs(hash);
    hide HexOf;
  }

  // ---- one refresh ----

  /** The hash stored for a server, of its declaration or of the receipt over it. */
  function StoredReceipt(t: Tables, server: Bytes): Option<Digest> {
    if server in t.hashes then Some(t.hashes[server].receiptHash) else None
  }

  /** What an attempt's bytes are made of, given what was found. */
  function PayloadOf(c: Crypto, ryu: Ryu, a: Attempt, f: Found): Payload {
    Payload(f.declaration, f.declaredUri, c.hash(JsonText(ryu, f.raw)), f.verificationMethod, a.refreshInterval)
  }

  /** A document was found, it is not the one stored, its payload can be written, signed and stored. */
  ghost predicate MayIssue(c: Crypto, ryu: Ryu, t: Tables, a: Attempt) {
    && a.found.Some? && a.signerAnswers && !a.inserts.FirstFails?
    && PayloadBytes(PayloadOf(c, ryu, a, a.found.value)).Some?
    && (a.server in t.hashes ==> t.hashes[a.server].declaredHash != c.hash(JsonText(ryu, a.found.value.raw)))
  }

  /** The octets of an enrichment receipt say what was found and which receipt they supersede. */
  ghost predicate EnrichmentSaid(f: seq<Pair>, eventId: Ulid, server: Str, found: Found, hash: Digest, bytes: Blob,
                                 prior: Option<Digest>) {
    && SaysOctets(f, "event_id", eventId, 16) && SaysText(f, "server_name", server)
    && SaysText(f, "publisher_passport", found.declaration.passport)
    && SaysText(f, "declared_uri", found.declaredUri) && SaysOctets(f, "declared_hash", hash, 32)
    && SaysOctets(f, "enrichment_bytes", bytes, |bytes|) && SaysHash(f, "supersedes_prior", prior)
  }

  /** When a refresh issues a receipt, what that receipt says, and what both tables hold afterwards. */
  lemma RefreshMeans(c: Crypto, ryu: Ryu, s: Signer, t: Tables, a: Attempt)
    ensures IssuedBy(c, ryu, s, t, a).Some? <==> MayIssue(c, ryu, t, a)
    ensures MayIssue(c, ryu, t, a) ==>
              var found, r := a.found.value, IssuedBy(c, ryu, s, t, a).value;
              var hash, prior := c.hash(JsonText(ryu, found.raw)), StoredReceipt(t, a.server);
              && EnrichmentSaid(FieldsOf(ToCanonicalCbor(r)), a.eventId, a.server, found, hash,
                                PayloadBytes(PayloadOf(c, ryu, a, found)).value, prior)
              && SaysText(FieldsOf(ToCanonicalCbor(r)), "signer_kid", s.kid)
              && Step(c, ryu, s, t, a).hashes == t.hashes[a.server := HashRow(hash, r.hash)]
              && Step(c, ryu, s, t, a).superseded ==
                 if a.inserts.SecondFails? then t.superseded
                 else t.superseded[a.server := if prior.None? then None else Some(Prefixed(prior.value))]
    ensures !MayIssue(c, ryu, t, a) ==> Step(c, ryu, s, t, a) == t
  {
    hide PayloadBytes, JsonText, ToCanonicalCbor, ComputeHash, Prefixed, ParsePrefixed, FieldsOf, Says, BodyFields,
         WellFormedText, Ascii;
    if a.server in t.hashes {
      PrefixedRoundTrip(t.hashes[a.server].declaredHash);
      PrefixedRoundTrip(t.hashes[a.server].receiptHash);
    }
    var draft := Draft(c, ryu, s, Fetch(t, a.server), a);
    if draft.Signed? {
      PrefixedRoundTrip(draft.receipt.body.declaredHash);
      PrefixedRoundTrip(draft.receipt.hash);
      ReceiptSays(draft.receipt);
    }
  }

  // ---- one submission ----

  function SubmittedPayload(c: Crypto, ryu: Ryu, f: Found): Payload {
    Payload(f.declaration, f.declaredUri, c.hash(JsonText(ryu, f.raw)), f.verificationMethod, None)
  }

  /** A checked submission whose payload can be written. */
  ghost predicate MayStore(c: Crypto, ryu: Ryu, sub: Declarations.Submission) {
    sub.found.Some? && PayloadBytes(SubmittedPayload(c, ryu, sub.found.value)).Some?
  }

  /** A submission is stored under a receipt that says no interval, holds 64 zeros for a signature and names the key of
      the service; both tables change as with a refresh, whether or not the document is new. */
  lemma SubmissionMeans(c: Crypto, ryu: Ryu, t: Tables, sub: Declarations.Submission)
    ensures Declarations.Unsigned(c, ryu, t, sub).Some? <==> MayStore(c, ryu, sub)
    ensures MayStore(c, ryu, sub) ==>
              var found, r := sub.found.value, Declarations.Unsigned(c, ryu, t, sub).value;
              var hash, prior := c.hash(JsonText(ryu, found.raw)), StoredReceipt(t, sub.server);
              var f, after := FieldsOf(ToCanonicalCbor(r)), Declarations.Submitted(c, ryu, t, sub);
              && EnrichmentSaid(f, sub.eventId, sub.server, found, hash,
                                PayloadBytes(SubmittedPayload(c, ryu, found)).value, prior)
              && SaysText(f, "signer_kid", Ascii("vault:transit:rcx-registry-signing-key-1"))
              && SaysOctets(f, "receipt_signature", seq(64, _ => 0), 64)
              && after.hashes == (if sub.inserts.FirstFails? then t.hashes
                                  else t.hashes[sub.server := HashRow(hash, r.hash)])
              && after.superseded ==
                 if !sub.inserts.BothDone? then t.superseded
                 else t.superseded[sub.server := if prior.None? then None else Some(Prefixed(prior.value))]
    ensures !MayStore(c, ryu, sub) ==> Declarations.Submitted(c, ryu, t, sub) == t
  {
    hide PayloadBytes, JsonText, ToCanonicalCbor, ComputeHash, Prefixed, ParsePrefixed, FieldsOf, Says, BodyFields,
         WellFormedText, Ascii;
    assert Zeros(64) == seq(64, _ => 0);
    if sub.server in t.hashes {
      PrefixedRoundTrip(t.hashes[sub.server].receiptHash);
    }
    var r := Declarations.Unsigned(c, ryu, t, sub);
    if r.Some? {
      PrefixedRoundTrip(r.value.body.declaredHash);
      PrefixedRoundTrip(r.value.hash);
      ReceiptSays(r.value);
    }
  }
}
