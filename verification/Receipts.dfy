/** The seven receipt types: their field lists, hash, signing preimage and typed verification. */
module Receipts {
  import opened ByteStrings
  import opened StableSort
  import opened Cbor
  import opened CborLaws

  const HASH_LEN := 32
  const SIGNATURE_LEN := 64
  const ULID_LEN := 16
  const PUBLIC_KEY_LEN := 32

  type Digest = b: Bytes | |b| == HASH_LEN witness Zeros(HASH_LEN)
  type Signature = b: Bytes | |b| == SIGNATURE_LEN witness Zeros(SIGNATURE_LEN)
  type Ulid = b: Bytes | |b| == ULID_LEN witness Zeros(ULID_LEN)
  type Blob = b: Bytes | |b| < U64 witness []
  type Str = t: Bytes | WellFormedText(t) witness []

  /** BLAKE3 and Ed25519 as given functions; `keyOk` is whether 32 octets decode to a public key. */
  datatype Crypto = Crypto(hash: Bytes -> Digest, keyOk: Bytes -> bool, verify: (Bytes, Bytes, Bytes) -> bool)

  /** `sign` holds the private half of `key`. */
  ghost predicate Signs(c: Crypto, key: Bytes, sign: Bytes -> Signature) {
    |key| == PUBLIC_KEY_LEN && c.keyOk(key) && forall m :: c.verify(key, m, sign(m))
  }

  const RECEIPT_HASH := Ascii("receipt_hash")
  const RECEIPT_SIGNATURE := Ascii("receipt_signature")
  const SIGNER_KID := Ascii("signer_kid")
  const SNAPSHOT_ROOT := Ascii("snapshot_merkle_root")
  const PREVIOUS_SNAPSHOT_HASH := Ascii("previous_snapshot_hash")
  const SUPERSEDES_PRIOR := Ascii("supersedes_prior")

  datatype Body =
    | RegistrySnapshot(eventId: Ulid, snapshotId: Ulid, scrapedAt: u64, serverCount: u64, snapshotRoot: Digest,
                       previousSnapshotHash: Option<Digest>, upstreamUri: Str, upstreamEtag: Option<Str>,
                       added: u64, removed: u64, modified: u64)
    | EntryAutoEnriched(eventId: Ulid, serverName: Str, snapshotId: Ulid, autoEnrichmentBytes: Blob)
    | EntryEnriched(eventId: Ulid, serverName: Str, publisherPassport: Str, declaredUri: Str, declaredHash: Digest,
                    enrichmentBytes: Blob, supersedesPrior: Option<Digest>)
    | AttestationAccepted(eventId: Ulid, attestationId: Ulid, serverName: Str, issuerPassport: Str,
                          attestationType: Str, attestationHash: Digest, attestationBytes: Blob)
    | AttestationRevoked(eventId: Ulid, attestationId: Ulid, revokerPassport: Str, reason: Option<Str>,
                         revokedAt: u64, revocationSignature: Signature)
    | PublisherRightsVerified(eventId: Ulid, publisherPassport: Str, namespace: Str, verificationMethod: Str,
                              verifiedAt: u64)
    | SkillSnapshot(eventId: Ulid, snapshotId: Ulid, signedAtMs: u64, skillCount: u64, lockVersion: u64,
                    lockRoot: Digest, previousSnapshotHash: Option<Digest>)

  datatype Receipt = Receipt(body: Body, hash: Digest, signature: Signature, kid: Str)

  ghost predicate EncodableField(p: Pair) { WellFormedText(p.0) && Encodable(p.1) }

  ghost predicate AllEncodable(fields: seq<Pair>) { forall p :: p in fields ==> EncodableField(p) }

  function Field(name: string, value: CborValue): (p: Pair)
    requires |name| < 64 && Encodable(value)
    ensures p == (Ascii(name), value) && EncodableField(p)
  {
    AsciiIsUtf8(Ascii(name));
    (Ascii(name), value)
  }

  function BytesField(name: string, b: Blob): (p: Pair)
    requires |name| < 64
    ensures p == (Ascii(name), ByteString(b)) && EncodableField(p)
  {
    Field(name, ByteString(b))
  }

  function TextField(name: string, t: Str): (p: Pair)
    requires |name| < 64
    ensures p == (Ascii(name), Text(t)) && EncodableField(p)
  {
    Field(name, Text(t))
  }

  function UintField(name: string, n: u64): (p: Pair)
    requires |name| < 64
    ensures p == (Ascii(name), Uint(n)) && EncodableField(p)
  {
    Field(name, Uint(n))
  }

  function OptionalHashField(name: string, h: Option<Digest>): (p: Pair)
    requires |name| < 64
    ensures p == (Ascii(name), if h.None? then Null else ByteString(h.value)) && EncodableField(p)
  {
    Field(name, if h.None? then Null else ByteString(h.value))
  }

  function OptionalTextField(name: string, t: Option<Str>): (p: Pair)
    requires |name| < 64
    ensures p == (Ascii(name), if t.None? then Null else Text(t.value)) && EncodableField(p)
  {
    Field(name, if t.None? then Null else Text(t.value))
  }

  function ChangesField(b: Body): (p: Pair)
    requires b.RegistrySnapshot?
    ensures p.0 == Ascii("changes") && EncodableField(p)
  {
    var counts := [UintField("added", b.added), UintField("removed", b.removed), UintField("modified", b.modified)];
    EncodablePairs(counts);
    Field("changes", Map(counts))
  }

  function RegistrySnapshotFields(b: Body): (r: seq<Pair>)
    requires b.RegistrySnapshot?
    ensures AllEncodable(r)
  {
    hide Ascii, EncodableField, WellFormedText, Encodable;
    [ BytesField("event_id", b.eventId),
      BytesField("snapshot_id", b.snapshotId),
      UintField("scraped_at", b.scrapedAt),
      UintField("server_count", b.serverCount),
      BytesField("snapshot_merkle_root", b.snapshotRoot),
      OptionalHashField("previous_snapshot_hash", b.previousSnapshotHash),
      TextField("upstream_registry_uri", b.upstreamUri),
      OptionalTextField("upstream_snapshot_etag", b.upstreamEtag),
      ChangesField(b) ]
  }

  function EntryAutoEnrichedFields(b: Body): (r: seq<Pair>)
    requires b.EntryAutoEnriched?
    ensures AllEncodable(r)
  {
    [ BytesField("event_id", b.eventId),
      TextField("server_name", b.serverName),
      BytesField("snapshot_id", b.snapshotId),
      BytesField("auto_enrichment_bytes", b.autoEnrichmentBytes) ]
  }

  function EntryEnrichedFields(b: Body): (r: seq<Pair>)
    requires b.EntryEnriched?
    ensures AllEncodable(r)
  {
    [ BytesField("event_id", b.eventId),
      TextField("server_name", b.serverName),
      TextField("publisher_passport", b.publisherPassport),
      TextField("declared_uri", b.declaredUri),
      BytesField("declared_hash", b.declaredHash),
      BytesField("enrichment_bytes", b.enrichmentBytes),
      OptionalHashField("supersedes_prior", b.supersedesPrior) ]
  }

  function AttestationAcceptedFields(b: Body): (r: seq<Pair>)
    requires b.AttestationAccepted?
    ensures AllEncodable(r)
  {
    [ BytesField("event_id", b.eventId),
      BytesField("attestation_id", b.attestationId),
      TextField("server_name", b.serverName),
      TextField("issuer_passport", b.issuerPassport),
      TextField("type", b.attestationType),
      BytesField("attestation_hash", b.attestationHash),
      BytesField("attestation_bytes", b.attestationBytes) ]
  }

  function AttestationRevokedFields(b: Body): (r: seq<Pair>)
    requires b.AttestationRevoked?
    ensures AllEncodable(r)
  {
    [ BytesField("event_id", b.eventId),
      BytesField("attestation_id", b.attestationId),
      TextField("revoker_passport", b.revokerPassport),
      OptionalTextField("reason", b.reason),
      UintField("revoked_at", b.revokedAt),
      BytesField("revocation_signature", b.revocationSignature) ]
  }

  function PublisherRightsVerifiedFields(b: Body): (r: seq<Pair>)
    requires b.PublisherRightsVerified?
    ensures AllEncodable(r)
  {
    [ BytesField("event_id", b.eventId),
      TextField("publisher_passport", b.publisherPassport),
      TextField("namespace", b.namespace),
      TextField("verification_method", b.verificationMethod),
      UintField("verified_at", b.verifiedAt) ]
  }

  function SkillSnapshotFields(b: Body): (r: seq<Pair>)
    requires b.SkillSnapshot?
    ensures AllEncodable(r)
  {
    [ BytesField("event_id", b.eventId),
      BytesField("snapshot_id", b.snapshotId),
      UintField("signed_at_ms", b.signedAtMs),
      UintField("skill_count", b.skillCount),
      UintField("lock_version", b.lockVersion),
      BytesField("lock_merkle_root", b.lockRoot),
      OptionalHashField("previous_snapshot_hash", b.previousSnapshotHash) ]
  }

  /** The fields before the three every receipt ends with, in the order the constructors list them. */
  function BodyFields(b: Body): (r: seq<Pair>)
    ensures AllEncodable(r)
  {
    match b
    case RegistrySnapshot(_, _, _, _, _, _, _, _, _, _, _) => RegistrySnapshotFields(b)
    case EntryAutoEnriched(_, _, _, _) => EntryAutoEnrichedFields(b)
    case EntryEnriched(_, _, _, _, _, _, _) => EntryEnrichedFields(b)
    case AttestationAccepted(_, _, _, _, _, _, _) => AttestationAcceptedFields(b)
    case AttestationRevoked(_, _, _, _, _, _) => AttestationRevokedFields(b)
    case PublisherRightsVerified(_, _, _, _, _) => PublisherRightsVerifiedFields(b)
    case SkillSnapshot(_, _, _, _, _, _, _) => SkillSnapshotFields(b)
  }

  function EnvelopeFields(r: Receipt, zero: bool): (fields: seq<Pair>)
    ensures AllEncodable(fields)
  {
    [ BytesField("receipt_hash", if zero then Zeros(HASH_LEN) else r.hash),
      BytesField("receipt_signature", if zero then Zeros(SIGNATURE_LEN) else r.signature),
      if zero then Field("signer_kid", Null) else TextField("signer_kid", r.kid) ]
  }

  function Fields(r: Receipt, zero: bool): seq<Pair> { BodyFields(r.body) + EnvelopeFields(r, zero) }

  /** `to_cbor_value` */
  function ToCborValue(r: Receipt, zero: bool): CborValue { Map(Fields(r, zero)) }

  function ToCanonicalCbor(r: Receipt): Bytes { Encode(ToCborValue(r, false)) }

  function ComputeHash(c: Crypto, r: Receipt): Digest { c.hash(Encode(ToCborValue(r, true))) }

  /** `*signature_field = ...` on the first pair of that name; `None` when there is none. */
  function Overwrite(fields: seq<Pair>, name: Bytes, value: CborValue): Option<seq<Pair>> {
    if fields == [] then None
    else if fields[0].0 == name then Some([(name, value)] + fields[1..])
    else
      var rest := Overwrite(fields[1..], name, value);
      if rest.None? then None else Some([fields[0]] + rest.value)
  }

  datatype CrownError = PublicKeyLength | BadPublicKey | BadSignature

  datatype Checked = Valid | Invalid(error: CrownError)

  /** `verify_receipt_signature`, the typed check. */
  function VerifyReceiptSignature(c: Crypto, r: Receipt, key: Bytes): Checked {
    if |key| != PUBLIC_KEY_LEN then Invalid(PublicKeyLength)
    else if !c.keyOk(key) then Invalid(BadPublicKey)
    else if ComputeHash(c, r) != r.hash then Invalid(BadSignature)
    else
      var fields := Overwrite(Fields(r, false), RECEIPT_SIGNATURE, ByteString(Zeros(SIGNATURE_LEN)));
      if fields.None? || !c.verify(key, Encode(Map(fields.value)), r.signature) then Invalid(BadSignature)
      else Valid
  }

  /**
   What every producer does: hash with the three fields neutral, then sign the encoding that carries
   the hash and the key id while the signature is still zero, then fill the signature in.
   */
  function Mint(c: Crypto, body: Body, kid: Str, sign: Bytes -> Signature): Receipt {
    var draft := Receipt(body, Zeros(HASH_LEN), Zeros(SIGNATURE_LEN), kid);
    var hashed := draft.(hash := ComputeHash(c, draft));
    hashed.(signature := sign(ToCanonicalCbor(hashed)))
  }

  // ---- facts about the field lists ----

  /** A field name that is none of the three every receipt ends with. */
  ghost predicate Free(name: Bytes) {
    name != RECEIPT_HASH && name != RECEIPT_SIGNATURE && name != SIGNER_KID
  }

  lemma EnvelopeNamesDiffer()
    ensures RECEIPT_HASH != RECEIPT_SIGNATURE && RECEIPT_HASH != SIGNER_KID && RECEIPT_SIGNATURE != SIGNER_KID
  {
  }

  lemma BodyNamesFree()
    ensures Free(Ascii("attestation_bytes")) && Free(Ascii("attestation_hash")) && Free(Ascii("attestation_id"))
    ensures Free(Ascii("auto_enrichment_bytes")) && Free(Ascii("changes")) && Free(Ascii("declared_hash"))
    ensures Free(Ascii("declared_uri")) && Free(Ascii("enrichment_bytes")) && Free(Ascii("event_id"))
    ensures Free(Ascii("issuer_passport")) && Free(Ascii("lock_merkle_root")) && Free(Ascii("lock_version"))
    ensures Free(Ascii("namespace")) && Free(Ascii("previous_snapshot_hash")) && Free(Ascii("publisher_passport"))
    ensures Free(Ascii("reason")) && Free(Ascii("revocation_signature")) && Free(Ascii("revoked_at"))
    ensures Free(Ascii("revoker_passport")) && Free(Ascii("scraped_at")) && Free(Ascii("server_count"))
    ensures Free(Ascii("server_name")) && Free(Ascii("signed_at_ms")) && Free(Ascii("skill_count"))
    ensures Free(Ascii("snapshot_id")) && Free(Ascii("snapshot_merkle_root")) && Free(Ascii("supersedes_prior"))
    ensures Free(Ascii("type")) && Free(Ascii("upstream_registry_uri")) && Free(Ascii("upstream_snapshot_etag"))
    ensures Free(Ascii("verification_method")) && Free(Ascii("verified_at"))
  {
    assert Ascii("server_count")[0] != RECEIPT_HASH[0] && Ascii("declared_uri")[0] != RECEIPT_HASH[0];
    assert Ascii("lock_version")[0] != RECEIPT_HASH[0] && Ascii("signed_at_ms")[0] != RECEIPT_HASH[0];
    assert Ascii("attestation_bytes")[0] != RECEIPT_SIGNATURE[0];
    assert Ascii("scraped_at")[1] != SIGNER_KID[1] && Ascii("revoked_at")[0] != SIGNER_KID[0];
  }

  ghost predicate Rootless(name: Bytes) { name != SNAPSHOT_ROOT }

  lemma NamesRootless()
    ensures Rootless(RECEIPT_HASH) && Rootless(RECEIPT_SIGNATURE) && Rootless(SIGNER_KID)
    ensures Rootless(Ascii("attestation_bytes")) && Rootless(Ascii("attestation_hash"))
            && Rootless(Ascii("attestation_id"))
    ensures Rootless(Ascii("auto_enrichment_bytes")) && Rootless(Ascii("changes")) && Rootless(Ascii("declared_hash"))
    ensures Rootless(Ascii("declared_uri")) && Rootless(Ascii("enrichment_bytes")) && Rootless(Ascii("event_id"))
    ensures Rootless(Ascii("issuer_passport")) && Rootless(Ascii("lock_merkle_root")) && Rootless(Ascii("lock_version"))
    ensures Rootless(Ascii("namespace")) && Rootless(Ascii("previous_snapshot_hash"))
            && Rootless(Ascii("publisher_passport"))
    ensures Rootless(Ascii("reason")) && Rootless(Ascii("revocation_signature")) && Rootless(Ascii("revoked_at"))
    ensures Rootless(Ascii("revoker_passport")) && Rootless(Ascii("scraped_at")) && Rootless(Ascii("server_count"))
    ensures Rootless(Ascii("server_name")) && Rootless(Ascii("signed_at_ms")) && Rootless(Ascii("skill_count"))
    ensures Rootless(Ascii("snapshot_id")) && Rootless(Ascii("supersedes_prior")) && Rootless(Ascii("type"))
    ensures Rootless(Ascii("upstream_registry_uri")) && Rootless(Ascii("upstream_snapshot_etag"))
            && Rootless(Ascii("verification_method"))
    ensures Rootless(Ascii("verified_at"))
  {
    assert Ascii("revocation_signature")[0] != SNAPSHOT_ROOT[0];
  }

  ghost predicate AllRootless(fields: seq<Pair>) { forall p :: p in fields ==> Rootless(p.0) }

  ghost predicate AllFree(fields: seq<Pair>) { forall p :: p in fields ==> Free(p.0) }

  lemma RegistrySnapshotFieldsOk(b: Body)
    requires b.RegistrySnapshot?
    ensures AllFree(RegistrySnapshotFields(b)) && |RegistrySnapshotFields(b)| == 9
    ensures RegistrySnapshotFields(b)[4] == (SNAPSHOT_ROOT, ByteString(b.snapshotRoot))
    ensures forall i :: 0 <= i < 4 ==> Rootless(RegistrySnapshotFields(b)[i].0)
  {
    BodyNamesFree();
    NamesRootless();
    hide Free, Rootless, Ascii, EncodableField;
  }

  lemma EntryAutoEnrichedFieldsOk(b: Body)
    requires b.EntryAutoEnriched?
    ensures AllFree(EntryAutoEnrichedFields(b)) && AllRootless(EntryAutoEnrichedFields(b))
            && |EntryAutoEnrichedFields(b)| <= 9
  {
    BodyNamesFree();
    NamesRootless();
    hide Free, Rootless, Ascii, EncodableField;
  }

  lemma EntryEnrichedFieldsOk(b: Body)
    requires b.EntryEnriched?
    ensures AllFree(EntryEnrichedFields(b)) && AllRootless(EntryEnrichedFields(b)) && |EntryEnrichedFields(b)| <= 9
  {
    BodyNamesFree();
    NamesRootless();
    hide Free, Rootless, Ascii, EncodableField;
  }

  lemma AttestationAcceptedFieldsOk(b: Body)
    requires b.AttestationAccepted?
    ensures AllFree(AttestationAcceptedFields(b)) && AllRootless(AttestationAcceptedFields(b))
            && |AttestationAcceptedFields(b)| <= 9
  {
    BodyNamesFree();
    NamesRootless();
    hide Free, Rootless, Ascii, EncodableField;
  }

  lemma AttestationRevokedFieldsOk(b: Body)
    requires b.AttestationRevoked?
    ensures AllFree(AttestationRevokedFields(b)) && AllRootless(AttestationRevokedFields(b))
            && |AttestationRevokedFields(b)| <= 9
  {
    BodyNamesFree();
    NamesRootless();
    hide Free, Rootless, Ascii, EncodableField;
  }

  lemma PublisherRightsVerifiedFieldsOk(b: Body)
    requires b.PublisherRightsVerified?
    ensures AllFree(PublisherRightsVerifiedFields(b)) && AllRootless(PublisherRightsVerifiedFields(b))
            && |PublisherRightsVerifiedFields(b)| <= 9
  {
    BodyNamesFree();
    NamesRootless();
    hide Free, Rootless, Ascii, EncodableField;
  }

  lemma SkillSnapshotFieldsOk(b: Body)
    requires b.SkillSnapshot?
    ensures AllFree(SkillSnapshotFields(b)) && AllRootless(SkillSnapshotFields(b)) && |SkillSnapshotFields(b)| <= 9
  {
    BodyNamesFree();
    NamesRootless();
    hide Free, Rootless, Ascii, EncodableField;
  }

  /** No receipt type has a body field under one of the three envelope names. */
  lemma BodyOk(b: Body)
    ensures AllFree(BodyFields(b)) && |BodyFields(b)| <= 9
    ensures !b.RegistrySnapshot? ==> AllRootless(BodyFields(b))
  {
    hide AllFree, AllRootless;
    hide RegistrySnapshotFields, EntryAutoEnrichedFields, EntryEnrichedFields, AttestationAcceptedFields,
         AttestationRevokedFields, PublisherRightsVerifiedFields, SkillSnapshotFields;
    match b {
      case RegistrySnapshot(_, _, _, _, _, _, _, _, _, _, _) => RegistrySnapshotFieldsOk(b);
      case EntryAutoEnriched(_, _, _, _) => EntryAutoEnrichedFieldsOk(b);
      case EntryEnriched(_, _, _, _, _, _, _) => EntryEnrichedFieldsOk(b);
      case AttestationAccepted(_, _, _, _, _, _, _) => AttestationAcceptedFieldsOk(b);
      case AttestationRevoked(_, _, _, _, _, _) => AttestationRevokedFieldsOk(b);
      case PublisherRightsVerified(_, _, _, _, _) => PublisherRightsVerifiedFieldsOk(b);
      case SkillSnapshot(_, _, _, _, _, _, _) => SkillSnapshotFieldsOk(b);
    }
  }

  lemma ReceiptEncodable(r: Receipt, zero: bool)
    ensures Encodable(ToCborValue(r, zero))
  {
    BodyOk(r.body);
    hide Ascii, WellFormedText, Encodable, BodyFields;
    var fields := Fields(r, zero);
    assert AllEncodable(EnvelopeFields(r, zero));
    forall i | 0 <= i < |fields| ensures WellFormedText(fields[i].0) && Encodable(fields[i].1) {
      assert fields[i] in BodyFields(r.body) || fields[i] in EnvelopeFields(r, zero);
    }
    EncodablePairs(fields);
  }

  // ---- zeroing ----

  /** `zero_fields` on one field: octets to as many zeros, text to null, anything else unchanged. */
  function Neutral(v: CborValue): CborValue {
    match v
    case ByteString(b) => ByteString(Zeros(|b|))
    case Text(_) => Null
    case _ => v
  }

  function ZeroFields(fields: seq<Pair>, names: set<Bytes>): (r: seq<Pair>)
    ensures |r| == |fields|
    ensures forall i :: 0 <= i < |fields| ==>
              r[i] == (if fields[i].0 in names then (fields[i].0, Neutral(fields[i].1)) else fields[i])
  {
    seq(|fields|, i requires 0 <= i < |fields| =>
      if fields[i].0 in names then (fields[i].0, Neutral(fields[i].1)) else fields[i])
  }

  const HASHED_NEUTRAL := {RECEIPT_HASH, RECEIPT_SIGNATURE, SIGNER_KID}
  const SIGNED_NEUTRAL := {RECEIPT_SIGNATURE}

  lemma FreeUntouched(fields: seq<Pair>, names: set<Bytes>)
    requires AllFree(fields) && names <= HASHED_NEUTRAL
    ensures ZeroFields(fields, names) == fields
  {
  }

  lemma ZeroFieldsAppend(a: seq<Pair>, b: seq<Pair>, names: set<Bytes>)
    ensures ZeroFields(a + b, names) == ZeroFields(a, names) + ZeroFields(b, names)
  {
  }

  /** Zeroing three fields of the encoded map is what the constructors do when asked to zero. */
  lemma TypedZeroingForHash(r: Receipt)
    ensures ZeroFields(Fields(r, false), HASHED_NEUTRAL) == Fields(r, true)
  {
    hide BodyFields, Ascii, AllFree, WellFormedText, Encodable, AllEncodable;
    BodyOk(r.body);
    FreeUntouched(BodyFields(r.body), HASHED_NEUTRAL);
    ZeroFieldsAppend(BodyFields(r.body), EnvelopeFields(r, false), HASHED_NEUTRAL);
    assert ZeroFields(EnvelopeFields(r, false), HASHED_NEUTRAL) == EnvelopeFields(r, true);
  }

  /** Zeroing the signature alone is re-encoding the receipt with a zero signature. */
  lemma TypedZeroingForSignature(r: Receipt)
    ensures ZeroFields(Fields(r, false), SIGNED_NEUTRAL) == Fields(r.(signature := Zeros(SIGNATURE_LEN)), false)
    ensures Overwrite(Fields(r, false), RECEIPT_SIGNATURE, ByteString(Zeros(SIGNATURE_LEN)))
         == Some(Fields(r.(signature := Zeros(SIGNATURE_LEN)), false))
  {
    hide BodyFields, Ascii, WellFormedText, Encodable, AllEncodable, Overwrite;
    EnvelopeNamesDiffer();
    BodyOk(r.body);
    FreeUntouched(BodyFields(r.body), SIGNED_NEUTRAL);
    ZeroFieldsAppend(BodyFields(r.body), EnvelopeFields(r, false), SIGNED_NEUTRAL);
    var unsigned := r.(signature := Zeros(SIGNATURE_LEN));
    assert ZeroFields(EnvelopeFields(r, false), SIGNED_NEUTRAL) == EnvelopeFields(unsigned, false);
    OverwriteInEnvelope(r);
    OverwriteSkips(BodyFields(r.body), EnvelopeFields(r, false), RECEIPT_SIGNATURE, ByteString(Zeros(SIGNATURE_LEN)));
  }

  lemma OverwriteInEnvelope(r: Receipt)
    ensures Overwrite(EnvelopeFields(r, false), RECEIPT_SIGNATURE, ByteString(Zeros(SIGNATURE_LEN)))
         == Some(EnvelopeFields(r.(signature := Zeros(SIGNATURE_LEN)), false))
  {
    EnvelopeNamesDiffer();
    hide Ascii, WellFormedText;
    var fields := EnvelopeFields(r, false);
    assert fields[1..][0] == fields[1] && fields[1..][1..] == [fields[2]];
    var rest := Overwrite(fields[1..], RECEIPT_SIGNATURE, ByteString(Zeros(SIGNATURE_LEN)));
    assert rest == Some([(RECEIPT_SIGNATURE, ByteString(Zeros(SIGNATURE_LEN)))] + [fields[2]]);
    assert [fields[0]] + rest.value == EnvelopeFields(r.(signature := Zeros(SIGNATURE_LEN)), false);
  }

  lemma {:induction false} OverwriteSkips(a: seq<Pair>, b: seq<Pair>, name: Bytes, value: CborValue)
    requires forall p :: p in a ==> p.0 != name
    ensures Overwrite(a + b, name, value) ==
            if Overwrite(b, name, value).None? then None else Some(a + Overwrite(b, name, value).value)
  {
    if a == [] {
      assert a + b == b;
      assert Overwrite(b, name, value).Some? ==> a + Overwrite(b, name, value).value == Overwrite(b, name, value).value;
    } else {
      assert a[0] in a;
      assert (a + b)[1..] == a[1..] + b;
      OverwriteSkips(a[1..], b, name, value);
      var inner := Overwrite(b, name, value);
      assert inner.Some? ==> [a[0]] + (a[1..] + inner.value) == a + inner.value;
    }
  }

  lemma {:induction false} LookupSkips(a: seq<Pair>, b: seq<Pair>, name: Bytes)
    requires forall p :: p in a ==> p.0 != name
    ensures Lookup(a + b, name) == Lookup(b, name)
  {
    if a == [] {
      assert a + b == b;
    } else {
      assert a[0] in a;
      assert (a + b)[1..] == a[1..] + b;
      LookupSkips(a[1..], b, name);
    }
  }

  /** The three envelope fields are found, whatever the type. */
  lemma LookupEnvelope(r: Receipt)
    ensures Lookup(Fields(r, false), RECEIPT_HASH) == Some(ByteString(r.hash))
    ensures Lookup(Fields(r, false), RECEIPT_SIGNATURE) == Some(ByteString(r.signature))
    ensures Lookup(Fields(r, false), SIGNER_KID) == Some(Text(r.kid))
  {
    hide BodyFields, Ascii, WellFormedText, Encodable, AllEncodable, Lookup;
    EnvelopeNamesDiffer();
    BodyOk(r.body);
    var body, envelope := BodyFields(r.body), EnvelopeFields(r, false);
    LookupSkips(body, envelope, RECEIPT_HASH);
    LookupSkips(body, envelope, RECEIPT_SIGNATURE);
    LookupSkips(body, envelope, SIGNER_KID);
    LookupFirst(envelope, RECEIPT_HASH, 0);
    LookupFirst(envelope, RECEIPT_SIGNATURE, 1);
    LookupFirst(envelope, SIGNER_KID, 2);
  }

  /** Where the two chain kinds find their backward reference. */
  lemma LinkFields(b: Body)
    ensures b.RegistrySnapshot? ==>
              |BodyFields(b)| == 9
                && BodyFields(b)[5] == OptionalHashField("previous_snapshot_hash", b.previousSnapshotHash)
              && forall i :: 0 <= i < 5 ==> BodyFields(b)[i].0 != PREVIOUS_SNAPSHOT_HASH
    ensures b.EntryEnriched? ==>
              |BodyFields(b)| == 7 && BodyFields(b)[6] == OptionalHashField("supersedes_prior", b.supersedesPrior)
              && forall i :: 0 <= i < 6 ==> BodyFields(b)[i].0 != SUPERSEDES_PRIOR
  {
    hide EncodableField;
    assert Ascii("enrichment_bytes")[0] != SUPERSEDES_PRIOR[0];
  }

  lemma EventIdField(b: Body)
    ensures |BodyFields(b)| > 0 && BodyFields(b)[0] == BytesField("event_id", b.eventId)
  {
  }
}
