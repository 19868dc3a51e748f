/** What the octets of a receipt say, name by name, and what its two preimages replace. */
module ReceiptFields {
  import opened ByteStrings
  import opened StableSort
  import opened Cbor
  import opened CborLaws
  import opened Receipts
  import opened Verify
  import opened Chains
  import opened GoVerify
  import opened Minted
  import opened Refusals

  /** The map holds the value under the name. */
  predicate Says(fields: seq<Pair>, name: string, v: CborValue) { Lookup(fields, Ascii(name)) == Some(v) }

  /** Octets of the given number. */
  predicate SaysOctets(fields: seq<Pair>, name: string, b: Bytes, size: nat) {
    |b| == size && Says(fields, name, ByteString(b))
  }

  predicate SaysText(fields: seq<Pair>, name: string, t: Bytes) { Says(fields, name, Text(t)) }

  predicate SaysNumber(fields: seq<Pair>, name: string, n: u64) { Says(fields, name, Uint(n)) }

  predicate SaysHash(fields: seq<Pair>, name: string, h: Option<Digest>) {
    if h.None? then Says(fields, name, Null) else SaysOctets(fields, name, h.value, 32)
  }

  predicate SaysOptionalText(fields: seq<Pair>, name: string, t: Option<Str>) {
    if t.None? then Says(fields, name, Null) else SaysText(fields, name, t.value)
  }

  function Decoded(r: Receipt): seq<Pair> { FieldsOf(ToCanonicalCbor(r)) }

  /** Every listed field is found in what the octets decode to. */
  lemma ListedField(r: Receipt, i: nat)
    requires i < |Fields(r, false)|
    ensures Lookup(Decoded(r), Fields(r, false)[i].0) == Some(Normalise(Fields(r, false)[i].1))
  {
    FieldsPlain(r);
    DecodedFields(r);
    hide Fields, FieldsOf, ToCanonicalCbor, Normalise, NoDuplicates, Sort;
    LookupFirst(Fields(r, false), Fields(r, false)[i].0, i);
    LookupDecoded(Fields(r, false), Fields(r, false)[i].0);
  }

  lemma BodyField(r: Receipt, i: nat)
    requires i < |BodyFields(r.body)|
    ensures Lookup(Decoded(r), BodyFields(r.body)[i].0) == Some(Normalise(BodyFields(r.body)[i].1))
  {
    hide BodyFields;
    assert Fields(r, false)[i] == BodyFields(r.body)[i];
    hide Fields;
    ListedField(r, i);
  }

  /** The three fields every receipt ends with. */
  lemma EnvelopeSays(r: Receipt)
    ensures SaysOctets(Decoded(r), "receipt_hash", r.hash, 32)
    ensures SaysOctets(Decoded(r), "receipt_signature", r.signature, 64)
    ensures SaysText(Decoded(r), "signer_kid", r.kid)
    ensures |Decoded(r)| == |BodyFields(r.body)| + 3
  {
    var n := |BodyFields(r.body)|;
    EnvelopePlaces(r);
    DecodedFields(r);
    hide BodyFields, Says, FieldsOf, Ascii, Fields, ToCanonicalCbor, Sort;
    ListedSays(r, n, "receipt_hash", ByteString(r.hash));
    ListedSays(r, n + 1, "receipt_signature", ByteString(r.signature));
    ListedSays(r, n + 2, "signer_kid", Text(r.kid));
  }

  lemma ListedSays(r: Receipt, i: nat, name: string, v: CborValue)
    requires i < |Fields(r, false)| && Fields(r, false)[i] == (Ascii(name), v) && !v.Array? && !v.Map?
    ensures Says(Decoded(r), name, v)
  {
    assert Normalise(v) == v;
    hide Fields, Lookup, FieldsOf, Ascii, ToCanonicalCbor, Normalise;
    ListedField(r, i);
  }

  /** Where the three fields stand in what is encoded. */
  lemma EnvelopePlaces(r: Receipt)
    ensures var n, f := |BodyFields(r.body)|, Fields(r, false);
            && |f| == n + 3 && f[n] == (Ascii("receipt_hash"), ByteString(r.hash))
            && f[n + 1] == (Ascii("receipt_signature"), ByteString(r.signature))
            && f[n + 2] == (Ascii("signer_kid"), Text(r.kid))
  {
    hide BodyFields, Ascii, EncodableField, WellFormedText, Encodable, AllEncodable;
  }

  /** Field `i` of the body, if normalising leaves its value alone. */
  lemma FieldSays(r: Receipt, i: nat, name: string, v: CborValue)
    requires i < |BodyFields(r.body)| && BodyFields(r.body)[i] == (Ascii(name), v) && Normalise(v) == v
    ensures Says(Decoded(r), name, v)
  {
    hide BodyFields, Lookup, FieldsOf, Ascii, ToCanonicalCbor, Normalise;
    BodyField(r, i);
  }

  lemma BlobSaid(r: Receipt, i: nat, name: string, b: Blob)
    requires i < |BodyFields(r.body)| && BodyFields(r.body)[i] == (Ascii(name), ByteString(b))
    ensures SaysOctets(Decoded(r), name, b, |b|)
  {
    hide BodyFields, Says, FieldsOf, Ascii, ToCanonicalCbor;
    FieldSays(r, i, name, ByteString(b));
  }

  lemma UlidSaid(r: Receipt, i: nat, name: string, b: Ulid)
    requires i < |BodyFields(r.body)| && BodyFields(r.body)[i] == (Ascii(name), ByteString(b))
    ensures SaysOctets(Decoded(r), name, b, 16)
  {
    hide BodyFields, Says, FieldsOf, Ascii, ToCanonicalCbor;
    FieldSays(r, i, name, ByteString(b));
  }

  lemma DigestSaid(r: Receipt, i: nat, name: string, b: Digest)
    requires i < |BodyFields(r.body)| && BodyFields(r.body)[i] == (Ascii(name), ByteString(b))
    ensures SaysOctets(Decoded(r), name, b, 32)
  {
    hide BodyFields, Says, FieldsOf, Ascii, ToCanonicalCbor;
    FieldSays(r, i, name, ByteString(b));
  }

  lemma SignatureSaid(r: Receipt, i: nat, name: string, b: Signature)
    requires i < |BodyFields(r.body)| && BodyFields(r.body)[i] == (Ascii(name), ByteString(b))
    ensures SaysOctets(Decoded(r), name, b, 64)
  {
    hide BodyFields, Says, FieldsOf, Ascii, ToCanonicalCbor;
    FieldSays(r, i, name, ByteString(b));
  }

  lemma TextSaid(r: Receipt, i: nat, name: string, t: Str)
    requires i < |BodyFields(r.body)| && BodyFields(r.body)[i] == (Ascii(name), Text(t))
    ensures SaysText(Decoded(r), name, t)
  {
    hide BodyFields, Says, FieldsOf, Ascii, ToCanonicalCbor, WellFormedText;
    FieldSays(r, i, name, Text(t));
  }

  lemma NumberSaid(r: Receipt, i: nat, name: string, n: u64)
    requires i < |BodyFields(r.body)| && BodyFields(r.body)[i] == (Ascii(name), Uint(n))
    ensures SaysNumber(Decoded(r), name, n)
  {
    hide BodyFields, Says, FieldsOf, Ascii, ToCanonicalCbor;
    FieldSays(r, i, name, Uint(n));
  }

  lemma HashSaid(r: Receipt, i: nat, name: string, h: Option<Digest>)
    requires i < |BodyFields(r.body)| && BodyFields(r.body)[i] == (Ascii(name), HashOrNull(h))
    ensures SaysHash(Decoded(r), name, h)
  {
    hide BodyFields, Says, FieldsOf, Ascii, ToCanonicalCbor;
    FieldSays(r, i, name, HashOrNull(h));
  }

  lemma OptionalTextSaid(r: Receipt, i: nat, name: string, t: Option<Str>)
    requires i < |BodyFields(r.body)| && BodyFields(r.body)[i] == (Ascii(name), TextOrNull(t))
    ensures SaysOptionalText(Decoded(r), name, t)
  {
    hide BodyFields, Says, FieldsOf, Ascii, ToCanonicalCbor, WellFormedText;
    FieldSays(r, i, name, TextOrNull(t));
  }

  function HashOrNull(h: Option<Digest>): CborValue { if h.None? then Null else ByteString(h.value) }

  function TextOrNull(t: Option<Str>): (v: CborValue)
    ensures v.Text? || v.Null?
  {
    if t.None? then Null else Text(t.value)
  }

  /** The counts of a snapshot, in the order their map has in the octets. */
  function CountsOf(b: Body): seq<Pair>
    requires b.RegistrySnapshot?
  {
    [(Ascii("added"), Uint(b.added)), (Ascii("removed"), Uint(b.removed)), (Ascii("modified"), Uint(b.modified))]
  }

  lemma SnapshotListed(b: Body)
    requires b.RegistrySnapshot?
    ensures var f := BodyFields(b);
            && |f| == 9 && f[0] == (Ascii("event_id"), ByteString(b.eventId))
            && f[1] == (Ascii("snapshot_id"), ByteString(b.snapshotId))
            && f[2] == (Ascii("scraped_at"), Uint(b.scrapedAt)) && f[3] == (Ascii("server_count"), Uint(b.serverCount))
            && f[4] == (Ascii("snapshot_merkle_root"), ByteString(b.snapshotRoot))
            && f[5] == (Ascii("previous_snapshot_hash"), HashOrNull(b.previousSnapshotHash))
            && f[6] == (Ascii("upstream_registry_uri"), Text(b.upstreamUri))
            && f[7] == (Ascii("upstream_snapshot_etag"), TextOrNull(b.upstreamEtag))
            && f[8] == (Ascii("changes"), Map(CountsOf(b)))
  {
    hide Ascii, EncodableField, WellFormedText, Encodable;
  }

  /** The fields of each of the seven types, under the names and with the sizes the receipt format gives them. */
  ghost predicate BodySaid(f: seq<Pair>, b: Body) {
    match b
    case RegistrySnapshot(_, _, _, _, _, _, _, _, _, _, _) =>
      && |f| == 12 && SaysOctets(f, "event_id", b.eventId, 16) && SaysOctets(f, "snapshot_id", b.snapshotId, 16)
      && SaysNumber(f, "scraped_at", b.scrapedAt) && SaysNumber(f, "server_count", b.serverCount)
      && SaysOctets(f, "snapshot_merkle_root", b.snapshotRoot, 32)
      && SaysHash(f, "previous_snapshot_hash", b.previousSnapshotHash)
      && SaysText(f, "upstream_registry_uri", b.upstreamUri)
      && SaysOptionalText(f, "upstream_snapshot_etag", b.upstreamEtag) && Says(f, "changes", Map(CountsOf(b)))
    case EntryAutoEnriched(_, _, _, _) =>
      && |f| == 7 && SaysOctets(f, "event_id", b.eventId, 16) && SaysText(f, "server_name", b.serverName)
      && SaysOctets(f, "snapshot_id", b.snapshotId, 16)
      && SaysOctets(f, "auto_enrichment_bytes", b.autoEnrichmentBytes, |b.autoEnrichmentBytes|)
    case EntryEnriched(_, _, _, _, _, _, _) =>
      && |f| == 10 && SaysOctets(f, "event_id", b.eventId, 16) && SaysText(f, "server_name", b.serverName)
      && SaysText(f, "publisher_passport", b.publisherPassport) && SaysText(f, "declared_uri", b.declaredUri)
      && SaysOctets(f, "declared_hash", b.declaredHash, 32)
      && SaysOctets(f, "enrichment_bytes", b.enrichmentBytes, |b.enrichmentBytes|)
      && SaysHash(f, "supersedes_prior", b.supersedesPrior)
    case AttestationAccepted(_, _, _, _, _, _, _) =>
      && |f| == 10 && SaysOctets(f, "event_id", b.eventId, 16)
      && SaysOctets(f, "attestation_id", b.attestationId, 16) && SaysText(f, "server_name", b.serverName)
      && SaysText(f, "issuer_passport", b.issuerPassport) && SaysText(f, "type", b.attestationType)
      && SaysOctets(f, "attestation_hash", b.attestationHash, 32)
      && SaysOctets(f, "attestation_bytes", b.attestationBytes, |b.attestationBytes|)
    case AttestationRevoked(_, _, _, _, _, _) =>
      && |f| == 9 && SaysOctets(f, "event_id", b.eventId, 16)
      && SaysOctets(f, "attestation_id", b.attestationId, 16) && SaysText(f, "revoker_passport", b.revokerPassport)
      && SaysOptionalText(f, "reason", b.reason) && SaysNumber(f, "revoked_at", b.revokedAt)
      && SaysOctets(f, "revocation_signature", b.revocationSignature, 64)
    case PublisherRightsVerified(_, _, _, _, _) =>
      && |f| == 8 && SaysOctets(f, "event_id", b.eventId, 16)
      && SaysText(f, "publisher_passport", b.publisherPassport) && SaysText(f, "namespace", b.namespace)
      && SaysText(f, "verification_method", b.verificationMethod) && SaysNumber(f, "verified_at", b.verifiedAt)
    case SkillSnapshot(_, _, _, _, _, _, _) =>
      && |f| == 10 && SaysOctets(f, "event_id", b.eventId, 16) && SaysOctets(f, "snapshot_id", b.snapshotId, 16)
      && SaysNumber(f, "signed_at_ms", b.signedAtMs) && SaysNumber(f, "skill_count", b.skillCount)
      && SaysNumber(f, "lock_version", b.lockVersion) && SaysOctets(f, "lock_merkle_root", b.lockRoot, 32)
      && SaysHash(f, "previous_snapshot_hash", b.previousSnapshotHash)
  }

  lemma SnapshotSays(r: Receipt)
    requires r.body.RegistrySnapshot?
    ensures BodySaid(Decoded(r), r.body)
  {
    hide BodyFields, Says, SaysOctets, SaysText, SaysNumber, SaysHash, SaysOptionalText, Decoded, Ascii, HashOrNull,
         TextOrNull, CountsOf, Normalise;
    var b := r.body;
    EnvelopeSays(r);
    SnapshotListed(b);
    UlidSaid(r, 0, "event_id", b.eventId);
    UlidSaid(r, 1, "snapshot_id", b.snapshotId);
    NumberSaid(r, 2, "scraped_at", b.scrapedAt);
    NumberSaid(r, 3, "server_count", b.serverCount);
    DigestSaid(r, 4, "snapshot_merkle_root", b.snapshotRoot);
    HashSaid(r, 5, "previous_snapshot_hash", b.previousSnapshotHash);
    TextSaid(r, 6, "upstream_registry_uri", b.upstreamUri);
    OptionalTextSaid(r, 7, "upstream_snapshot_etag", b.upstreamEtag);
    CountsSorted(b);
    FieldSays(r, 8, "changes", Map(CountsOf(b)));
  }

  lemma AutoEnrichedListed(b: Body)
    requires b.EntryAutoEnriched?
    ensures var f := BodyFields(b);
            && |f| == 4 && f[0] == (Ascii("event_id"), ByteString(b.eventId))
            && f[1] == (Ascii("server_name"), Text(b.serverName))
            && f[2] == (Ascii("snapshot_id"), ByteString(b.snapshotId))
            && f[3] == (Ascii("auto_enrichment_bytes"), ByteString(b.autoEnrichmentBytes))
  {
    hide Ascii, EncodableField, WellFormedText, Encodable;
  }

  lemma AutoEnrichedSays(r: Receipt)
    requires r.body.EntryAutoEnriched?
    ensures BodySaid(Decoded(r), r.body)
  {
    hide BodyFields, Says, SaysOctets, SaysText, SaysNumber, SaysHash, SaysOptionalText, Decoded, Ascii, HashOrNull,
         TextOrNull, CountsOf, Normalise;
    var b := r.body;
    EnvelopeSays(r);
    AutoEnrichedListed(b);
    UlidSaid(r, 0, "event_id", b.eventId);
    TextSaid(r, 1, "server_name", b.serverName);
    UlidSaid(r, 2, "snapshot_id", b.snapshotId);
    BlobSaid(r, 3, "auto_enrichment_bytes", b.autoEnrichmentBytes);
  }

  lemma EnrichedListed(b: Body)
    requires b.EntryEnriched?
    ensures var f := BodyFields(b);
            && |f| == 7 && f[0] == (Ascii("event_id"), ByteString(b.eventId))
            && f[1] == (Ascii("server_name"), Text(b.serverName))
            && f[2] == (Ascii("publisher_passport"), Text(b.publisherPassport))
            && f[3] == (Ascii("declared_uri"), Text(b.declaredUri))
            && f[4] == (Ascii("declared_hash"), ByteString(b.declaredHash))
            && f[5] == (Ascii("enrichment_bytes"), ByteString(b.enrichmentBytes))
            && f[6] == (Ascii("supersedes_prior"), HashOrNull(b.supersedesPrior))
  {
    hide Ascii, EncodableField, WellFormedText, Encodable;
  }

  lemma EnrichedSays(r: Receipt)
    requires r.body.EntryEnriched?
    ensures BodySaid(Decoded(r), r.body)
  {
    hide BodyFields, Says, SaysOctets, SaysText, SaysNumber, SaysHash, SaysOptionalText, Decoded, Ascii, HashOrNull,
         TextOrNull, CountsOf, Normalise;
    var b := r.body;
    EnvelopeSays(r);
    EnrichedListed(b);
    UlidSaid(r, 0, "event_id", b.eventId);
    TextSaid(r, 1, "server_name", b.serverName);
    TextSaid(r, 2, "publisher_passport", b.publisherPassport);
    TextSaid(r, 3, "declared_uri", b.declaredUri);
    DigestSaid(r, 4, "declared_hash", b.declaredHash);
    BlobSaid(r, 5, "enrichment_bytes", b.enrichmentBytes);
    HashSaid(r, 6, "supersedes_prior", b.supersedesPrior);
  }

  lemma AcceptedListed(b: Body)
    requires b.AttestationAccepted?
    ensures var f := BodyFields(b);
            && |f| == 7 && f[0] == (Ascii("event_id"), ByteString(b.eventId))
            && f[1] == (Ascii("attestation_id"), ByteString(b.attestationId))
            && f[2] == (Ascii("server_name"), Text(b.serverName))
            && f[3] == (Ascii("issuer_passport"), Text(b.issuerPassport))
            && f[4] == (Ascii("type"), Text(b.attestationType))
            && f[5] == (Ascii("attestation_hash"), ByteString(b.attestationHash))
            && f[6] == (Ascii("attestation_bytes"), ByteString(b.attestationBytes))
  {
    hide Ascii, EncodableField, WellFormedText, Encodable;
  }

  lemma AcceptedSays(r: Receipt)
    requires r.body.AttestationAccepted?
    ensures BodySaid(Decoded(r), r.body)
  {
    hide BodyFields, Says, SaysOctets, SaysText, SaysNumber, SaysHash, SaysOptionalText, Decoded, Ascii, HashOrNull,
         TextOrNull, CountsOf, Normalise;
    var b := r.body;
    EnvelopeSays(r);
    AcceptedListed(b);
    UlidSaid(r, 0, "event_id", b.eventId);
    UlidSaid(r, 1, "attestation_id", b.attestationId);
    TextSaid(r, 2, "server_name", b.serverName);
    TextSaid(r, 3, "issuer_passport", b.issuerPassport);
    TextSaid(r, 4, "type", b.attestationType);
    DigestSaid(r, 5, "attestation_hash", b.attestationHash);
    BlobSaid(r, 6, "attestation_bytes", b.attestationBytes);
  }

  lemma RevokedListed(b: Body)
    requires b.AttestationRevoked?
    ensures var f := BodyFields(b);
            && |f| == 6 && f[0] == (Ascii("event_id"), ByteString(b.eventId))
            && f[1] == (Ascii("attestation_id"), ByteString(b.attestationId))
            && f[2] == (Ascii("revoker_passport"), Text(b.revokerPassport))
            && f[3] == (Ascii("reason"), TextOrNull(b.reason)) && f[4] == (Ascii("revoked_at"), Uint(b.revokedAt))
            && f[5] == (Ascii("revocation_signature"), ByteString(b.revocationSignature))
  {
    hide Ascii, EncodableField, WellFormedText, Encodable;
  }

  lemma RevokedSays(r: Receipt)
    requires r.body.AttestationRevoked?
    ensures BodySaid(Decoded(r), r.body)
  {
    hide BodyFields, Says, SaysOctets, SaysText, SaysNumber, SaysHash, SaysOptionalText, Decoded, Ascii, HashOrNull,
         TextOrNull, CountsOf, Normalise;
    var b := r.body;
    EnvelopeSays(r);
    RevokedListed(b);
    UlidSaid(r, 0, "event_id", b.eventId);
    UlidSaid(r, 1, "attestation_id", b.attestationId);
    TextSaid(r, 2, "revoker_passport", b.revokerPassport);
    OptionalTextSaid(r, 3, "reason", b.reason);
    NumberSaid(r, 4, "revoked_at", b.revokedAt);
    SignatureSaid(r, 5, "revocation_signature", b.revocationSignature);
  }

  lemma RightsListed(b: Body)
    requires b.PublisherRightsVerified?
    ensures var f := BodyFields(b);
            && |f| == 5 && f[0] == (Ascii("event_id"), ByteString(b.eventId))
            && f[1] == (Ascii("publisher_passport"), Text(b.publisherPassport))
            && f[2] == (Ascii("namespace"), Text(b.namespace))
            && f[3] == (Ascii("verification_method"), Text(b.verificationMethod))
            && f[4] == (Ascii("verified_at"), Uint(b.verifiedAt))
  {
    hide Ascii, EncodableField, WellFormedText, Encodable;
  }

  lemma RightsSays(r: Receipt)
    requires r.body.PublisherRightsVerified?
    ensures BodySaid(Decoded(r), r.body)
  {
    hide BodyFields, Says, SaysOctets, SaysText, SaysNumber, SaysHash, SaysOptionalText, Decoded, Ascii, HashOrNull,
         TextOrNull, CountsOf, Normalise;
    var b := r.body;
    EnvelopeSays(r);
    RightsListed(b);
    UlidSaid(r, 0, "event_id", b.eventId);
    TextSaid(r, 1, "publisher_passport", b.publisherPassport);
    TextSaid(r, 2, "namespace", b.namespace);
    TextSaid(r, 3, "verification_method", b.verificationMethod);
    NumberSaid(r, 4, "verified_at", b.verifiedAt);
  }

  lemma SkillListed(b: Body)
    requires b.SkillSnapshot?
    ensures var f := BodyFields(b);
            && |f| == 7 && f[0] == (Ascii("event_id"), ByteString(b.eventId))
            && f[1] == (Ascii("snapshot_id"), ByteString(b.snapshotId))
            && f[2] == (Ascii("signed_at_ms"), Uint(b.signedAtMs))
            && f[3] == (Ascii("skill_count"), Uint(b.skillCount))
            && f[4] == (Ascii("lock_version"), Uint(b.lockVersion))
            && f[5] == (Ascii("lock_merkle_root"), ByteString(b.lockRoot))
            && f[6] == (Ascii("previous_snapshot_hash"), HashOrNull(b.previousSnapshotHash))
  {
    hide Ascii, EncodableField, WellFormedText, Encodable;
  }

  lemma SkillSays(r: Receipt)
    requires r.body.SkillSnapshot?
    ensures BodySaid(Decoded(r), r.body)
  {
    hide BodyFields, Says, SaysOctets, SaysText, SaysNumber, SaysHash, SaysOptionalText, Decoded, Ascii, HashOrNull,
         TextOrNull, CountsOf, Normalise;
    var b := r.body;
    EnvelopeSays(r);
    SkillListed(b);
    UlidSaid(r, 0, "event_id", b.eventId);
    UlidSaid(r, 1, "snapshot_id", b.snapshotId);
    NumberSaid(r, 2, "signed_at_ms", b.signedAtMs);
    NumberSaid(r, 3, "skill_count", b.skillCount);
    NumberSaid(r, 4, "lock_version", b.lockVersion);
    DigestSaid(r, 5, "lock_merkle_root", b.lockRoot);
    HashSaid(r, 6, "previous_snapshot_hash", b.previousSnapshotHash);
  }

  /** Every receipt's octets say what the receipt says, under the names of its type and the three all types share. */
  lemma ReceiptSays(r: Receipt)
    ensures BodySaid(Decoded(r), r.body)
    ensures SaysOctets(Decoded(r), "receipt_hash", r.hash, 32)
    ensures SaysOctets(Decoded(r), "receipt_signature", r.signature, 64)
    ensures SaysText(Decoded(r), "signer_kid", r.kid)
  {
    hide BodyFields, Says, SaysOctets, SaysText, SaysNumber, SaysHash, SaysOptionalText, Decoded, CountsOf;
    EnvelopeSays(r);
    match r.body
    case RegistrySnapshot(_, _, _, _, _, _, _, _, _, _, _) => SnapshotSays(r);
    case EntryAutoEnriched(_, _, _, _) => AutoEnrichedSays(r);
    case EntryEnriched(_, _, _, _, _, _, _) => EnrichedSays(r);
    case AttestationAccepted(_, _, _, _, _, _, _) => AcceptedSays(r);
    case AttestationRevoked(_, _, _, _, _, _) => RevokedSays(r);
    case PublisherRightsVerified(_, _, _, _, _) => RightsSays(r);
    case SkillSnapshot(_, _, _, _, _, _, _) => SkillSays(r);
  }

  /** The names of the three counts are in encoded order as listed. */
  lemma CountsSorted(b: Body)
    requires b.RegistrySnapshot?
    ensures Normalise(Map(CountsOf(b))) == Map(CountsOf(b))
  {
    var counts := CountsOf(b);
    CountNamesAscend();
    hide Ascii, KeyLess;
    assert NormalPairs(counts) == counts;
    KeyLessIsStrictOrder();
    SortSorted(KeyLess, counts);
  }

  lemma CountNamesAscend()
    ensures !KeyLess(Ascii("removed"), Ascii("added")) && !KeyLess(Ascii("modified"), Ascii("removed"))
    ensures !KeyLess(Ascii("modified"), Ascii("added"))
  {
    hide KeyLess;
    KeyOrder(Ascii("removed"), Ascii("added"));
    KeyOrder(Ascii("modified"), Ascii("removed"));
    KeyOrder(Ascii("modified"), Ascii("added"));
  }

  // ---- what is hashed and what is signed ----

  /** The fields with the signature blank and, for hashing, also the hash and the key id. */
  function Blanked(fields: seq<Pair>, forHash: bool): (r: seq<Pair>)
    ensures |r| == |fields| && forall i :: 0 <= i < |r| ==> r[i] == BlankedField(fields[i], forHash)
  {
    seq(|fields|, i requires 0 <= i < |fields| => BlankedField(fields[i], forHash))
  }

  function BlankedField(p: Pair, forHash: bool): Pair {
    if p.0 == Ascii("receipt_signature") then (p.0, ByteString(seq(64, _ => 0)))
    else if forHash && p.0 == Ascii("receipt_hash") then (p.0, ByteString(seq(32, _ => 0)))
    else if forHash && p.0 == Ascii("signer_kid") then (p.0, Null)
    else p
  }

  lemma ReplacedIsBlanked(fields: seq<Pair>)
    ensures Replace(fields, HASH_REPLACEMENTS) == Blanked(fields, true)
    ensures Replace(fields, SIGNATURE_REPLACEMENTS) == Blanked(fields, false)
  {
    EnvelopeNamesDiffer();
    hide Ascii;
    assert Zeros(64) == seq(64, _ => 0) && Zeros(32) == seq(32, _ => 0);
  }

  /**
   Both verifiers hash and verify the encodings with the blank fields: Go always, Rust on every map that holds each
   name once and passes the field checks.
   */
  lemma PreimagesBlanked(fields: seq<Pair>)
    ensures AllFinite(Map(fields)) ==>
              && GoHashPreimage(fields) == Encode(Map(Blanked(fields, true)))
              && GoSigningPreimage(fields) == Encode(Map(Blanked(fields, false)))
    ensures DistinctKeys(fields) && AllHold(fields) ==>
              && HashPreimage(fields) == Encode(Map(Blanked(fields, true)))
              && SigningPreimage(fields) == Encode(Map(Blanked(fields, false)))
  {
    hide Ascii, Encode, AllFinite, Replace, Blanked, HoldsItsKind, TakeBytes, TakeKid, AllShaped, ZeroFields;
    ReplacedIsBlanked(fields);
    if AllFinite(Map(fields)) { GoPreimages(fields); }
    KindsTaken(fields);
    if DistinctKeys(fields) && AllHold(fields) {
      TakenIsShaped(fields);
      ReplacingIsZeroing(fields);
    }
  }

  /** A minted receipt carries the hash of its blanked octets and a signature over those with a blank signature. */
  lemma MintedOver(c: Crypto, body: Body, kid: Str, sign: Bytes -> Signature)
    ensures var r := Mint(c, body, kid, sign);
            && r.body == body && r.kid == kid
            && r.hash == c.hash(Encode(Map(Blanked(Fields(r, false), true))))
            && r.signature == sign(Encode(Map(Blanked(Fields(r, false), false))))
  {
    var r := Mint(c, body, kid, sign);
    hide Encode, BodyFields, Ascii, Fields, Blanked;
    TypedZeroingForHash(r);
    TypedZeroingForSignature(r);
    EnvelopeHolds(r);
    FieldsPlain(r);
    PreimagesBlanked(Fields(r, false));
    SameZeroForm(c, body, kid, sign);
  }

  lemma EnvelopeHolds(r: Receipt)
    ensures AllHold(Fields(r, false))
  {
    LookupEnvelope(r);
    KindsTaken(Fields(r, false));
    hide Fields, Lookup, Ascii, HoldsItsKind;
  }

  /** Hashing looks at neither the hash nor the signature a receipt carries. */
  lemma SameZeroForm(c: Crypto, body: Body, kid: Str, sign: Bytes -> Signature)
    ensures var r := Mint(c, body, kid, sign);
            && r.hash == c.hash(Encode(Map(Fields(r, true))))
            && r.signature == sign(Encode(Map(Fields(r.(signature := Zeros(SIGNATURE_LEN)), false))))
  {
    hide BodyFields, Encode, Ascii;
  }
}
