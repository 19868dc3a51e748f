/** The Python reimplementation's receipt shapes and its verifier, against the typed receipts and the Rust one. */
module PythonVerify {
  import opened ByteStrings
  import opened StableSort
  import opened Cbor
  import opened CborLaws
  import opened Gates
  import opened Receipts
  import opened Verify
  import opened Chains
  import opened GoVerify
  import opened Minted

  // ---- shapes ----

  /** The six types the reimplementation knows; it has none for skill snapshots. */
  datatype ReceiptType = SnapshotType | AutoEnrichedType | EnrichedType | AcceptedType | RevokedType | RightsType

  datatype Wire = Octets(size: nat) | AnyOctets | PlainText | TextOrNull | HashOrNull | Number | Counts

  type Schema = seq<(Bytes, Wire)>

  /** The fields a type has besides the three all share, and what each may hold. */
  function BodySchema(t: ReceiptType): Schema {
    match t
    case SnapshotType =>
      [ (Ascii("event_id"), Octets(ULID_LEN)), (Ascii("snapshot_id"), Octets(ULID_LEN)),
        (Ascii("scraped_at"), Number), (Ascii("server_count"), Number),
        (Ascii("snapshot_merkle_root"), Octets(HASH_LEN)), (Ascii("previous_snapshot_hash"), HashOrNull),
        (Ascii("upstream_registry_uri"), PlainText), (Ascii("upstream_snapshot_etag"), TextOrNull),
        (Ascii("changes"), Counts) ]
    case AutoEnrichedType =>
      [ (Ascii("event_id"), Octets(ULID_LEN)), (Ascii("server_name"), PlainText),
        (Ascii("snapshot_id"), Octets(ULID_LEN)), (Ascii("auto_enrichment_bytes"), AnyOctets) ]
    case EnrichedType =>
      [ (Ascii("event_id"), Octets(ULID_LEN)), (Ascii("server_name"), PlainText),
        (Ascii("publisher_passport"), PlainText), (Ascii("declared_uri"), PlainText),
        (Ascii("declared_hash"), Octets(HASH_LEN)), (Ascii("enrichment_bytes"), AnyOctets),
        (Ascii("supersedes_prior"), HashOrNull) ]
    case AcceptedType =>
      [ (Ascii("event_id"), Octets(ULID_LEN)), (Ascii("attestation_id"), Octets(ULID_LEN)),
        (Ascii("server_name"), PlainText), (Ascii("issuer_passport"), PlainText), (Ascii("type"), PlainText),
        (Ascii("attestation_hash"), Octets(HASH_LEN)), (Ascii("attestation_bytes"), AnyOctets) ]
    case RevokedType =>
      [ (Ascii("event_id"), Octets(ULID_LEN)), (Ascii("attestation_id"), Octets(ULID_LEN)),
        (Ascii("revoker_passport"), PlainText), (Ascii("reason"), TextOrNull), (Ascii("revoked_at"), Number),
        (Ascii("revocation_signature"), Octets(SIGNATURE_LEN)) ]
    case RightsType =>
      [ (Ascii("event_id"), Octets(ULID_LEN)), (Ascii("publisher_passport"), PlainText),
        (Ascii("namespace"), PlainText), (Ascii("verification_method"), PlainText),
        (Ascii("verified_at"), Number) ]
  }

  const ENVELOPE_SCHEMA: Schema :=
    [(RECEIPT_HASH, Octets(HASH_LEN)), (RECEIPT_SIGNATURE, Octets(SIGNATURE_LEN)), (SIGNER_KID, PlainText)]

  function SchemaOf(t: ReceiptType): Schema { BodySchema(t) + ENVELOPE_SCHEMA }

  function KeySet<V(==)>(rows: seq<(Bytes, V)>): set<Bytes> { set p | p in rows :: p.0 }

  const ADDED := Ascii("added")
  const REMOVED := Ascii("removed")
  const MODIFIED := Ascii("modified")

  predicate IsCounts(pairs: seq<Pair>) {
    DistinctKeys(pairs) && KeySet(pairs) == {ADDED, REMOVED, MODIFIED} && forall i :: 0 <= i < |pairs| ==>
      pairs[i].1.Uint?
  }

  predicate Conforms(w: Wire, v: CborValue) {
    match w
    case Octets(size) => v.ByteString? && |v.bytes| == size
    case AnyOctets => v.ByteString?
    case PlainText => v.Text?
    case TextOrNull => v.Text? || v.Null?
    case HashOrNull => v.Null? || (v.ByteString? && |v.bytes| == HASH_LEN)
    case Number => v.Uint?
    case Counts => v.Map? && IsCounts(v.pairs)
  }

  /** `get_unique`: an error unless the key occurs exactly once. */
  function Unique(fields: seq<Pair>, name: Bytes): (r: Option<CborValue>)
    ensures r.Some? ==> r == Lookup(fields, name)
  {
    if fields == [] then None
    else if fields[0].0 != name then Unique(fields[1..], name)
    else
      var again: Option<CborValue> := Lookup(fields[1..], name);
      if again.None? then Some(fields[0].1) else None
  }

  predicate FieldConforms(fields: seq<Pair>, name: Bytes, w: Wire) {
    Unique(fields, name).Some? && Conforms(w, Unique(fields, name).value)
  }

  predicate AllConform(fields: seq<Pair>, schema: Schema) {
    forall i :: 0 <= i < |schema| ==> FieldConforms(fields, schema[i].0, schema[i].1)
  }

  predicate HasFields(fields: seq<Pair>, t: ReceiptType) { KeySet(fields) == KeySet(SchemaOf(t)) }

  /** `identify_receipt_type`; `None` is the error. */
  function Identify(fields: seq<Pair>): Option<ReceiptType> {
    if !DistinctKeys(fields) then None
    else if HasFields(fields, SnapshotType) then Some(SnapshotType)
    else if HasFields(fields, AutoEnrichedType) then Some(AutoEnrichedType)
    else if HasFields(fields, EnrichedType) then Some(EnrichedType)
    else if HasFields(fields, AcceptedType) then Some(AcceptedType)
    else if HasFields(fields, RevokedType) then Some(RevokedType)
    else if HasFields(fields, RightsType) then Some(RightsType)
    else None
  }

  /** `validate_receipt`; `None` is the error. */
  function Validate(fields: seq<Pair>): Option<ReceiptType> {
    var t := Identify(fields);
    if t.Some? && AllConform(fields, SchemaOf(t.value)) then t else None
  }

  // ---- the field sets tell the types apart ----

  /** A field only receipts of this type have. */
  function Marker(t: ReceiptType): Bytes {
    match t
    case SnapshotType => Ascii("changes")
    case AutoEnrichedType => Ascii("auto_enrichment_bytes")
    case EnrichedType => Ascii("declared_hash")
    case AcceptedType => Ascii("issuer_passport")
    case RevokedType => Ascii("reason")
    case RightsType => Ascii("namespace")
  }

  function MarkerAt(t: ReceiptType): (i: nat)
    ensures i < |BodySchema(t)|
  {
    match t
    case SnapshotType => 8
    case AutoEnrichedType => 3
    case EnrichedType => 4
    case AcceptedType => 3
    case RevokedType => 3
    case RightsType => 2
  }

  lemma MarkerOut(t: ReceiptType, u: ReceiptType)
    requires t != u
    ensures Marker(t) !in KeySet(SchemaOf(u))
  {
    UpstreamUriIsNoBytes();
    hide Ascii;
    var schema := SchemaOf(u);
    assert forall i :: 0 <= i < |schema| ==> schema[i].0 != Marker(t);
  }

  lemma MarkerIn(t: ReceiptType)
    ensures Marker(t) in KeySet(SchemaOf(t))
  {
    hide Ascii;
    var schema := SchemaOf(t);
    assert schema[MarkerAt(t)].0 == Marker(t);
    assert schema[MarkerAt(t)] in schema;
  }

  /** The only marker that has the length of another type's field. */
  lemma UpstreamUriIsNoBytes()
    ensures Ascii("auto_enrichment_bytes") != Ascii("upstream_registry_uri")
  {
    assert Ascii("auto_enrichment_bytes")[0] != Ascii("upstream_registry_uri")[0];
  }

  lemma OneType(fields: seq<Pair>, t: ReceiptType, u: ReceiptType)
    requires HasFields(fields, t) && HasFields(fields, u)
    ensures t == u
  {
    hide SchemaOf, Marker;
    MarkerIn(t);
    if t != u {
      MarkerOut(t, u);
    }
  }

  /** At most one type has a given field set, so the order in which they are tried is immaterial. */
  lemma IdentifiedIff(fields: seq<Pair>, t: ReceiptType)
    ensures Identify(fields) == Some(t) <==> DistinctKeys(fields) && HasFields(fields, t)
  {
    hide HasFields, DistinctKeys;
    var found := Identify(fields);
    if HasFields(fields, t) && found.Some? {
      OneType(fields, t, found.value);
    }
  }

  // ---- typed receipts have the shapes ----

  function TypeOf(b: Body): Option<ReceiptType> {
    match b
    case RegistrySnapshot(_, _, _, _, _, _, _, _, _, _, _) => Some(SnapshotType)
    case EntryAutoEnriched(_, _, _, _) => Some(AutoEnrichedType)
    case EntryEnriched(_, _, _, _, _, _, _) => Some(EnrichedType)
    case AttestationAccepted(_, _, _, _, _, _, _) => Some(AcceptedType)
    case AttestationRevoked(_, _, _, _, _, _) => Some(RevokedType)
    case PublisherRightsVerified(_, _, _, _, _) => Some(RightsType)
    case SkillSnapshot(_, _, _, _, _, _, _) => None
  }

  lemma UniqueIfDistinct(fields: seq<Pair>, name: Bytes)
    requires DistinctKeys(fields)
    ensures Unique(fields, name) == Lookup(fields, name)
  {
    if fields != [] {
      assert forall i :: 0 < i < |fields| ==> fields[i] == fields[1..][i - 1];
      UniqueIfDistinct(fields[1..], name);
    }
  }

  lemma {:induction false} LookupDistinct(fields: seq<Pair>, i: nat)
    requires DistinctKeys(fields) && i < |fields|
    ensures Lookup(fields, fields[i].0) == Some(fields[i].1)
  {
    LookupFirst(fields, fields[i].0, i);
  }

  /** A list of fields under the names of a schema, each holding what the schema allows once normalised. */
  ghost predicate Shapes(fields: seq<Pair>, schema: Schema) {
    && |fields| == |schema|
    && forall i :: 0 <= i < |schema| ==> fields[i].0 == schema[i].0 && Conforms(schema[i].1, Normalise(fields[i].1))
  }

  lemma CountsKeys(b: Body)
    requires b.RegistrySnapshot?
    ensures var counts := ChangesField(b).1.pairs;
            && KeySet(counts) == {ADDED, REMOVED, MODIFIED} && NormalPairs(counts) == counts
            && forall p :: p in counts ==> p.1.Uint?
  {
    hide EncodableField, Ascii;
    var counts := ChangesField(b).1.pairs;
    assert NormalPairs(counts) == counts;
    assert counts[0] in counts && counts[1] in counts && counts[2] in counts;
  }

  lemma SortDistinct(rows: seq<Pair>)
    requires DistinctKeys(rows)
    ensures SameMembers(Sort(KeyLess, rows), rows) && DistinctKeys(Sort(KeyLess, rows))
  {
    KeyLessIsStrictOrder();
    hide *;
    SortMembers(KeyLess, rows);
    SortIsSorted(KeyLess, rows);
    AscendingDistinct(Sort(KeyLess, rows));
  }

  lemma SameCounts(counts: seq<Pair>, sorted: seq<Pair>)
    requires SameMembers(sorted, counts) && DistinctKeys(sorted)
    requires KeySet(counts) == {ADDED, REMOVED, MODIFIED} && forall p :: p in counts ==> p.1.Uint?
    ensures IsCounts(sorted)
  {
    hide Ascii, DistinctKeys;
    SameKeySet(sorted, counts);
    assert forall i :: 0 <= i < |sorted| ==> sorted[i] in sorted;
    hide KeySet;
  }

  lemma CountsShape(b: Body)
    requires b.RegistrySnapshot?
    ensures Conforms(Counts, Normalise(ChangesField(b).1))
  {
    CountsDistinct(b);
    CountsKeys(b);
    var counts := ChangesField(b).1.pairs;
    assert ChangesField(b).1 == Map(counts);
    hide *;
    NormaliseMap(counts);
    SortDistinct(counts);
    SameCounts(counts, Sort(KeyLess, counts));
    CountsConform(Sort(KeyLess, counts));
  }

  lemma CountsConform(pairs: seq<Pair>)
    requires IsCounts(pairs)
    ensures Conforms(Counts, Map(pairs))
  {
    hide IsCounts;
  }

  lemma CountsDistinct(b: Body)
    requires b.RegistrySnapshot?
    ensures DistinctKeys(ChangesField(b).1.pairs)
  {
    ChangesPlain(b);
    hide EncodableField, Ascii;
  }

  lemma SameKeySet(a: seq<Pair>, b: seq<Pair>)
    requires SameMembers(a, b)
    ensures KeySet(a) == KeySet(b)
  {
  }

  lemma SnapshotShapes(b: Body)
    requires b.RegistrySnapshot?
    ensures Shapes(BodyFields(b), BodySchema(SnapshotType))
  {
    hide EncodableField, WellFormedText, Encodable, Ascii, IsCounts, ChangesField, Sort, KeyLess;
    CountsShape(b);
  }

  lemma AutoEnrichedShapes(b: Body)
    requires b.EntryAutoEnriched?
    ensures Shapes(BodyFields(b), BodySchema(AutoEnrichedType))
  {
    hide EncodableField, WellFormedText, Encodable, Ascii, IsCounts, ChangesField, Sort, KeyLess;
  }

  lemma EnrichedShapes(b: Body)
    requires b.EntryEnriched?
    ensures Shapes(BodyFields(b), BodySchema(EnrichedType))
  {
    hide EncodableField, WellFormedText, Encodable, Ascii, IsCounts, ChangesField, Sort, KeyLess;
  }

  lemma AcceptedShapes(b: Body)
    requires b.AttestationAccepted?
    ensures Shapes(BodyFields(b), BodySchema(AcceptedType))
  {
    hide EncodableField, WellFormedText, Encodable, Ascii, IsCounts, ChangesField, Sort, KeyLess;
  }

  lemma RevokedShapes(b: Body)
    requires b.AttestationRevoked?
    ensures Shapes(BodyFields(b), BodySchema(RevokedType))
  {
    hide EncodableField, WellFormedText, Encodable, Ascii, IsCounts, ChangesField, Sort, KeyLess;
  }

  lemma RightsShapes(b: Body)
    requires b.PublisherRightsVerified?
    ensures Shapes(BodyFields(b), BodySchema(RightsType))
  {
    hide EncodableField, WellFormedText, Encodable, Ascii, IsCounts, ChangesField, Sort, KeyLess;
  }

  lemma BodyShapes(b: Body)
    requires TypeOf(b).Some?
    ensures Shapes(BodyFields(b), BodySchema(TypeOf(b).value))
  {
    hide Shapes, BodyFields, BodySchema;
    match b
    case RegistrySnapshot(_, _, _, _, _, _, _, _, _, _, _) => SnapshotShapes(b);
    case EntryAutoEnriched(_, _, _, _) => AutoEnrichedShapes(b);
    case EntryEnriched(_, _, _, _, _, _, _) => EnrichedShapes(b);
    case AttestationAccepted(_, _, _, _, _, _, _) => AcceptedShapes(b);
    case AttestationRevoked(_, _, _, _, _, _) => RevokedShapes(b);
    case PublisherRightsVerified(_, _, _, _, _) => RightsShapes(b);
  }

  lemma EnvelopeShapes(r: Receipt)
    ensures Shapes(EnvelopeFields(r, false), ENVELOPE_SCHEMA)
  {
    hide EncodableField, WellFormedText, Encodable, Ascii, IsCounts;
  }

  lemma ShapesJoin(a: seq<Pair>, x: Schema, b: seq<Pair>, y: Schema)
    requires Shapes(a, x) && Shapes(b, y)
    ensures Shapes(a + b, x + y)
  {
    hide Conforms, Normalise;
  }

  lemma ReceiptShapes(r: Receipt)
    requires TypeOf(r.body).Some?
    ensures Shapes(Fields(r, false), SchemaOf(TypeOf(r.body).value))
  {
    hide BodyFields, BodySchema, EnvelopeFields, Shapes, TypeOf;
    BodyShapes(r.body);
    EnvelopeShapes(r);
    ShapesJoin(BodyFields(r.body), BodySchema(TypeOf(r.body).value), EnvelopeFields(r, false), ENVELOPE_SCHEMA);
  }

  /** Fields of the right shapes, sorted and normalised, are validated under their type. */
  lemma ShapesValidate(fields: seq<Pair>, t: ReceiptType)
    requires DistinctKeys(fields) && Shapes(fields, SchemaOf(t))
    ensures Validate(Sort(KeyLess, NormalPairs(fields))) == Some(t)
  {
    hide SchemaOf, Conforms, Normalise, KeyLess, Sort;
    var decoded := Sort(KeyLess, NormalPairs(fields));
    KeyLessIsStrictOrder();
    SortIsSorted(KeyLess, NormalPairs(fields));
    SortMembers(KeyLess, NormalPairs(fields));
    SameKeySet(decoded, NormalPairs(fields));
    assert KeySet(NormalPairs(fields)) == KeySet(SchemaOf(t)) by {
      ShapesKeys(fields, SchemaOf(t));
    }
    IdentifiedIff(decoded, t);
    forall i | 0 <= i < |SchemaOf(t)| ensures FieldConforms(decoded, SchemaOf(t)[i].0, SchemaOf(t)[i].1) {
      LookupDistinct(fields, i);
      LookupDecoded(fields, fields[i].0);
      UniqueIfDistinct(decoded, fields[i].0);
    }
    hide Identify, KeySet;
  }

  lemma ShapesKeys(fields: seq<Pair>, schema: Schema)
    requires Shapes(fields, schema)
    ensures KeySet(NormalPairs(fields)) == KeySet(schema)
  {
    hide Conforms, Normalise;
    var normal := NormalPairs(fields);
    forall name ensures name in KeySet(normal) <==> name in KeySet(schema) {
      if name in KeySet(normal) {
        var p :| p in normal && p.0 == name;
        var i :| 0 <= i < |normal| && normal[i] == p;
        assert schema[i] in schema;
      }
      if name in KeySet(schema) {
        var p :| p in schema && p.0 == name;
        var i :| 0 <= i < |schema| && schema[i] == p;
        assert normal[i] in normal;
      }
    }
  }

  /** Every receipt of the six types is validated as its own type; skill snapshots are not validated. */
  lemma TypedValidates(r: Receipt)
    ensures Validate(FieldsOf(ToCanonicalCbor(r))) == TypeOf(r.body)
  {
    hide Fields, FieldsOf, ToCanonicalCbor, TypeOf, Validate, SchemaOf, Shapes, DistinctKeys, Sort, Normalise;
    DecodedFields(r);
    if TypeOf(r.body).Some? {
      FieldsPlain(r);
      ReceiptShapes(r);
      ShapesValidate(Fields(r, false), TypeOf(r.body).value);
    } else {
      SkillUnknown(r);
    }
  }

  lemma SkillUnknown(r: Receipt)
    requires TypeOf(r.body).None?
    ensures Validate(Sort(KeyLess, NormalPairs(Fields(r, false)))) == None
  {
    var fields, decoded := Fields(r, false), Sort(KeyLess, NormalPairs(Fields(r, false)));
    KeyLessIsStrictOrder();
    SortMembers(KeyLess, NormalPairs(fields));
    NoMarkers(r);
    hide Fields, Sort, KeyLess, Normalise, SchemaOf, Marker, AllConform, DistinctKeys;
    SameKeySet(decoded, NormalPairs(fields));
    forall t: ReceiptType ensures !HasFields(decoded, t) {
      MarkerIn(t);
    }
  }

  lemma NoMarkers(r: Receipt)
    requires TypeOf(r.body).None?
    ensures forall t: ReceiptType :: Marker(t) !in KeySet(NormalPairs(Fields(r, false)))
  {
    hide Ascii, EncodableField, WellFormedText, Encodable;
    var normal := NormalPairs(Fields(r, false));
    assert forall i, t: ReceiptType :: 0 <= i < |normal| ==> normal[i].0 != Marker(t);
  }

  // ---- what has the shapes is a typed receipt ----

  function OctetsAt(fields: seq<Pair>, name: Bytes, size: nat): (b: Bytes)
    ensures |b| == size
  {
    var found: Option<CborValue> := Lookup(fields, name);
    match found
    case Some(ByteString(b)) => if |b| == size then b else Zeros(size)
    case _ => Zeros(size)
  }

  function BlobAt(fields: seq<Pair>, name: Bytes): Blob {
    var found: Option<CborValue> := Lookup(fields, name);
    match found
    case Some(ByteString(b)) => if |b| < U64 then b else []
    case _ => []
  }

  function TextAt(fields: seq<Pair>, name: Bytes): Str {
    var found: Option<CborValue> := Lookup(fields, name);
    match found
    case Some(Text(t)) => if WellFormedText(t) then t else []
    case _ => []
  }

  function OptionalTextAt(fields: seq<Pair>, name: Bytes): Option<Str> {
    if Lookup(fields, name) == Some(Null) then None else Some(TextAt(fields, name))
  }

  function OptionalHashAt(fields: seq<Pair>, name: Bytes): Option<Digest> {
    if Lookup(fields, name) == Some(Null) then None else Some(OctetsAt(fields, name, HASH_LEN))
  }

  function NumberAt(fields: seq<Pair>, name: Bytes): u64 {
    var found: Option<CborValue> := Lookup(fields, name);
    match found
    case Some(Uint(n)) => n
    case _ => 0
  }

  function CountsAt(fields: seq<Pair>, name: Bytes): seq<Pair> {
    var found: Option<CborValue> := Lookup(fields, name);
    match found
    case Some(Map(pairs)) => pairs
    case _ => []
  }

  /** The body a validated map spells. */
  function BodyAt(f: seq<Pair>, t: ReceiptType): Body {
    match t
    case SnapshotType =>
      var counts := CountsAt(f, Ascii("changes"));
      RegistrySnapshot(OctetsAt(f, Ascii("event_id"), ULID_LEN), OctetsAt(f, Ascii("snapshot_id"), ULID_LEN),
                       NumberAt(f, Ascii("scraped_at")), NumberAt(f, Ascii("server_count")),
                       OctetsAt(f, Ascii("snapshot_merkle_root"), HASH_LEN),
                       OptionalHashAt(f, Ascii("previous_snapshot_hash")), TextAt(f, Ascii("upstream_registry_uri")),
                       OptionalTextAt(f, Ascii("upstream_snapshot_etag")),
                       NumberAt(counts, ADDED), NumberAt(counts, REMOVED), NumberAt(counts, MODIFIED))
    case AutoEnrichedType =>
      EntryAutoEnriched(OctetsAt(f, Ascii("event_id"), ULID_LEN), TextAt(f, Ascii("server_name")),
                        OctetsAt(f, Ascii("snapshot_id"), ULID_LEN), BlobAt(f, Ascii("auto_enrichment_bytes")))
    case EnrichedType =>
      EntryEnriched(OctetsAt(f, Ascii("event_id"), ULID_LEN), TextAt(f, Ascii("server_name")),
                    TextAt(f, Ascii("publisher_passport")), TextAt(f, Ascii("declared_uri")),
                    OctetsAt(f, Ascii("declared_hash"), HASH_LEN), BlobAt(f, Ascii("enrichment_bytes")),
                    OptionalHashAt(f, Ascii("supersedes_prior")))
    case AcceptedType =>
      AttestationAccepted(OctetsAt(f, Ascii("event_id"), ULID_LEN), OctetsAt(f, Ascii("attestation_id"), ULID_LEN),
                          TextAt(f, Ascii("server_name")), TextAt(f, Ascii("issuer_passport")),
                          TextAt(f, Ascii("type")),
                          OctetsAt(f, Ascii("attestation_hash"), HASH_LEN), BlobAt(f, Ascii("attestation_bytes")))
    case RevokedType =>
      AttestationRevoked(OctetsAt(f, Ascii("event_id"), ULID_LEN), OctetsAt(f, Ascii("attestation_id"), ULID_LEN),
                         TextAt(f, Ascii("revoker_passport")), OptionalTextAt(f, Ascii("reason")),
                         NumberAt(f, Ascii("revoked_at")), OctetsAt(f, Ascii("revocation_signature"), SIGNATURE_LEN))
    case RightsType =>
      PublisherRightsVerified(OctetsAt(f, Ascii("event_id"), ULID_LEN), TextAt(f, Ascii("publisher_passport")),
                              TextAt(f, Ascii("namespace")), TextAt(f, Ascii("verification_method")),
                              NumberAt(f, Ascii("verified_at")))
  }

  function ReceiptAt(f: seq<Pair>, t: ReceiptType): Receipt {
    Receipt(BodyAt(f, t), OctetsAt(f, RECEIPT_HASH, HASH_LEN), OctetsAt(f, RECEIPT_SIGNATURE, SIGNATURE_LEN),
            TextAt(f, SIGNER_KID))
  }

  /** The typed fields `typed` are those of the decoded map, name by name. */
  ghost predicate Spelled(typed: seq<Pair>, fields: seq<Pair>) {
    forall i :: 0 <= i < |typed| ==> Lookup(fields, typed[i].0) == Some(Normalise(typed[i].1))
  }

  /** A field of the decoded map under a schema: found, writable, in normal form, and of the right shape. */
  ghost predicate Sound(fields: seq<Pair>, name: Bytes, w: Wire) {
    && var v := Lookup(fields, name);
       v.Some? && Conforms(w, v.value) && Encodable(v.value) && Normalise(v.value) == v.value
  }

  ghost predicate AllSound(fields: seq<Pair>, schema: Schema) {
    forall i :: 0 <= i < |schema| ==> Sound(fields, schema[i].0, schema[i].1)
  }

  /** A sound field is what its getter reads, written back. */
  ghost predicate Found(f: seq<Pair>, name: Bytes, w: Wire) {
    match w
    case Octets(size) => Lookup(f, name) == Some(ByteString(OctetsAt(f, name, size)))
    case AnyOctets => Lookup(f, name) == Some(ByteString(BlobAt(f, name)))
    case PlainText => Lookup(f, name) == Some(Text(TextAt(f, name)))
    case TextOrNull =>
      var t := OptionalTextAt(f, name); Lookup(f, name) == Some(if t.None? then Null else Text(t.value))
    case HashOrNull =>
      var h := OptionalHashAt(f, name); Lookup(f, name) == Some(if h.None? then Null else ByteString(h.value))
    case Number => Lookup(f, name) == Some(Uint(NumberAt(f, name)))
    case Counts => true
  }

  ghost predicate AllFound(f: seq<Pair>, schema: Schema) {
    forall i :: 0 <= i < |schema| ==> Found(f, schema[i].0, schema[i].1)
  }

  lemma SoundFound(f: seq<Pair>, name: Bytes, w: Wire)
    requires Sound(f, name, w)
    ensures Found(f, name, w)
  {
    hide WellFormedText, IsCounts, Lookup, Normalise;
    var v := Lookup(f, name).value;
    assert v.ByteString? ==> |v.bytes| < U64;
    assert v.Text? ==> WellFormedText(v.text);
  }

  lemma AllSoundFound(f: seq<Pair>, schema: Schema)
    requires AllSound(f, schema)
    ensures AllFound(f, schema)
  {
    hide Sound, Found;
    forall i | 0 <= i < |schema| ensures Found(f, schema[i].0, schema[i].1) {
      assert Sound(f, schema[i].0, schema[i].1);
      SoundFound(f, schema[i].0, schema[i].1);
    }
  }

  lemma EnvelopeSpelled(f: seq<Pair>, t: ReceiptType)
    requires AllSound(f, ENVELOPE_SCHEMA)
    ensures Spelled(EnvelopeFields(ReceiptAt(f, t), false), f)
  {
    hide Ascii, WellFormedText, EncodableField, Lookup, ChangesField, OctetsAt, BlobAt, TextAt, OptionalTextAt,
         OptionalHashAt, NumberAt, CountsAt, Encodable, Sort, KeyLess, Sound, AllSound;
    AllSoundFound(f, ENVELOPE_SCHEMA);
    assert Found(f, ENVELOPE_SCHEMA[0].0, ENVELOPE_SCHEMA[0].1) && Found(f, ENVELOPE_SCHEMA[1].0, ENVELOPE_SCHEMA[1].1);
    assert Found(f, ENVELOPE_SCHEMA[2].0, ENVELOPE_SCHEMA[2].1);
  }

  /** Rows under the same keys with the same values, one list sorted: sorting the other gives it. */
  lemma SpelledSorts(typed: seq<Pair>, fields: seq<Pair>)
    requires DistinctKeys(typed) && DistinctKeys(fields) && KeySet(typed) == KeySet(fields)
            && Sort(KeyLess, fields) == fields
    requires forall i :: 0 <= i < |typed| ==> Lookup(fields, typed[i].0) == Some(typed[i].1)
    ensures Sort(KeyLess, typed) == fields
  {
    hide KeyLess, Sort, Lookup, StrictOrder;
    KeyLessIsStrictOrder();
    forall p ensures p in typed <==> p in fields {
      if p in fields {
        var j :| 0 <= j < |fields| && fields[j] == p;
        LookupDistinct(fields, j);
        assert p.0 in KeySet(typed);
        var r :| r in typed && r.0 == p.0;
        var i :| 0 <= i < |typed| && typed[i] == r;
      }
    }
    SortPermutation(KeyLess, typed, fields);
  }

  function CountPairs(added: u64, removed: u64, modified: u64): seq<Pair> {
    [(ADDED, Uint(added)), (REMOVED, Uint(removed)), (MODIFIED, Uint(modified))]
  }

  lemma ChangesAreCounts(b: Body)
    requires b.RegistrySnapshot?
    ensures ChangesField(b).1 == Map(CountPairs(b.added, b.removed, b.modified))
    ensures DistinctKeys(CountPairs(b.added, b.removed, b.modified))
    ensures Normalise(ChangesField(b).1) == Map(Sort(KeyLess, CountPairs(b.added, b.removed, b.modified)))
  {
    hide EncodableField, WellFormedText, Encodable, KeyLess, Sort, Ascii;
    CountsDistinct(b);
    NormaliseMap(CountPairs(b.added, b.removed, b.modified));
    assert NormalPairs(CountPairs(b.added, b.removed, b.modified)) == CountPairs(b.added, b.removed, b.modified);
  }

  lemma CountKeys(added: u64, removed: u64, modified: u64)
    ensures KeySet(CountPairs(added, removed, modified)) == {ADDED, REMOVED, MODIFIED}
  {
    hide Ascii;
    var counts := CountPairs(added, removed, modified);
    assert counts[0] in counts && counts[1] in counts && counts[2] in counts;
  }

  lemma CountsNormal(pairs: seq<Pair>)
    requires IsCounts(pairs) && Normalise(Map(pairs)) == Map(pairs)
    ensures Sort(KeyLess, pairs) == pairs
  {
    NormaliseMap(pairs);
    assert NormalPairs(pairs) == pairs;
    hide Sort, KeyLess;
  }

  lemma CountsSpelled(v: CborValue, b: Body)
    requires Conforms(Counts, v) && Normalise(v) == v && b.RegistrySnapshot?
    requires b.added == NumberAt(v.pairs, ADDED) && b.removed == NumberAt(v.pairs, REMOVED)
    requires b.modified == NumberAt(v.pairs, MODIFIED)
    ensures Normalise(ChangesField(b).1) == v
  {
    hide Lookup, NumberAt, Ascii, KeySet, DistinctKeys, Normalise, Sort, KeyLess, ChangesField;
    ChangesAreCounts(b);
    CountKeys(b.added, b.removed, b.modified);
    CountsNormal(v.pairs);
    CountFound(v.pairs, ADDED);
    CountFound(v.pairs, REMOVED);
    CountFound(v.pairs, MODIFIED);
    SpelledSorts(CountPairs(b.added, b.removed, b.modified), v.pairs);
  }

  lemma CountFound(pairs: seq<Pair>, name: Bytes)
    requires IsCounts(pairs) && name in KeySet(pairs)
    ensures Lookup(pairs, name) == Some(Uint(NumberAt(pairs, name)))
  {
    var p :| p in pairs && p.0 == name;
    var i :| 0 <= i < |pairs| && pairs[i] == p;
    LookupDistinct(pairs, i);
  }

  ghost predicate SpelledAt(typed: seq<Pair>, fields: seq<Pair>, i: nat) {
    i < |typed| && Lookup(fields, typed[i].0) == Some(Normalise(typed[i].1))
  }

  lemma ChangesSpelled(f: seq<Pair>)
    requires Sound(f, Ascii("changes"), Counts)
    ensures SpelledAt(BodyFields(BodyAt(f, SnapshotType)), f, 8)
  {
    var b := BodyAt(f, SnapshotType);
    CountsSpelled(Lookup(f, Ascii("changes")).value, b);
    hide Ascii, WellFormedText, EncodableField, IsCounts, Lookup, ChangesField, Normalise;
  }

  lemma BeforeChangesSpelled(f: seq<Pair>)
    requires AllSound(f, BodySchema(SnapshotType))
    ensures forall i :: 0 <= i < 8 ==> SpelledAt(BodyFields(BodyAt(f, SnapshotType)), f, i)
  {
    hide Ascii, WellFormedText, EncodableField, Lookup, ChangesField, OctetsAt, BlobAt, TextAt, OptionalTextAt,
         OptionalHashAt, NumberAt, CountsAt, Encodable, Sort, KeyLess, Sound, AllSound;
    AllSoundFound(f, BodySchema(SnapshotType));
    var schema := BodySchema(SnapshotType);
    assert Found(f, schema[0].0, schema[0].1) && Found(f, schema[1].0, schema[1].1)
        && Found(f, schema[2].0, schema[2].1);
    assert Found(f, schema[3].0, schema[3].1) && Found(f, schema[4].0, schema[4].1)
        && Found(f, schema[5].0, schema[5].1);
    assert Found(f, schema[6].0, schema[6].1) && Found(f, schema[7].0, schema[7].1);
  }

  lemma SnapshotSpelled(f: seq<Pair>)
    requires AllSound(f, BodySchema(SnapshotType))
    ensures Spelled(BodyFields(BodyAt(f, SnapshotType)), f)
  {
    hide BodyFields, BodyAt, BodySchema, Lookup, Normalise, Ascii, Sound, AllSound;
    BeforeChangesSpelled(f);
    ChangesFieldSound(f);
    ChangesSpelled(f);
    NineFields(f);
    var typed := BodyFields(BodyAt(f, SnapshotType));
    forall i | 0 <= i < |typed| ensures Lookup(f, typed[i].0) == Some(Normalise(typed[i].1)) {
      assert SpelledAt(typed, f, i);
    }
  }

  lemma ChangesFieldSound(f: seq<Pair>)
    requires AllSound(f, BodySchema(SnapshotType))
    ensures Sound(f, Ascii("changes"), Counts)
  {
    hide Ascii, Sound;
    assert Sound(f, BodySchema(SnapshotType)[8].0, BodySchema(SnapshotType)[8].1);
  }

  lemma NineFields(f: seq<Pair>)
    ensures |BodyFields(BodyAt(f, SnapshotType))| == 9
  {
    hide Ascii, EncodableField;
  }

  lemma AutoEnrichedSpelled(f: seq<Pair>)
    requires AllSound(f, BodySchema(AutoEnrichedType))
    ensures Spelled(BodyFields(BodyAt(f, AutoEnrichedType)), f)
  {
    hide Ascii, WellFormedText, EncodableField, Lookup, ChangesField, OctetsAt, BlobAt, TextAt, OptionalTextAt,
         OptionalHashAt, NumberAt, CountsAt, Encodable, Sort, KeyLess, Sound, AllSound;
    AllSoundFound(f, BodySchema(AutoEnrichedType));
    var schema := BodySchema(AutoEnrichedType);
    assert Found(f, schema[0].0, schema[0].1) && Found(f, schema[1].0, schema[1].1)
        && Found(f, schema[2].0, schema[2].1) && Found(f, schema[3].0, schema[3].1);
  }

  lemma EnrichedSpelled(f: seq<Pair>)
    requires AllSound(f, BodySchema(EnrichedType))
    ensures Spelled(BodyFields(BodyAt(f, EnrichedType)), f)
  {
    hide Ascii, WellFormedText, EncodableField, Lookup, ChangesField, OctetsAt, BlobAt, TextAt, OptionalTextAt,
         OptionalHashAt, NumberAt, CountsAt, Encodable, Sort, KeyLess, Sound, AllSound;
    AllSoundFound(f, BodySchema(EnrichedType));
    var schema := BodySchema(EnrichedType);
    assert Found(f, schema[0].0, schema[0].1) && Found(f, schema[1].0, schema[1].1)
        && Found(f, schema[2].0, schema[2].1) && Found(f, schema[3].0, schema[3].1)
        && Found(f, schema[4].0, schema[4].1) && Found(f, schema[5].0, schema[5].1)
        && Found(f, schema[6].0, schema[6].1);
  }

  lemma AcceptedSpelled(f: seq<Pair>)
    requires AllSound(f, BodySchema(AcceptedType))
    ensures Spelled(BodyFields(BodyAt(f, AcceptedType)), f)
  {
    hide Ascii, WellFormedText, EncodableField, Lookup, ChangesField, OctetsAt, BlobAt, TextAt, OptionalTextAt,
         OptionalHashAt, NumberAt, CountsAt, Encodable, Sort, KeyLess, Sound, AllSound;
    AllSoundFound(f, BodySchema(AcceptedType));
    var schema := BodySchema(AcceptedType);
    assert Found(f, schema[0].0, schema[0].1) && Found(f, schema[1].0, schema[1].1)
        && Found(f, schema[2].0, schema[2].1) && Found(f, schema[3].0, schema[3].1)
        && Found(f, schema[4].0, schema[4].1) && Found(f, schema[5].0, schema[5].1)
        && Found(f, schema[6].0, schema[6].1);
  }

  lemma RevokedSpelled(f: seq<Pair>)
    requires AllSound(f, BodySchema(RevokedType))
    ensures Spelled(BodyFields(BodyAt(f, RevokedType)), f)
  {
    hide Ascii, WellFormedText, EncodableField, Lookup, ChangesField, OctetsAt, BlobAt, TextAt, OptionalTextAt,
         OptionalHashAt, NumberAt, CountsAt, Encodable, Sort, KeyLess, Sound, AllSound;
    AllSoundFound(f, BodySchema(RevokedType));
    var schema := BodySchema(RevokedType);
    assert Found(f, schema[0].0, schema[0].1) && Found(f, schema[1].0, schema[1].1)
        && Found(f, schema[2].0, schema[2].1) && Found(f, schema[3].0, schema[3].1)
        && Found(f, schema[4].0, schema[4].1) && Found(f, schema[5].0, schema[5].1);
  }

  lemma RightsSpelled(f: seq<Pair>)
    requires AllSound(f, BodySchema(RightsType))
    ensures Spelled(BodyFields(BodyAt(f, RightsType)), f)
  {
    hide Ascii, WellFormedText, EncodableField, Lookup, ChangesField, OctetsAt, BlobAt, TextAt, OptionalTextAt,
         OptionalHashAt, NumberAt, CountsAt, Encodable, Sort, KeyLess, Sound, AllSound;
    AllSoundFound(f, BodySchema(RightsType));
    var schema := BodySchema(RightsType);
    assert Found(f, schema[0].0, schema[0].1) && Found(f, schema[1].0, schema[1].1)
        && Found(f, schema[2].0, schema[2].1) && Found(f, schema[3].0, schema[3].1)
        && Found(f, schema[4].0, schema[4].1);
  }

  lemma BodySpelled(f: seq<Pair>, t: ReceiptType)
    requires AllSound(f, BodySchema(t))
    ensures Spelled(BodyFields(BodyAt(f, t)), f)
  {
    hide AllSound, Spelled, BodyAt, BodyFields;
    match t
    case SnapshotType => SnapshotSpelled(f);
    case AutoEnrichedType => AutoEnrichedSpelled(f);
    case EnrichedType => EnrichedSpelled(f);
    case AcceptedType => AcceptedSpelled(f);
    case RevokedType => RevokedSpelled(f);
    case RightsType => RightsSpelled(f);
  }

  lemma SoundJoin(f: seq<Pair>, a: Schema, b: Schema)
    requires AllSound(f, a + b)
    ensures AllSound(f, a) && AllSound(f, b)
  {
    hide Sound;
    assert forall i :: 0 <= i < |a| ==> (a + b)[i] == a[i];
    assert forall i :: 0 <= i < |b| ==> (a + b)[|a| + i] == b[i];
  }

  lemma SpelledJoin(a: seq<Pair>, b: seq<Pair>, f: seq<Pair>)
    requires Spelled(a, f) && Spelled(b, f)
    ensures Spelled(a + b, f)
  {
    hide Lookup, Normalise;
  }

  lemma ReceiptSpelled(f: seq<Pair>, t: ReceiptType)
    requires AllSound(f, SchemaOf(t))
    ensures Spelled(Fields(ReceiptAt(f, t), false), f)
  {
    hide AllSound, Spelled, BodyAt, BodyFields, BodySchema, EnvelopeFields;
    SoundJoin(f, BodySchema(t), ENVELOPE_SCHEMA);
    BodySpelled(f, t);
    EnvelopeSpelled(f, t);
    SpelledJoin(BodyFields(BodyAt(f, t)), EnvelopeFields(ReceiptAt(f, t), false), f);
  }

  lemma TypeAt(f: seq<Pair>, t: ReceiptType)
    ensures TypeOf(ReceiptAt(f, t).body) == Some(t)
  {
    hide Ascii, Lookup;
  }

  /** What passes the gate and the validation is sound under its schema. */
  lemma ValidatedSound(fields: seq<Pair>, t: ReceiptType)
    requires Encodable(Map(fields)) && Normalise(Map(fields)) == Map(fields) && Validate(fields) == Some(t)
    ensures AllSound(fields, SchemaOf(t)) && DistinctKeys(fields) && HasFields(fields, t)
    ensures Sort(KeyLess, fields) == fields
  {
    hide Encodable, Normalise, KeyLess, Sort, Conforms, Lookup, HasFields;
    IdentifiedIff(fields, t);
    EncodablePairs(fields);
    NormalFields(fields);
    forall i | 0 <= i < |SchemaOf(t)| ensures Sound(fields, SchemaOf(t)[i].0, SchemaOf(t)[i].1) {
      var name := SchemaOf(t)[i].0;
      assert FieldConforms(fields, name, SchemaOf(t)[i].1);
      var k := FirstIndex(fields, name);
      LookupFirst(fields, name, k);
    }
    hide SchemaOf, Identify, AllConform;
  }

  lemma NormalFields(fields: seq<Pair>)
    requires Normalise(Map(fields)) == Map(fields) && DistinctKeys(fields)
    ensures forall i :: 0 <= i < |fields| ==> Normalise(fields[i].1) == fields[i].1
    ensures Sort(KeyLess, fields) == fields
  {
    NormaliseMap(fields);
    var normal := NormalPairs(fields);
    hide KeyLess, Normalise, StrictOrder, NormalPairs, Sort;
    KeyLessIsStrictOrder();
    SortIsSorted(KeyLess, normal);
    assert Sort(KeyLess, normal) == fields;
    assert forall p, q :: 0 <= p < q < |fields| ==> !KeyLess(fields[q].0, fields[p].0);
    SortSorted(KeyLess, fields);
    assert forall p, q :: 0 <= p < q < |fields| ==> !KeyLess(normal[q].0, normal[p].0) by {
      assert forall p :: 0 <= p < |fields| ==> normal[p].0 == fields[p].0;
    }
    SortSorted(KeyLess, normal);
  }

  /**
   The shape validation of the reimplementation describes the typed receipts exactly: octets that pass the
   gate are validated under a type if and only if some receipt of that type has them.
   */
  lemma ValidatedIffTyped(bs: Bytes, fields: seq<Pair>, t: ReceiptType)
    requires RustGate(bs) == Accepted(Map(fields))
    ensures Validate(fields) == Some(t) <==>
            (exists r: Receipt :: TypeOf(r.body) == Some(t) && ToCanonicalCbor(r) == bs)
  {
    hide RustGate, Validate, ToCanonicalCbor, TypeOf, ReceiptAt, FieldsOf;
    if Validate(fields) == Some(t) {
      ValidatedIsTyped(bs, fields, t);
      assert TypeOf(ReceiptAt(fields, t).body) == Some(t);
    }
    forall r: Receipt | ToCanonicalCbor(r) == bs ensures TypeOf(r.body) == Validate(fields) {
      TypedValidates(r);
      GateIsFields(bs, fields);
    }
  }

  lemma GateIsFields(bs: Bytes, fields: seq<Pair>)
    requires RustGate(bs) == Accepted(Map(fields))
    ensures FieldsOf(bs) == fields
  {
    hide RustGate;
  }

  /** The receipt a validated map spells has its octets. */
  lemma ValidatedIsTyped(bs: Bytes, fields: seq<Pair>, t: ReceiptType)
    requires RustGate(bs) == Accepted(Map(fields)) && Validate(fields) == Some(t)
    ensures TypeOf(ReceiptAt(fields, t).body) == Some(t) && ToCanonicalCbor(ReceiptAt(fields, t)) == bs
  {
    RustGateAcceptsEncodings(bs, Map(fields));
    hide RustGate, Encode, Normalise, Encodable, Validate, Sort, KeyLess, Fields, ReceiptAt, TypeOf;
    ValidatedSound(fields, t);
    TypeAt(fields, t);
    SpelledOctets(fields, t);
  }

  lemma SpelledOctets(fields: seq<Pair>, t: ReceiptType)
    requires AllSound(fields, SchemaOf(t)) && DistinctKeys(fields) && HasFields(fields, t)
            && Sort(KeyLess, fields) == fields
    ensures ToCanonicalCbor(ReceiptAt(fields, t)) == Encode(Map(fields))
  {
    hide Encode, Normalise, Sort, KeyLess, Fields, ReceiptAt, AllSound, SchemaOf, Lookup, TypeOf, Shapes;
    var r := ReceiptAt(fields, t);
    ReceiptSpelled(fields, t);
    TypeAt(fields, t);
    FieldsPlain(r);
    ReceiptShapes(r);
    ShapesKeys(Fields(r, false), SchemaOf(t));
    SpelledSorts(NormalPairs(Fields(r, false)), fields);
    EncodeNormalise(Map(Fields(r, false)));
    NormaliseMap(Fields(r, false));
  }

  // ---- the verifier ----

  function PythonHashPreimage(fields: seq<Pair>): Bytes { PythonEncode(Map(Replace(fields, HASH_REPLACEMENTS))) }

  function PythonSigningPreimage(fields: seq<Pair>): Bytes {
    PythonEncode(Map(Replace(fields, SIGNATURE_REPLACEMENTS)))
  }

  /** `verify_receipt` on a decoded map; it also refuses a signature that is all zeros. */
  predicate PythonVerifyReceipt(c: Crypto, fields: seq<Pair>, key: Bytes) {
    && Validate(fields).Some?
    && Unique(fields, RECEIPT_HASH) == Some(ByteString(c.hash(PythonHashPreimage(fields))))
    && var signature := OctetsAt(fields, RECEIPT_SIGNATURE, SIGNATURE_LEN);
       signature != Zeros(SIGNATURE_LEN) && |key| == PUBLIC_KEY_LEN && c.keyOk(key)
       && c.verify(key, PythonSigningPreimage(fields), signature)
  }

  /**
   On octets that pass the gate the reimplementation accepts what the Rust verifier accepts, except
   receipts of a shape it does not know and receipts whose signature is all zeros.
   */
  lemma PythonAcceptsIff(c: Crypto, bs: Bytes, fields: seq<Pair>, key: Bytes)
    requires RustGate(bs) == Accepted(Map(fields))
    ensures PythonVerifyReceipt(c, fields, key) <==>
            && VerifyReceipt(c, bs, key).Passed? && Validate(fields).Some?
            && Lookup(fields, RECEIPT_SIGNATURE) != Some(ByteString(Zeros(SIGNATURE_LEN)))
  {
    RustGateAcceptsEncodings(bs, Map(fields));
    AcceptedReceipt(c, bs, key, fields);
    hide RustGate, Encode, Normalise, Encodable, Validate, Lookup, VerifyReceipt, Unique, OctetsAt;
    hide HashPreimage, SigningPreimage, PythonHashPreimage, PythonSigningPreimage;
    if Validate(fields).Some? {
      ValidatedEnvelope(fields);
      PythonPreimages(fields);
    }
  }

  /** What validation says about the three fields every type has. */
  lemma ValidatedEnvelope(fields: seq<Pair>)
    requires Validate(fields).Some?
    ensures TakeBytes(fields, RECEIPT_HASH, HASH_LEN).Passed?
            && TakeBytes(fields, RECEIPT_SIGNATURE, SIGNATURE_LEN).Passed?
    ensures TakeKid(fields).Passed? && DistinctKeys(fields)
    ensures Unique(fields, RECEIPT_HASH) == Lookup(fields, RECEIPT_HASH)
    ensures Lookup(fields, RECEIPT_SIGNATURE) == Some(ByteString(OctetsAt(fields, RECEIPT_SIGNATURE, SIGNATURE_LEN)))
  {
    hide Ascii, Lookup, Unique, AllConform, HasFields, BodySchema;
    var t := Validate(fields).value;
    EnvelopeConforms(fields, t);
    UniqueIfDistinct(fields, RECEIPT_HASH);
  }

  lemma EnvelopeConforms(fields: seq<Pair>, t: ReceiptType)
    requires AllConform(fields, SchemaOf(t))
    ensures FieldConforms(fields, RECEIPT_HASH, Octets(HASH_LEN))
    ensures FieldConforms(fields, RECEIPT_SIGNATURE, Octets(SIGNATURE_LEN))
            && FieldConforms(fields, SIGNER_KID, PlainText)
  {
    hide Ascii, FieldConforms, BodySchema;
    var schema, n := SchemaOf(t), |BodySchema(t)|;
    assert schema[n] == ENVELOPE_SCHEMA[0] && schema[n + 1] == ENVELOPE_SCHEMA[1]
        && schema[n + 2] == ENVELOPE_SCHEMA[2];
  }

  lemma PythonPreimages(fields: seq<Pair>)
    requires Encodable(Map(fields)) && DistinctKeys(fields)
    requires TakeBytes(fields, RECEIPT_HASH, HASH_LEN).Passed?
            && TakeBytes(fields, RECEIPT_SIGNATURE, SIGNATURE_LEN).Passed?
    requires TakeKid(fields).Passed?
    ensures PythonHashPreimage(fields) == HashPreimage(fields)
    ensures PythonSigningPreimage(fields) == SigningPreimage(fields)
  {
    hide Encode, PythonEncode, AllFinite, AllShaped, ZeroFields, Replace, TakeBytes, TakeKid, Ascii;
    TakenIsShaped(fields);
    ReplacingIsZeroing(fields);
    ReplacedFinite(fields, HASH_REPLACEMENTS);
    ReplacedFinite(fields, SIGNATURE_REPLACEMENTS);
    EncodersAgree(Map(Replace(fields, HASH_REPLACEMENTS)));
    EncodersAgree(Map(Replace(fields, SIGNATURE_REPLACEMENTS)));
  }
}
