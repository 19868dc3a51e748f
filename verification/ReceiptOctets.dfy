/** The octets of a receipt determine its type and every field of it. */
module ReceiptOctets {
  import opened ByteStrings
  import opened StableSort
  import opened Cbor
  import opened CborLaws
  import opened Receipts
  import opened Verify

  /** Two lists over the same keys in the same order that sort alike are alike. */
  lemma SortedAlike<V(!new)>(a: seq<(Bytes, V)>, b: seq<(Bytes, V)>)
    requires Keys(a) == Keys(b) && Sort(KeyLess, a) == Sort(KeyLess, b)
    ensures a == b
  {
    KeyLessIsStrictOrder();
    OrderIsStable(KeyLess, Keys(a));
    var idx := Order(KeyLess, Keys(a));
    hide KeyLess, StrictOrder;
    forall i | 0 <= i < |a| ensures a[i] == b[i] {
      assert i in idx;
      var p :| 0 <= p < |idx| && idx[p] == i;
      assert Sort(KeyLess, a)[p] == a[i] && Sort(KeyLess, b)[p] == b[i];
    }
  }

  /** What equal octets say about the two field lists. */
  ghost predicate SortAlike(a: seq<Pair>, b: seq<Pair>) {
    Sort(KeyLess, NormalPairs(a)) == Sort(KeyLess, NormalPairs(b))
  }

  lemma EqualOctets(a: Receipt, b: Receipt)
    requires ToCanonicalCbor(a) == ToCanonicalCbor(b)
    ensures SortAlike(Fields(a, false), Fields(b, false))
  {
    ReceiptEncodable(a, false);
    ReceiptEncodable(b, false);
    EncodeInjective(ToCborValue(a, false), ToCborValue(b, false));
    NormaliseMap(Fields(a, false));
    NormaliseMap(Fields(b, false));
    hide Encode, Fields, Encodable, Normalise, Sort;
  }

  lemma SameNames(a: seq<Pair>, b: seq<Pair>, name: Bytes)
    requires SortAlike(a, b)
    ensures Lookup(a, name).Some? <==> Lookup(b, name).Some?
    ensures |a| == |b|
  {
    LookupDecoded(a, name);
    LookupDecoded(b, name);
    assert |Sort(KeyLess, NormalPairs(a))| == |a| && |Sort(KeyLess, NormalPairs(b))| == |b|;
    hide Sort, KeyLess, Normalise, Lookup;
  }

  // ---- the type ----

  const PUBLISHER_PASSPORT := Ascii("publisher_passport")
  const ISSUER_PASSPORT := Ascii("issuer_passport")

  /** How many fields each type has. */
  lemma FieldCounts(r: Receipt)
    ensures var n := |Fields(r, false)| - 3;
            && (r.body.RegistrySnapshot? <==> n == 9) && (r.body.EntryAutoEnriched? <==> n == 4)
            && (r.body.AttestationRevoked? <==> n == 6) && (r.body.PublisherRightsVerified? <==> n == 5)
            && (r.body.EntryEnriched? || r.body.AttestationAccepted? || r.body.SkillSnapshot? <==> n == 7)
  {
    hide Ascii, EncodableField;
  }

  /** The three types of seven fields are told apart by whose passport they name. */
  lemma PassportNames(r: Receipt)
    requires r.body.EntryEnriched? || r.body.AttestationAccepted? || r.body.SkillSnapshot?
    ensures Lookup(Fields(r, false), PUBLISHER_PASSPORT).Some? <==> r.body.EntryEnriched?
    ensures Lookup(Fields(r, false), ISSUER_PASSPORT).Some? <==> r.body.AttestationAccepted?
  {
    hide EncodableField, Lookup, WellFormedText, Encodable;
    var fields := Fields(r, false);
    if r.body.EntryEnriched? {
      assert fields[2].0 == PUBLISHER_PASSPORT;
      assert forall i :: 0 <= i < |fields| ==> fields[i].0 != ISSUER_PASSPORT;
    } else if r.body.AttestationAccepted? {
      assert fields[3].0 == ISSUER_PASSPORT;
      assert forall i :: 0 <= i < |fields| ==> fields[i].0 != PUBLISHER_PASSPORT;
    } else {
      assert forall i :: 0 <= i < |fields| ==> fields[i].0 != PUBLISHER_PASSPORT && fields[i].0 != ISSUER_PASSPORT;
    }
  }

  ghost predicate SameType(a: Body, b: Body) {
    match a
    case RegistrySnapshot(_, _, _, _, _, _, _, _, _, _, _) => b.RegistrySnapshot?
    case EntryAutoEnriched(_, _, _, _) => b.EntryAutoEnriched?
    case EntryEnriched(_, _, _, _, _, _, _) => b.EntryEnriched?
    case AttestationAccepted(_, _, _, _, _, _, _) => b.AttestationAccepted?
    case AttestationRevoked(_, _, _, _, _, _) => b.AttestationRevoked?
    case PublisherRightsVerified(_, _, _, _, _) => b.PublisherRightsVerified?
    case SkillSnapshot(_, _, _, _, _, _, _) => b.SkillSnapshot?
  }

  lemma FieldsTellType(a: Receipt, b: Receipt)
    requires SortAlike(Fields(a, false), Fields(b, false))
    ensures SameType(a.body, b.body)
  {
    hide Fields, Lookup, Ascii, SortAlike;
    FieldCounts(a);
    FieldCounts(b);
    SameNames(Fields(a, false), Fields(b, false), PUBLISHER_PASSPORT);
    SameNames(Fields(a, false), Fields(b, false), ISSUER_PASSPORT);
    if |Fields(a, false)| == 10 {
      PassportNames(a);
      PassportNames(b);
    }
  }

  // ---- the fields ----

  lemma SameBodyKeys(a: Body, b: Body)
    requires SameType(a, b)
    ensures Keys(BodyFields(a)) == Keys(BodyFields(b))
  {
    hide Ascii, EncodableField, Encodable, WellFormedText;
    var x, y := Keys(BodyFields(a)), Keys(BodyFields(b));
    assert |x| == |y| && forall i :: 0 <= i < |x| ==> x[i] == y[i];
  }

  lemma EnvelopeKeys(r: Receipt)
    ensures Keys(EnvelopeFields(r, false)) == [RECEIPT_HASH, RECEIPT_SIGNATURE, SIGNER_KID]
  {
  }

  lemma KeysJoin<V>(a: seq<(Bytes, V)>, b: seq<(Bytes, V)>)
    ensures Keys(a + b) == Keys(a) + Keys(b)
  {
  }

  lemma SameKeys(a: Receipt, b: Receipt)
    requires SameType(a.body, b.body)
    ensures Keys(Fields(a, false)) == Keys(Fields(b, false))
  {
    hide BodyFields, EnvelopeFields, SameType, Keys;
    SameBodyKeys(a.body, b.body);
    EnvelopeKeys(a);
    EnvelopeKeys(b);
    KeysJoin(BodyFields(a.body), EnvelopeFields(a, false));
    KeysJoin(BodyFields(b.body), EnvelopeFields(b, false));
  }

  lemma ChangesDetermined(a: Body, b: Body)
    requires a.RegistrySnapshot? && b.RegistrySnapshot?
    requires Normalise(ChangesField(a).1) == Normalise(ChangesField(b).1)
    ensures a.added == b.added && a.removed == b.removed && a.modified == b.modified
  {
    hide Ascii, EncodableField, Encodable, WellFormedText, Sort;
    var x, y := ChangesField(a).1.pairs, ChangesField(b).1.pairs;
    assert NormalPairs(x) == x && NormalPairs(y) == y;
    NormaliseMap(x);
    NormaliseMap(y);
    SortedAlike(x, y);
    assert x[0].1 == Uint(a.added) && x[1].1 == Uint(a.removed) && x[2].1 == Uint(a.modified);
    assert y[0].1 == Uint(b.added) && y[1].1 == Uint(b.removed) && y[2].1 == Uint(b.modified);
  }

  ghost predicate SameValues(x: seq<Pair>, y: seq<Pair>) {
    |x| == |y| && forall i :: 0 <= i < |x| ==> Normalise(x[i].1) == Normalise(y[i].1)
  }

  lemma BodyDetermined(a: Body, b: Body)
    requires SameType(a, b) && SameValues(BodyFields(a), BodyFields(b))
    ensures a == b
  {
    hide Ascii, EncodableField, Encodable, WellFormedText, ChangesField, Sort, KeyLess;
    if a.RegistrySnapshot? {
      var x, y := BodyFields(a), BodyFields(b);
      assert Normalise(x[8].1) == Normalise(y[8].1);
      ChangesDetermined(a, b);
      SnapshotDetermined(a, b);
    } else if a.EntryAutoEnriched? {
      AutoEnrichedDetermined(a, b);
    } else if a.EntryEnriched? {
      EnrichedDetermined(a, b);
    } else if a.AttestationAccepted? {
      AcceptedDetermined(a, b);
    } else if a.AttestationRevoked? {
      RevokedDetermined(a, b);
    } else if a.PublisherRightsVerified? {
      RightsDetermined(a, b);
    } else {
      SkillDetermined(a, b);
    }
  }

  lemma SnapshotDetermined(a: Body, b: Body)
    requires a.RegistrySnapshot? && b.RegistrySnapshot? && SameValues(BodyFields(a), BodyFields(b))
    requires a.added == b.added && a.removed == b.removed && a.modified == b.modified
    ensures a == b
  {
    hide Ascii, EncodableField, Encodable, WellFormedText, ChangesField, Sort, KeyLess;
    var x, y := BodyFields(a), BodyFields(b);
    assert x[0].1 == y[0].1 && x[1].1 == y[1].1 && x[2].1 == y[2].1 && x[3].1 == y[3].1 && x[4].1 == y[4].1
        && x[5].1 == y[5].1 && x[6].1 == y[6].1 && x[7].1 == y[7].1;
  }

  lemma AutoEnrichedDetermined(a: Body, b: Body)
    requires a.EntryAutoEnriched? && b.EntryAutoEnriched? && SameValues(BodyFields(a), BodyFields(b))
    ensures a == b
  {
    hide Ascii, EncodableField, Encodable, WellFormedText;
    var x, y := BodyFields(a), BodyFields(b);
    assert x[0].1 == y[0].1 && x[1].1 == y[1].1 && x[2].1 == y[2].1 && x[3].1 == y[3].1;
  }

  lemma EnrichedDetermined(a: Body, b: Body)
    requires a.EntryEnriched? && b.EntryEnriched? && SameValues(BodyFields(a), BodyFields(b))
    ensures a == b
  {
    hide Ascii, EncodableField, Encodable, WellFormedText;
    var x, y := BodyFields(a), BodyFields(b);
    assert x[0].1 == y[0].1 && x[1].1 == y[1].1 && x[2].1 == y[2].1 && x[3].1 == y[3].1 && x[4].1 == y[4].1
        && x[5].1 == y[5].1 && x[6].1 == y[6].1;
  }

  lemma AcceptedDetermined(a: Body, b: Body)
    requires a.AttestationAccepted? && b.AttestationAccepted? && SameValues(BodyFields(a), BodyFields(b))
    ensures a == b
  {
    hide Ascii, EncodableField, Encodable, WellFormedText;
    var x, y := BodyFields(a), BodyFields(b);
    assert x[0].1 == y[0].1 && x[1].1 == y[1].1 && x[2].1 == y[2].1 && x[3].1 == y[3].1 && x[4].1 == y[4].1
        && x[5].1 == y[5].1 && x[6].1 == y[6].1;
  }

  lemma RevokedDetermined(a: Body, b: Body)
    requires a.AttestationRevoked? && b.AttestationRevoked? && SameValues(BodyFields(a), BodyFields(b))
    ensures a == b
  {
    hide Ascii, EncodableField, Encodable, WellFormedText;
    var x, y := BodyFields(a), BodyFields(b);
    assert x[0].1 == y[0].1 && x[1].1 == y[1].1 && x[2].1 == y[2].1 && x[3].1 == y[3].1 && x[4].1 == y[4].1
        && x[5].1 == y[5].1;
  }

  lemma RightsDetermined(a: Body, b: Body)
    requires a.PublisherRightsVerified? && b.PublisherRightsVerified? && SameValues(BodyFields(a), BodyFields(b))
    ensures a == b
  {
    hide Ascii, EncodableField, Encodable, WellFormedText;
    var x, y := BodyFields(a), BodyFields(b);
    assert x[0].1 == y[0].1 && x[1].1 == y[1].1 && x[2].1 == y[2].1 && x[3].1 == y[3].1 && x[4].1 == y[4].1;
  }

  lemma SkillDetermined(a: Body, b: Body)
    requires a.SkillSnapshot? && b.SkillSnapshot? && SameValues(BodyFields(a), BodyFields(b))
    ensures a == b
  {
    hide Ascii, EncodableField, Encodable, WellFormedText;
    var x, y := BodyFields(a), BodyFields(b);
    assert x[0].1 == y[0].1 && x[1].1 == y[1].1 && x[2].1 == y[2].1 && x[3].1 == y[3].1 && x[4].1 == y[4].1
        && x[5].1 == y[5].1 && x[6].1 == y[6].1;
  }

  lemma EnvelopeDetermined(a: Receipt, b: Receipt)
    requires SameValues(EnvelopeFields(a, false), EnvelopeFields(b, false))
    ensures a.hash == b.hash && a.signature == b.signature && a.kid == b.kid
  {
    hide Ascii, EncodableField, Encodable, WellFormedText;
    var x, y := EnvelopeFields(a, false), EnvelopeFields(b, false);
    assert x[0].1 == y[0].1 && x[1].1 == y[1].1 && x[2].1 == y[2].1;
  }

  lemma SplitValues(a: Receipt, b: Receipt)
    requires |BodyFields(a.body)| == |BodyFields(b.body)|
    requires NormalPairs(Fields(a, false)) == NormalPairs(Fields(b, false))
    ensures SameValues(BodyFields(a.body), BodyFields(b.body))
    ensures SameValues(EnvelopeFields(a, false), EnvelopeFields(b, false))
  {
    hide Ascii, BodyFields, EnvelopeFields, Normalise;
    var x, y := BodyFields(a.body), BodyFields(b.body);
    var u, v := EnvelopeFields(a, false), EnvelopeFields(b, false);
    var p, q := NormalPairs(x + u), NormalPairs(y + v);
    assert forall i :: 0 <= i < |x| ==> p[i] == q[i] && (x + u)[i] == x[i] && (y + v)[i] == y[i];
    assert |u| == |v|;
    forall i | 0 <= i < |u| ensures Normalise(u[i].1) == Normalise(v[i].1) {
      assert p[|x| + i] == q[|x| + i] && (x + u)[|x| + i] == u[i] && (y + v)[|x| + i] == v[i];
    }
  }

  lemma SameCount(a: Body, b: Body)
    requires SameType(a, b)
    ensures |BodyFields(a)| == |BodyFields(b)|
  {
    hide Ascii, EncodableField;
  }

  /** Two receipts with the same octets are the same receipt: same type, same value in every field. */
  lemma OctetsDetermineReceipt(a: Receipt, b: Receipt)
    requires ToCanonicalCbor(a) == ToCanonicalCbor(b)
    ensures a == b
  {
    EqualOctets(a, b);
    FieldsTellType(a, b);
    SameKeys(a, b);
    SameCount(a.body, b.body);
    hide Fields, SameType, SameValues, Normalise, Sort, KeyLess, BodyFields, EnvelopeFields;
    var x, y := NormalPairs(Fields(a, false)), NormalPairs(Fields(b, false));
    assert Keys(x) == Keys(Fields(a, false)) && Keys(y) == Keys(Fields(b, false));
    SortedAlike(x, y);
    SplitValues(a, b);
    EnvelopeDetermined(a, b);
    BodyDetermined(a.body, b.body);
  }
}
