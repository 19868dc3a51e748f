/** What the producer mints is free of duplicate keys, so every verifier of the repository takes it. */
module Minted {
  import opened ByteStrings
  import opened StableSort
  import opened Cbor
  import opened CborLaws
  import opened Gates
  import opened Receipts
  import opened Verify
  import opened Chains
  import opened GoVerify
  import Decimals
  import Enrichment

  /** Names are distinct, and no value holds a map with a name twice. */
  ghost predicate Plain(fields: seq<Pair>) {
    DistinctKeys(fields) && forall i :: 0 <= i < |fields| ==> NoDuplicates(fields[i].1)
  }

  lemma ChangesPlain(b: Body)
    requires b.RegistrySnapshot?
    ensures NoDuplicates(ChangesField(b).1)
  {
    hide EncodableField, WellFormedText, Encodable;
    assert Ascii("removed")[0] != Ascii("added")[0] && Ascii("modified")[0] != Ascii("removed")[0];
  }

  lemma SnapshotPlain(b: Body)
    requires b.RegistrySnapshot?
    ensures Plain(BodyFields(b))
  {
    hide EncodableField, WellFormedText, Encodable;
    assert Ascii("previous_snapshot_hash")[0] != Ascii("upstream_snapshot_etag")[0];
    ChangesPlain(b);
  }

  lemma AutoEnrichedPlain(b: Body)
    requires b.EntryAutoEnriched?
    ensures Plain(BodyFields(b))
  {
    hide EncodableField, WellFormedText, Encodable;
    assert Ascii("server_name")[1] != Ascii("snapshot_id")[1];
  }

  lemma EnrichedPlain(b: Body)
    requires b.EntryEnriched?
    ensures Plain(BodyFields(b))
  {
    hide EncodableField, WellFormedText, Encodable;
    assert Ascii("enrichment_bytes")[0] != Ascii("supersedes_prior")[0];
  }

  lemma AcceptedPlain(b: Body)
    requires b.AttestationAccepted?
    ensures Plain(BodyFields(b))
  {
    hide EncodableField, WellFormedText, Encodable;
  }

  lemma RevokedPlain(b: Body)
    requires b.AttestationRevoked?
    ensures Plain(BodyFields(b))
  {
    hide EncodableField, WellFormedText, Encodable;
  }

  lemma RightsPlain(b: Body)
    requires b.PublisherRightsVerified?
    ensures Plain(BodyFields(b))
  {
    hide EncodableField, WellFormedText, Encodable;
  }

  lemma SkillPlain(b: Body)
    requires b.SkillSnapshot?
    ensures Plain(BodyFields(b))
  {
    hide EncodableField, WellFormedText, Encodable;
    assert Ascii("snapshot_id")[1] != Ascii("skill_count")[1];
    assert Ascii("signed_at_ms")[0] != Ascii("lock_version")[0];
  }

  lemma BodyPlain(b: Body)
    ensures Plain(BodyFields(b))
  {
    hide BodyFields, Plain;
    match b
    case RegistrySnapshot(_, _, _, _, _, _, _, _, _, _, _) => SnapshotPlain(b);
    case EntryAutoEnriched(_, _, _, _) => AutoEnrichedPlain(b);
    case EntryEnriched(_, _, _, _, _, _, _) => EnrichedPlain(b);
    case AttestationAccepted(_, _, _, _, _, _, _) => AcceptedPlain(b);
    case AttestationRevoked(_, _, _, _, _, _) => RevokedPlain(b);
    case PublisherRightsVerified(_, _, _, _, _) => RightsPlain(b);
    case SkillSnapshot(_, _, _, _, _, _, _) => SkillPlain(b);
  }

  lemma FieldsPlain(r: Receipt)
    ensures Plain(Fields(r, false))
  {
    hide Ascii, BodyFields, Encodable, WellFormedText, AllEncodable;
    BodyPlain(r.body);
    BodyOk(r.body);
    EnvelopeNamesDiffer();
    var body, envelope := BodyFields(r.body), EnvelopeFields(r, false);
    assert envelope[0].0 == RECEIPT_HASH && envelope[1].0 == RECEIPT_SIGNATURE && envelope[2].0 == SIGNER_KID;
    forall i, j | 0 <= i < j < |body| + 3 ensures (body + envelope)[i].0 != (body + envelope)[j].0 {
      if i < |body| {
        assert body[i] in body;
      }
    }
  }

  lemma ReceiptReadable(r: Receipt)
    ensures NoDuplicates(ToCborValue(r, false)) && Encodable(ToCborValue(r, false))
  {
    FieldsPlain(r);
    ReceiptEncodable(r, false);
    hide Fields, Encodable;
  }

  /** A receipt decodes to a map without duplicate keys, whatever its type and content. */
  lemma ReceiptDecodesPlain(r: Receipt)
    ensures DistinctKeys(FieldsOf(ToCanonicalCbor(r)))
  {
    FieldsPlain(r);
    DecodedFields(r);
    KeyLessIsStrictOrder();
    hide Fields, FieldsOf, ToCanonicalCbor, KeyLess, Sort, Normalise, NoDuplicates;
    SortIsSorted(KeyLess, NormalPairs(Fields(r, false)));
  }

  /**
   Everything the producer mints is accepted by the Rust verifier and by the Go verifier, with the facts
   it was minted with, and its octets pass the one-pass strict decoder.
   */
  lemma MintedAcceptedEverywhere(c: Crypto, body: Body, kid: Str, sign: Bytes -> Signature, key: Bytes)
    requires Signs(c, key, sign)
    ensures var r := Mint(c, body, kid, sign);
            && VerifyReceipt(c, ToCanonicalCbor(r), key) == Passed(FactsOf(r))
            && GoVerifyReceipt(c, ToCanonicalCbor(r), key) == Passed(FactsOf(r))
            && Decode(Python, ToCanonicalCbor(r)) == Some(Normalise(ToCborValue(r, false)))
  {
    hide Mint, VerifyReceipt, GoVerifyReceipt, FieldsOf, Decode, Normalise, ToCborValue, NoDuplicates, Encodable,
         Encode, Signs;
    var r := Mint(c, body, kid, sign);
    MintedVerifies(c, body, kid, sign, key);
    ReceiptDecodesPlain(r);
    VerifiersAgree(c, ToCanonicalCbor(r), key);
    ReceiptReadable(r);
    DecodeEncode(Python, ToCborValue(r, false));
  }

  lemma {:induction false} EncodedPlain(receipts: seq<Receipt>)
    ensures PlainChain(Encoded(receipts))
  {
    hide FieldsOf, ToCanonicalCbor, DistinctKeys;
    forall i | 0 <= i < |receipts| ensures DistinctKeys(FieldsOf(ToCanonicalCbor(receipts[i]))) {
      ReceiptDecodesPlain(receipts[i]);
    }
  }

  /**
   What the enrichment loop issues is fixed by its last receipt: two runs that issued equally many
   receipts for a server and end in the same octets agree at every link on all fields but signature and
   key id, provided the hash does not collide on the links' preimages.
   */
  lemma IssuedChainsFixedByTip(c: Crypto, ryu: Decimals.Ryu, server: Str,
                               s: Enrichment.Signer, xs: seq<Enrichment.Attempt>, sKey: Bytes,
                               t: Enrichment.Signer, ys: seq<Enrichment.Attempt>, tKey: Bytes, i: nat)
    requires Signs(c, sKey, s.sign) && Signs(c, tKey, t.sign)
    requires var a := Encoded(Enrichment.Issued(c, ryu, s, xs, server));
             var b := Encoded(Enrichment.Issued(c, ryu, t, ys, server));
             |a| == |b| && i < |a| && a[|a| - 1] == b[|b| - 1] && NoCollisions(c, a, b)
    ensures var a := Encoded(Enrichment.Issued(c, ryu, s, xs, server));
            var b := Encoded(Enrichment.Issued(c, ryu, t, ys, server));
            AgreeExcept(FieldsOf(a[i]), FieldsOf(b[i]), {RECEIPT_SIGNATURE, SIGNER_KID})
  {
    hide *;
    var a, b := Enrichment.Issued(c, ryu, s, xs, server), Enrichment.Issued(c, ryu, t, ys, server);
    Enrichment.EveryRunIssuesAChain(c, ryu, s, xs, server, sKey);
    Enrichment.EveryRunIssuesAChain(c, ryu, t, ys, server, tKey);
    EncodedPlain(a);
    EncodedPlain(b);
    TipDeterminesEnrichments(c, Encoded(a), sKey, Encoded(b), tKey, i);
  }
}
