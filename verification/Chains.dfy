/** Receipt chains: what `verify_history` accepts, and what an accepted chain commits to. */
module Chains {
  import opened ByteStrings
  import opened StableSort
  import opened Cbor
  import opened CborLaws
  import opened RustReader
  import opened Gates
  import opened Receipts
  import opened Verify

  /** Which field carries the backward link: snapshots link root to root, enrichments hash to hash. */
  datatype ChainKind = Snapshots | Enrichments

  function LinkField(kind: ChainKind): Bytes {
    if kind == Snapshots then PREVIOUS_SNAPSHOT_HASH else SUPERSEDES_PRIOR
  }

  function LinkTarget(kind: ChainKind, prior: ReceiptFacts): Option<Bytes> {
    if kind == Snapshots then prior.snapshotRoot else Some(prior.receiptHash)
  }

  /** The back reference of link `index`, against the facts of the link before it. */
  function CheckLink(kind: ChainKind, prior: ReceiptFacts, fields: seq<Pair>, index: nat): Verdict<()> {
    var target := LinkTarget(kind, prior);
    if target.None? then Failed(MissingField(SNAPSHOT_ROOT))
    else
      var actual: Option<CborValue> := Lookup(fields, LinkField(kind));
      match actual
      case Some(ByteString(b)) =>
        if |b| == HASH_LEN && b == target.value then Passed(()) else Failed(ChainBroken(index))
      case _ => Failed(ChainBroken(index))
  }

  function HistoryFrom(c: Crypto, links: seq<Bytes>, key: Bytes, kind: ChainKind, index: nat,
                       previous: Option<ReceiptFacts>)
    : Verdict<()>
    requires index <= |links|
    decreases |links| - index
  {
    if index == |links| then Passed(())
    else
      match VerifyReceipt(c, links[index], key)
      case Failed(error) => Failed(error)
      case Panicked => Panicked
      case Passed(facts) =>
        var linked := if previous.None? then Passed(()) else CheckAgainst(kind, previous.value, links[index], index);
        if linked.Passed? then HistoryFrom(c, links, key, kind, index + 1, Some(facts)) else linked
  }

  function CheckAgainst(kind: ChainKind, prior: ReceiptFacts, bs: Bytes, index: nat): Verdict<()> {
    var value := Decode(Rust, bs);
    if value.None? || !value.value.Map? then Failed(DecodeError)
    else CheckLink(kind, prior, value.value.pairs, index)
  }

  /** `verify_history` */
  function VerifyHistory(c: Crypto, links: seq<Bytes>, key: Bytes, kind: ChainKind): Verdict<()> {
    HistoryFrom(c, links, key, kind, 0, None)
  }

  /** The loop of `verify_history`. */
  method CheckHistory(c: Crypto, links: seq<Bytes>, key: Bytes, kind: ChainKind) returns (r: Verdict<()>)
    ensures r == VerifyHistory(c, links, key, kind)
  {
    hide VerifyReceipt, CheckAgainst;
    var previous := None;
    for index := 0 to |links|
      invariant VerifyHistory(c, links, key, kind) == HistoryFrom(c, links, key, kind, index, previous)
    {
      var facts := VerifyReceipt(c, links[index], key);
      if facts.Failed? {
        return Failed(facts.error);
      }
      if facts.Panicked? {
        return Panicked;
      }
      if previous.Some? {
        var linked := CheckAgainst(kind, previous.value, links[index], index);
        if !linked.Passed? {
          return linked;
        }
      }
      previous := Some(facts.value);
    }
    r := Passed(());
  }

  // ---- what acceptance of a chain means ----

  function FieldsOf(bs: Bytes): seq<Pair> {
    var gate := RustGate(bs);
    if gate.Accepted? && gate.value.Map? then gate.value.pairs else []
  }

  ghost predicate Follows(c: Crypto, kind: ChainKind, prior: Bytes, next: Bytes, key: Bytes) {
    && VerifyReceipt(c, prior, key).Passed?
    && var target := LinkTarget(kind, VerifyReceipt(c, prior, key).value);
       target.Some? && |target.value| == HASH_LEN
       && Lookup(FieldsOf(next), LinkField(kind)) == Some(ByteString(target.value))
  }

  ghost predicate FollowsAt(c: Crypto, links: seq<Bytes>, key: Bytes, kind: ChainKind, i: nat) {
    0 < i < |links| && Follows(c, kind, links[i - 1], links[i], key)
  }

  ghost predicate ChainHolds(c: Crypto, links: seq<Bytes>, key: Bytes, kind: ChainKind) {
    && (forall i :: 0 <= i < |links| ==> VerifyReceipt(c, links[i], key).Passed?)
    && (forall i :: 0 < i < |links| ==> FollowsAt(c, links, key, kind, i))
  }

  lemma TargetLength(c: Crypto, kind: ChainKind, prior: Bytes, key: Bytes)
    requires VerifyReceipt(c, prior, key).Passed?
    ensures var target := LinkTarget(kind, VerifyReceipt(c, prior, key).value);
            target.Some? ==> |target.value| == HASH_LEN
  {
    hide RustGate, Lookup, HashPreimage, SigningPreimage;
  }

  lemma VerifiedDecodes(c: Crypto, bs: Bytes, key: Bytes)
    requires VerifyReceipt(c, bs, key).Passed?
    ensures Decode(Rust, bs) == Some(Map(FieldsOf(bs)))
  {
    RunsLikeDecode(AMPLE, bs);
    hide VerifyFields, RunDecode, Decode, Encode, AllFinite, Tight;
  }

  lemma CheckAgainstFollows(c: Crypto, kind: ChainKind, prior: Bytes, next: Bytes, key: Bytes, index: nat)
    requires VerifyReceipt(c, prior, key).Passed? && VerifyReceipt(c, next, key).Passed?
    ensures CheckAgainst(kind, VerifyReceipt(c, prior, key).value, next, index).Passed? <==>
            Follows(c, kind, prior, next, key)
  {
    hide VerifyReceipt, Lookup, Decode, FieldsOf, Ascii;
    TargetLength(c, kind, prior, key);
    VerifiedDecodes(c, next, key);
  }

  lemma {:induction false} HistoryFromHolds(c: Crypto, links: seq<Bytes>, key: Bytes, kind: ChainKind, index: nat)
    requires 0 < index <= |links| && VerifyReceipt(c, links[index - 1], key).Passed?
    ensures HistoryFrom(c, links, key, kind, index, Some(VerifyReceipt(c, links[index - 1], key).value)).Passed? <==>
            && (forall i :: index <= i < |links| ==> VerifyReceipt(c, links[i], key).Passed?)
            && (forall i :: index <= i < |links| ==> FollowsAt(c, links, key, kind, i))
    decreases |links| - index
  {
    hide VerifyReceipt, CheckAgainst, Follows;
    if index < |links| && VerifyReceipt(c, links[index], key).Passed? {
      CheckAgainstFollows(c, kind, links[index - 1], links[index], key, index);
      assert FollowsAt(c, links, key, kind, index) <==> Follows(c, kind, links[index - 1], links[index], key);
      HistoryFromHolds(c, links, key, kind, index + 1);
    }
  }

  /** A chain is accepted exactly when every link verifies and refers back to the one before it. */
  lemma HistoryIff(c: Crypto, links: seq<Bytes>, key: Bytes, kind: ChainKind)
    ensures VerifyHistory(c, links, key, kind).Passed? <==> ChainHolds(c, links, key, kind)
  {
    hide VerifyReceipt, CheckAgainst, Follows;
    if links != [] {
      if VerifyReceipt(c, links[0], key).Passed? {
        HistoryFromHolds(c, links, key, kind, 1);
        assert VerifyHistory(c, links, key, kind)
            == HistoryFrom(c, links, key, kind, 1, Some(VerifyReceipt(c, links[0], key).value));
      } else {
        assert !VerifyHistory(c, links, key, kind).Passed?;
      }
    }
  }

  // ---- binding ----

  /** Field for field the same, but for the values under the names in `except`. */
  ghost predicate AgreeExcept(a: seq<Pair>, b: seq<Pair>, except: set<Bytes>) {
    && |a| == |b|
    && forall i :: 0 <= i < |a| ==> a[i].0 == b[i].0 && (a[i].0 in except || a[i].1 == b[i].1)
  }

  ghost predicate NoCollision(c: Crypto, a: Bytes, b: Bytes) { c.hash(a) == c.hash(b) ==> a == b }

  lemma {:induction false} LookupZero(fields: seq<Pair>, names: set<Bytes>, name: Bytes)
    ensures Lookup(ZeroFields(fields, names), name) ==
            if Lookup(fields, name).None? then None
            else Some(if name in names then Neutral(Lookup(fields, name).value) else Lookup(fields, name).value)
  {
    hide Neutral;
    if fields != [] {
      assert ZeroFields(fields, names)[1..] == ZeroFields(fields[1..], names);
      LookupZero(fields[1..], names, name);
    }
  }

  lemma {:induction false} LookupAgreed(a: seq<Pair>, b: seq<Pair>, except: set<Bytes>, name: Bytes)
    requires AgreeExcept(a, b, except) && name !in except
    ensures Lookup(a, name) == Lookup(b, name)
  {
    if a != [] {
      assert a[0].0 == b[0].0;
      LookupAgreed(a[1..], b[1..], except, name);
    }
  }

  /** Encodings of zeroed normal forms are equal only if the zeroed field lists are. */
  lemma ZeroedInjective(a: seq<Pair>, aNames: set<Bytes>, b: seq<Pair>, bNames: set<Bytes>)
    requires Encodable(Map(a)) && Normalise(Map(a)) == Map(a)
    requires Encodable(Map(b)) && Normalise(Map(b)) == Map(b)
    requires Encode(Map(ZeroFields(a, aNames))) == Encode(Map(ZeroFields(b, bNames)))
    ensures ZeroFields(a, aNames) == ZeroFields(b, bNames)
  {
    hide Encode, Normalise, Encodable;
    ZeroedNormal(a, aNames);
    ZeroedNormal(b, bNames);
    EncodeInjective(Map(ZeroFields(a, aNames)), Map(ZeroFields(b, bNames)));
  }

  lemma ZeroedNormal(a: seq<Pair>, names: set<Bytes>)
    requires Encodable(Map(a)) && Normalise(Map(a)) == Map(a)
    ensures Normalise(Map(ZeroFields(a, names))) == Map(ZeroFields(a, names))
    ensures Encodable(Map(ZeroFields(a, names)))
  {
    NormaliseMap(a);
    NormaliseMap(ZeroFields(a, names));
    EncodablePairs(a);
    EncodablePairs(ZeroFields(a, names));
    forall i | 0 <= i < |a| ensures Encodable(a[i].1) ==> Encodable(Neutral(a[i].1)) {
      NeutralEncodable(a[i].1);
    }
    hide Normalise, Encodable, Sort, KeyLess, Neutral, WellFormedText;
    ZeroNormalPairs(a, names);
    SortedZeroFields(NormalPairs(a), names);
  }

  lemma NeutralEncodable(v: CborValue)
    ensures Encodable(v) ==> Encodable(Neutral(v))
  {
  }

  lemma ZeroedAgree(a: seq<Pair>, b: seq<Pair>, names: set<Bytes>)
    requires ZeroFields(a, names) == ZeroFields(b, names)
    ensures AgreeExcept(a, b, names)
  {
  }

  lemma AgreeAlso(a: seq<Pair>, b: seq<Pair>, names: set<Bytes>, name: Bytes)
    requires AgreeExcept(a, b, names) && DistinctKeys(a) && DistinctKeys(b)
    requires Lookup(a, name) == Lookup(b, name)
    ensures AgreeExcept(a, b, names - {name})
  {
  }

  lemma AcceptsNormal(c: Crypto, bs: Bytes, key: Bytes, fields: seq<Pair>)
    requires Accepts(c, bs, key, fields)
    ensures Encodable(Map(fields)) && Normalise(Map(fields)) == Map(fields)
    ensures Lookup(fields, RECEIPT_HASH) == Some(ByteString(c.hash(HashPreimage(fields))))
    ensures Lookup(fields, SIGNER_KID).Some? && Lookup(fields, SIGNER_KID).value.Text?
  {
    hide Encode, Encodable, Normalise, Lookup, Ascii, HashPreimage, SigningPreimage;
  }

  /**
   Equal receipt hashes bind two accepted receipts to the same content: every field but the signature
   and the key id, provided the hash does not collide on the two preimages.
   */
  lemma HashBindsContent(c: Crypto, aBytes: Bytes, a: seq<Pair>, aKey: Bytes, bBytes: Bytes, b: seq<Pair>, bKey: Bytes)
    requires Accepts(c, aBytes, aKey, a) && Accepts(c, bBytes, bKey, b)
    requires DistinctKeys(a) && DistinctKeys(b)
    requires Lookup(a, RECEIPT_HASH) == Lookup(b, RECEIPT_HASH)
    requires NoCollision(c, HashPreimage(a), HashPreimage(b))
    ensures AgreeExcept(a, b, {RECEIPT_SIGNATURE, SIGNER_KID})
  {
    hide Encode, Encodable, Normalise, Lookup, Ascii, Accepts, AgreeExcept, DistinctKeys;
    AcceptsNormal(c, aBytes, aKey, a);
    AcceptsNormal(c, bBytes, bKey, b);
    ZeroedInjective(a, HASHED_NEUTRAL, b, HASHED_NEUTRAL);
    ZeroedAgree(a, b, HASHED_NEUTRAL);
    AgreeAlso(a, b, HASHED_NEUTRAL, RECEIPT_HASH);
    EnvelopeNamesDiffer();
    assert HASHED_NEUTRAL - {RECEIPT_HASH} == {RECEIPT_SIGNATURE, SIGNER_KID};
  }

  /** Equal signing preimages leave only the signature open; no hash is involved. */
  lemma PreimageBindsContent(c: Crypto, aBytes: Bytes, a: seq<Pair>, aKey: Bytes, bBytes: Bytes, b: seq<Pair>,
                             bKey: Bytes)
    requires Accepts(c, aBytes, aKey, a) && Accepts(c, bBytes, bKey, b)
    requires SigningPreimage(a) == SigningPreimage(b)
    ensures AgreeExcept(a, b, {RECEIPT_SIGNATURE})
  {
    hide Encode, Encodable, Normalise, Lookup, Ascii, Accepts, AgreeExcept;
    AcceptsNormal(c, aBytes, aKey, a);
    AcceptsNormal(c, bBytes, bKey, b);
    ZeroedInjective(a, SIGNED_NEUTRAL, b, SIGNED_NEUTRAL);
    ZeroedAgree(a, b, SIGNED_NEUTRAL);
  }

  /** No octets are hashed for one receipt and signed for another (or for itself). */
  lemma PreimagesAreSeparate(c: Crypto, aBytes: Bytes, a: seq<Pair>, aKey: Bytes, bBytes: Bytes, b: seq<Pair>,
                             bKey: Bytes)
    requires Accepts(c, aBytes, aKey, a) && Accepts(c, bBytes, bKey, b)
    ensures HashPreimage(a) != SigningPreimage(b)
  {
    hide Encode, Encodable, Normalise, Lookup, Ascii, Accepts;
    EnvelopeNamesDiffer();
    AcceptsNormal(c, aBytes, aKey, a);
    AcceptsNormal(c, bBytes, bKey, b);
    LookupZero(a, HASHED_NEUTRAL, SIGNER_KID);
    LookupZero(b, SIGNED_NEUTRAL, SIGNER_KID);
    if HashPreimage(a) == SigningPreimage(b) {
      ZeroedInjective(a, HASHED_NEUTRAL, b, SIGNED_NEUTRAL);
    }
  }

  // ---- the tip of an enrichment chain ----

  /** Every link's map is free of duplicate keys. */
  ghost predicate PlainChain(links: seq<Bytes>) {
    forall i :: 0 <= i < |links| ==> DistinctKeys(FieldsOf(links[i]))
  }

  ghost predicate NoCollisions(c: Crypto, a: seq<Bytes>, b: seq<Bytes>)
    requires |a| == |b|
  {
    forall i :: 0 <= i < |a| ==> NoCollision(c, HashPreimage(FieldsOf(a[i])), HashPreimage(FieldsOf(b[i])))
  }

  lemma VerifiedAccepts(c: Crypto, bs: Bytes, key: Bytes)
    requires VerifyReceipt(c, bs, key).Passed?
    ensures Accepts(c, bs, key, FieldsOf(bs))
    ensures VerifyReceipt(c, bs, key).value.receiptHash == TakeBytes(FieldsOf(bs), RECEIPT_HASH, HASH_LEN).value
  {
    AcceptedReceipt(c, bs, key, FieldsOf(bs));
    hide VerifyReceipt, TakeBytes, TakeKid, IsEncodingOf;
  }

  lemma BackReferenceNames()
    ensures SUPERSEDES_PRIOR != RECEIPT_SIGNATURE && SUPERSEDES_PRIOR != SIGNER_KID
  {
  }

  /** What an enrichment link refers to is the hash stored in the link before. */
  lemma RefersToHash(c: Crypto, prior: Bytes, next: Bytes, key: Bytes)
    requires Follows(c, Enrichments, prior, next, key)
    ensures Accepts(c, prior, key, FieldsOf(prior))
    ensures Lookup(FieldsOf(prior), RECEIPT_HASH) == Lookup(FieldsOf(next), SUPERSEDES_PRIOR)
  {
    hide VerifyReceipt, FieldsOf, Lookup, Ascii, HashPreimage, SigningPreimage, IsEncodingOf;
    VerifiedAccepts(c, prior, key);
    AcceptsNormal(c, prior, key, FieldsOf(prior));
  }

  /** Agreement at one link, through its back reference, forces agreement at the link before. */
  lemma AgreementGoesBack(c: Crypto, a0: Bytes, a1: Bytes, aKey: Bytes, b0: Bytes, b1: Bytes, bKey: Bytes)
    requires Follows(c, Enrichments, a0, a1, aKey) && Follows(c, Enrichments, b0, b1, bKey)
    requires DistinctKeys(FieldsOf(a0)) && DistinctKeys(FieldsOf(b0))
    requires NoCollision(c, HashPreimage(FieldsOf(a0)), HashPreimage(FieldsOf(b0)))
    requires AgreeExcept(FieldsOf(a1), FieldsOf(b1), {RECEIPT_SIGNATURE, SIGNER_KID})
    ensures AgreeExcept(FieldsOf(a0), FieldsOf(b0), {RECEIPT_SIGNATURE, SIGNER_KID})
  {
    hide Follows, FieldsOf, Lookup, Ascii, HashPreimage, AgreeExcept, Accepts, DistinctKeys;
    BackReferenceNames();
    RefersToHash(c, a0, a1, aKey);
    RefersToHash(c, b0, b1, bKey);
    LookupAgreed(FieldsOf(a1), FieldsOf(b1), {RECEIPT_SIGNATURE, SIGNER_KID}, SUPERSEDES_PRIOR);
    HashBindsContent(c, a0, FieldsOf(a0), aKey, b0, FieldsOf(b0), bKey);
  }

  /**
   The last link of an enrichment chain determines the chain: two accepted chains of one length that
   end in the same octets agree at every link on all fields but signature and key id.
   */
  lemma {:induction false} TipDeterminesEnrichments(c: Crypto, a: seq<Bytes>, aKey: Bytes, b: seq<Bytes>, bKey: Bytes,
                                                    i: nat)
    requires VerifyHistory(c, a, aKey, Enrichments).Passed? && VerifyHistory(c, b, bKey, Enrichments).Passed?
    requires |a| == |b| && i < |a| && a[|a| - 1] == b[|b| - 1]
    requires PlainChain(a) && PlainChain(b) && NoCollisions(c, a, b)
    ensures AgreeExcept(FieldsOf(a[i]), FieldsOf(b[i]), {RECEIPT_SIGNATURE, SIGNER_KID})
    decreases |a| - i
  {
    hide *;
    if i == |a| - 1 {
      AgreesWithItself(FieldsOf(a[i]));
    } else {
      TipDeterminesEnrichments(c, a, aKey, b, bKey, i + 1);
      AcceptedLink(c, a, aKey, Enrichments, i + 1);
      AcceptedLink(c, b, bKey, Enrichments, i + 1);
      PlainAt(c, a, b, i);
      AgreementGoesBack(c, a[i], a[i + 1], aKey, b[i], b[i + 1], bKey);
    }
  }

  lemma AgreesWithItself(fields: seq<Pair>)
    ensures AgreeExcept(fields, fields, {RECEIPT_SIGNATURE, SIGNER_KID})
  {
  }

  lemma AcceptedLink(c: Crypto, links: seq<Bytes>, key: Bytes, kind: ChainKind, i: nat)
    requires VerifyHistory(c, links, key, kind).Passed? && 0 < i < |links|
    ensures Follows(c, kind, links[i - 1], links[i], key)
  {
    HistoryIff(c, links, key, kind);
    hide VerifyHistory, Follows, VerifyReceipt;
    assert FollowsAt(c, links, key, kind, i);
  }

  lemma PlainAt(c: Crypto, a: seq<Bytes>, b: seq<Bytes>, i: nat)
    requires |a| == |b| && i < |a| && PlainChain(a) && PlainChain(b) && NoCollisions(c, a, b)
    ensures DistinctKeys(FieldsOf(a[i])) && DistinctKeys(FieldsOf(b[i]))
    ensures NoCollision(c, HashPreimage(FieldsOf(a[i])), HashPreimage(FieldsOf(b[i])))
  {
  }

  // ---- chains of typed receipts ----

  ghost predicate TypedFollows(kind: ChainKind, prior: Receipt, next: Receipt) {
    match kind
    case Snapshots => prior.body.RegistrySnapshot? && next.body.RegistrySnapshot?
                      && next.body.previousSnapshotHash == Some(prior.body.snapshotRoot)
    case Enrichments => next.body.EntryEnriched? && next.body.supersedesPrior == Some(prior.hash)
  }

  function Encoded(receipts: seq<Receipt>): (r: seq<Bytes>)
    ensures |r| == |receipts| && forall i :: 0 <= i < |r| ==> r[i] == ToCanonicalCbor(receipts[i])
  {
    seq(|receipts|, i requires 0 <= i < |receipts| => ToCanonicalCbor(receipts[i]))
  }

  lemma DecodedFields(r: Receipt)
    ensures FieldsOf(ToCanonicalCbor(r)) == Sort(KeyLess, NormalPairs(Fields(r, false)))
  {
    hide Encode, Normalise, Sort, Fields, Encodable, RustGate;
    ReceiptEncodable(r, false);
    IsNormalForm(ToCborValue(r, false));
    NormaliseMap(Fields(r, false));
    RustGateAcceptsEncodings(ToCanonicalCbor(r), Map(Sort(KeyLess, NormalPairs(Fields(r, false)))));
  }

  lemma LookupInBody(r: Receipt, name: Bytes, i: nat)
    requires i < |BodyFields(r.body)| && BodyFields(r.body)[i].0 == name
    requires forall j :: 0 <= j < i ==> BodyFields(r.body)[j].0 != name
    ensures Lookup(FieldsOf(ToCanonicalCbor(r)), name) == Some(Normalise(BodyFields(r.body)[i].1))
  {
    DecodedFields(r);
    hide BodyFields, EnvelopeFields, Lookup, FieldsOf, ToCanonicalCbor, Sort, Normalise;
    assert forall j :: 0 <= j < |BodyFields(r.body)| ==> Fields(r, false)[j] == BodyFields(r.body)[j];
    LookupFirst(Fields(r, false), name, i);
    LookupDecoded(Fields(r, false), name);
  }

  lemma TypedLink(c: Crypto, key: Bytes, kind: ChainKind, prior: Receipt, next: Receipt)
    requires TypedFollows(kind, prior, next) && VerifyReceiptSignature(c, prior, key) == Valid
    ensures Follows(c, kind, ToCanonicalCbor(prior), ToCanonicalCbor(next), key)
  {
    TypedAndMapLevelAgree(c, prior, key);
    LinkFields(next.body);
    hide BodyFields, Lookup, FieldsOf, ToCanonicalCbor, VerifyReceipt, VerifyReceiptSignature, Ascii;
    if kind == Snapshots {
      LookupInBody(next, PREVIOUS_SNAPSHOT_HASH, 5);
    } else {
      LookupInBody(next, SUPERSEDES_PRIOR, 6);
    }
  }

  /** Validly signed receipts, each referring to the one before, encode to an accepted chain. */
  lemma TypedChainAccepted(c: Crypto, receipts: seq<Receipt>, key: Bytes, kind: ChainKind)
    requires forall i :: 0 <= i < |receipts| ==> VerifyReceiptSignature(c, receipts[i], key) == Valid
    requires forall i :: 0 < i < |receipts| ==> TypedFollows(kind, receipts[i - 1], receipts[i])
    ensures VerifyHistory(c, Encoded(receipts), key, kind).Passed?
  {
    hide VerifyReceipt, VerifyReceiptSignature, Follows, TypedFollows, ToCanonicalCbor;
    var links := Encoded(receipts);
    forall i | 0 <= i < |links| ensures VerifyReceipt(c, links[i], key).Passed? {
      TypedAndMapLevelAgree(c, receipts[i], key);
    }
    forall i | 0 < i < |links| ensures FollowsAt(c, links, key, kind, i) {
      TypedLink(c, key, kind, receipts[i - 1], receipts[i]);
    }
    HistoryIff(c, links, key, kind);
  }

  lemma EventIdsTell(a: Receipt, b: Receipt)
    requires a.body.eventId != b.body.eventId
    ensures ToCanonicalCbor(a) != ToCanonicalCbor(b)
  {
    EventIdField(a.body);
    EventIdField(b.body);
    LookupInBody(a, Ascii("event_id"), 0);
    LookupInBody(b, Ascii("event_id"), 0);
    hide BodyFields, Lookup, FieldsOf, ToCanonicalCbor, Ascii;
  }

  /**
   Snapshot chains are not determined by their tip: they link roots only, so two snapshots of one
   server set are interchangeable under the link that follows them.
   */
  lemma TipDoesNotDetermineSnapshots(c: Crypto, key: Bytes, sign: Bytes -> Signature, kid: Str, a: Body, b: Body,
                                     tip: Body)
    requires Signs(c, key, sign)
    requires a.RegistrySnapshot? && b.RegistrySnapshot? && tip.RegistrySnapshot?
    requires a.snapshotRoot == b.snapshotRoot && a.eventId != b.eventId
    requires tip.previousSnapshotHash == Some(a.snapshotRoot)
    ensures var first := ToCanonicalCbor(Mint(c, a, kid, sign));
            var other := ToCanonicalCbor(Mint(c, b, kid, sign));
            var last := ToCanonicalCbor(Mint(c, tip, kid, sign));
            && VerifyHistory(c, [first, last], key, Snapshots).Passed?
            && VerifyHistory(c, [other, last], key, Snapshots).Passed?
            && first != other
  {
    hide Mint, ToCanonicalCbor, VerifyReceipt, VerifyReceiptSignature, VerifyHistory, Signs;
    MintedVerifies(c, a, kid, sign, key);
    MintedVerifies(c, b, kid, sign, key);
    MintedVerifies(c, tip, kid, sign, key);
    var ra, rb, rt := Mint(c, a, kid, sign), Mint(c, b, kid, sign), Mint(c, tip, kid, sign);
    TypedChainAccepted(c, [ra, rt], key, Snapshots);
    TypedChainAccepted(c, [rb, rt], key, Snapshots);
    assert Encoded([ra, rt]) == [ToCanonicalCbor(ra), ToCanonicalCbor(rt)];
    assert Encoded([rb, rt]) == [ToCanonicalCbor(rb), ToCanonicalCbor(rt)];
    EventIdsTell(ra, rb);
  }
}
