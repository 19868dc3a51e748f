/**
 The declaration handler beside the refresh loop: both write the enrichment table, and only the loop signs. When
 that breaks the chain of the receipts the loop has issued.
 */
module Declarations {
  import opened ByteStrings
  import opened StableSort
  import opened Cbor
  import opened CborLaws
  import opened Receipts
  import opened Verify
  import opened Chains
  import opened Decimals
  import opened Hex
  import opened CanonicalJson
  import opened Enrichment

  /**
   A publisher's declaration that has passed the handler's checks, or `None` where one of them fails; and how
   storing goes.
   */
  datatype Submission = Submission(server: Str, found: Option<Found>, eventId: Ulid, inserts: Inserts)

  const PUBLISHER_KID: Bytes := Ascii("vault:transit:rcx-registry-signing-key-1")

  function PublisherKid(): Str {
    AsciiIsUtf8(PUBLISHER_KID);
    PUBLISHER_KID
  }

  /** The receipt a submission is stored with: hashed, and never signed. */
  function Unsigned(c: Crypto, ryu: Ryu, t: Tables, sub: Submission): (r: Option<Receipt>)
    ensures r.Some? ==> r.value.body.EntryEnriched?
  {
    if sub.found.None? then None
    else
      var f := sub.found.value;
      var declaredHash := DeclaredHash(c, ryu, f.raw);
      var bytes := PayloadBytes(Payload(f.declaration, f.declaredUri, declaredHash, f.verificationMethod, None));
      if bytes.None? then None
      else
        var body := EntryEnriched(sub.eventId, sub.server, f.declaration.passport, f.declaredUri, declaredHash,
                                  bytes.value, ParsedReceiptHash(Fetch(t, sub.server)));
        var draft := Receipt(body, Zeros(HASH_LEN), Zeros(SIGNATURE_LEN), PublisherKid());
        Some(draft.(hash := ComputeHash(c, draft)))
  }

  function Submitted(c: Crypto, ryu: Ryu, t: Tables, sub: Submission): Tables {
    var receipt := Unsigned(c, ryu, t, sub);
    if receipt.None? then t
    else Upserted(t, sub.server, RecordOf(receipt.value), PriorText(Fetch(t, sub.server)), sub.inserts)
  }

  class DeclarationApi {
    const store: EnrichmentStore

    constructor (store: EnrichmentStore)
      ensures this.store == store
    {
      this.store := store;
    }

    /** `declare_publisher_enrichment`, from the checked declaration on. */
    method Declare(c: Crypto, ryu: Ryu, sub: Submission) returns (created: bool)
      modifies store
      ensures store.Contents() == Submitted(c, ryu, old(store.Contents()), sub)
      ensures created <==> Unsigned(c, ryu, old(store.Contents()), sub).Some? && sub.inserts.BothDone?
    {
      hide PayloadBytes, JsonText, ParsePrefixed, Prefixed, ToCanonicalCbor, ComputeHash;
      if sub.found.None? {
        return false;
      }
      var f := sub.found.value;
      var declaredHash := DeclaredHash(c, ryu, f.raw);
      var bytes := PayloadBytes(Payload(f.declaration, f.declaredUri, declaredHash, f.verificationMethod, None));
      var prior := store.Get(sub.server);
      if bytes.None? {
        return false;
      }
      var body := EntryEnriched(sub.eventId, sub.server, f.declaration.passport, f.declaredUri, declaredHash,
                                bytes.value, ParsedReceiptHash(prior));
      var receipt := Receipt(body, Zeros(HASH_LEN), Zeros(SIGNATURE_LEN), PublisherKid());
      receipt := receipt.(hash := ComputeHash(c, receipt));
      PrefixedRoundTrip(declaredHash);
      PrefixedRoundTrip(receipt.hash);
      created := store.Upsert(sub.server, RecordOf(receipt), PriorText(prior), sub.inserts);
    }
  }

  // ---- runs of both writers ----

  datatype Event = Refresh(attempt: Attempt) | Submit(submission: Submission)

  /** A receipt whose hash was stored, and whether the loop issued it. */
  datatype Stored = Stored(receipt: Receipt, byLoop: bool)

  function ServerOf(e: Event): Str { if e.Refresh? then e.attempt.server else e.submission.server }

  function EventStep(c: Crypto, ryu: Ryu, s: Signer, t: Tables, e: Event): Tables {
    match e
    case Refresh(attempt) => Step(c, ryu, s, t, attempt)
    case Submit(submission) => Submitted(c, ryu, t, submission)
  }

  function StoredBy(c: Crypto, ryu: Ryu, s: Signer, t: Tables, e: Event): (r: Option<Stored>)
    ensures r.Some? ==> r.value.receipt.body.EntryEnriched?
  {
    match e
    case Refresh(attempt) =>
      var r := IssuedBy(c, ryu, s, t, attempt);
      if r.None? then None else Some(Stored(r.value, true))
    case Submit(submission) =>
      var r := Unsigned(c, ryu, t, submission);
      if r.None? || submission.inserts.FirstFails? then None else Some(Stored(r.value, false))
  }

  function TablesAfterAll(c: Crypto, ryu: Ryu, s: Signer, events: seq<Event>): Tables {
    if events == [] then Tables(map[], map[])
    else EventStep(c, ryu, s, TablesAfterAll(c, ryu, s, events[..|events| - 1]), events[|events| - 1])
  }

  /** What a run stores for one server, oldest first. */
  function History(c: Crypto, ryu: Ryu, s: Signer, events: seq<Event>, server: Str): (h: seq<Stored>)
    ensures forall i :: 0 <= i < |h| ==> h[i].receipt.body.EntryEnriched?
  {
    if events == [] then []
    else
      var init, last := events[..|events| - 1], events[|events| - 1];
      var before := History(c, ryu, s, init, server);
      var newest := StoredBy(c, ryu, s, TablesAfterAll(c, ryu, s, init), last);
      if ServerOf(last) == server && newest.Some? then before + [newest.value] else before
  }

  /** The receipts the loop issued, oldest first. */
  function ByLoop(h: seq<Stored>): seq<Receipt> {
    if h == [] then []
    else
      var before, last := ByLoop(h[..|h| - 1]), h[|h| - 1];
      if last.byLoop then before + [last.receipt] else before
  }

  /** Positions of two issued receipts with only submissions between them. */
  ghost predicate Neighbours(h: seq<Stored>, p: nat, q: nat) {
    p < q < |h| && h[p].byLoop && h[q].byLoop && forall k :: p < k < q ==> !h[k].byLoop
  }

  /** What is read back as prior when the later of two neighbours is issued has the hash of the earlier. */
  ghost predicate PriorIsKept(h: seq<Stored>, p: nat, q: nat) {
    p < q < |h| && h[q - 1].receipt.hash == h[p].receipt.hash
  }

  ghost predicate Uninterrupted(h: seq<Stored>) {
    forall p: nat, q: nat :: Neighbours(h, p, q) ==> PriorIsKept(h, p, q)
  }

  // ---- every stored receipt refers to the one stored before ----

  ghost predicate RefersBack(h: seq<Stored>, i: nat)
    requires 0 < i < |h|
  {
    h[i].receipt.body.EntryEnriched? && h[i].receipt.body.supersedesPrior == Some(h[i - 1].receipt.hash)
  }

  ghost predicate Sound(c: Crypto, key: Bytes, x: Stored) {
    && x.receipt.body.EntryEnriched? && x.receipt.hash == ComputeHash(c, x.receipt)
    && (x.byLoop ==> VerifyReceiptSignature(c, x.receipt, key) == Valid)
  }

  ghost predicate Linked(c: Crypto, key: Bytes, t: Tables, server: Bytes, h: seq<Stored>) {
    && (forall i :: 0 <= i < |h| ==> Sound(c, key, h[i]))
    && (forall i :: 0 < i < |h| ==> RefersBack(h, i))
    && (server in t.hashes <==> h != [])
    && (h != [] ==> t.hashes[server].receiptHash == h[|h| - 1].receipt.hash)
  }

  lemma HashIgnoresEnvelope(c: Crypto, r: Receipt, s: Receipt)
    requires r.body == s.body
    ensures ComputeHash(c, r) == ComputeHash(c, s)
  {
    ZeroFormIgnoresEnvelope(r, s);
    hide Fields, Encode;
  }

  lemma UnsignedFacts(c: Crypto, ryu: Ryu, t: Tables, sub: Submission)
    requires Unsigned(c, ryu, t, sub).Some?
    ensures var r := Unsigned(c, ryu, t, sub).value;
            && r.hash == ComputeHash(c, r)
            && r.body.supersedesPrior ==
               (if sub.server in t.hashes then Some(t.hashes[sub.server].receiptHash) else None)
  {
    hide PayloadBytes, JsonText, ToCanonicalCbor, ComputeHash, Prefixed, ParsePrefixed, DeclaredHash;
    var r := Unsigned(c, ryu, t, sub).value;
    if sub.server in t.hashes {
      PrefixedRoundTrip(t.hashes[sub.server].receiptHash);
    }
    HashIgnoresEnvelope(c, r, r.(hash := Zeros(HASH_LEN)));
  }

  lemma SubmittedHashes(c: Crypto, ryu: Ryu, t: Tables, sub: Submission)
    ensures var r := Unsigned(c, ryu, t, sub);
            Submitted(c, ryu, t, sub).hashes ==
            if r.None? || sub.inserts.FirstFails? then t.hashes
            else t.hashes[sub.server := HashRow(r.value.body.declaredHash, r.value.hash)]
  {
    hide Unsigned, Prefixed, ParsePrefixed;
    var receipt := Unsigned(c, ryu, t, sub);
    if receipt.Some? {
      PrefixedRoundTrip(receipt.value.body.declaredHash);
      PrefixedRoundTrip(receipt.value.hash);
    }
  }

  lemma IssuedIsSound(c: Crypto, r: Receipt, key: Bytes)
    requires VerifyReceiptSignature(c, r, key) == Valid
    ensures r.hash == ComputeHash(c, r)
  {
    hide ComputeHash, Overwrite;
  }

  lemma StoredFacts(c: Crypto, ryu: Ryu, s: Signer, t: Tables, e: Event, key: Bytes)
    requires Signs(c, key, s.sign) && StoredBy(c, ryu, s, t, e).Some?
    ensures var x, server := StoredBy(c, ryu, s, t, e).value, ServerOf(e);
            && Sound(c, key, x)
            && x.receipt.body.supersedesPrior ==
               (if server in t.hashes then Some(t.hashes[server].receiptHash) else None)
  {
    hide IssuedBy, Unsigned, ComputeHash, VerifyReceiptSignature, Signs;
    match e {
      case Refresh(attempt) =>
        IssuedFacts(c, ryu, s, t, attempt, key);
        IssuedIsSound(c, StoredBy(c, ryu, s, t, e).value.receipt, key);
      case Submit(sub) =>
        UnsignedFacts(c, ryu, t, sub);
    }
  }

  lemma EventHashes(c: Crypto, ryu: Ryu, s: Signer, t: Tables, e: Event)
    ensures var x := StoredBy(c, ryu, s, t, e);
            EventStep(c, ryu, s, t, e).hashes ==
            if x.None? then t.hashes
            else t.hashes[ServerOf(e) := HashRow(x.value.receipt.body.declaredHash, x.value.receipt.hash)]
  {
    hide Submitted, Unsigned, Step, IssuedBy;
    match e {
      case Refresh(attempt) => StepHashes(c, ryu, s, t, attempt);
      case Submit(sub) => SubmittedHashes(c, ryu, t, sub);
    }
  }

  lemma ExtendLinked(c: Crypto, key: Bytes, before: Tables, after: Tables, server: Bytes, h: seq<Stored>, x: Stored)
    requires Linked(c, key, before, server, h) && Sound(c, key, x)
    requires x.receipt.body.supersedesPrior ==
             if server in before.hashes then Some(before.hashes[server].receiptHash) else None
    requires after.hashes == before.hashes[server := HashRow(x.receipt.body.declaredHash, x.receipt.hash)]
    ensures Linked(c, key, after, server, h + [x])
  {
    hide VerifyReceiptSignature, ComputeHash;
    forall i | 0 < i <= |h| ensures RefersBack(h + [x], i) {
      assert i < |h| ==> RefersBack(h, i);
    }
  }

  lemma LinkedStep(c: Crypto, ryu: Ryu, s: Signer, t: Tables, e: Event, server: Str, h: seq<Stored>, key: Bytes)
    requires Signs(c, key, s.sign) && Linked(c, key, t, server, h)
    ensures var x := StoredBy(c, ryu, s, t, e);
            Linked(c, key, EventStep(c, ryu, s, t, e), server,
                   if ServerOf(e) == server && x.Some? then h + [x.value] else h)
  {
    hide EventStep, StoredBy, RefersBack, Sound, Signs;
    EventHashes(c, ryu, s, t, e);
    var x := StoredBy(c, ryu, s, t, e);
    if x.Some? {
      StoredFacts(c, ryu, s, t, e, key);
      if ServerOf(e) == server {
        ExtendLinked(c, key, t, EventStep(c, ryu, s, t, e), server, h, x.value);
      }
    }
  }

  lemma {:induction false} RunLinked(c: Crypto, ryu: Ryu, s: Signer, events: seq<Event>, server: Str, key: Bytes)
    requires Signs(c, key, s.sign)
    ensures Linked(c, key, TablesAfterAll(c, ryu, s, events), server, History(c, ryu, s, events, server))
  {
    hide EventStep, StoredBy, RefersBack, Sound, Signs;
    if events != [] {
      var init, last := events[..|events| - 1], events[|events| - 1];
      RunLinked(c, ryu, s, init, server, key);
      LinkedStep(c, ryu, s, TablesAfterAll(c, ryu, s, init), last, server, History(c, ryu, s, init, server), key);
      hide Linked;
    }
  }

  // ---- the issued receipts as a chain ----

  function LastIssued(h: seq<Stored>): (p: Option<nat>)
    ensures p.Some? ==> p.value < |h| && h[p.value].byLoop && forall k :: p.value < k < |h| ==> !h[k].byLoop
    ensures p.None? ==> forall k :: 0 <= k < |h| ==> !h[k].byLoop
    ensures p.Some? <==> ByLoop(h) != []
    ensures p.Some? ==> ByLoop(h)[|ByLoop(h)| - 1] == h[p.value].receipt
  {
    if h == [] then None else if h[|h| - 1].byLoop then Some(|h| - 1) else LastIssued(h[..|h| - 1])
  }

  ghost predicate LinksAt(rs: seq<Receipt>, i: nat)
    requires 0 < i < |rs|
  {
    TypedFollows(Enrichments, rs[i - 1], rs[i])
  }

  ghost predicate AllLink(rs: seq<Receipt>) { forall i :: 0 < i < |rs| ==> LinksAt(rs, i) }

  lemma LinksAppend(rs: seq<Receipt>, r: Receipt)
    ensures AllLink(rs + [r]) <==>
            AllLink(rs) && (rs != [] ==> TypedFollows(Enrichments, rs[|rs| - 1], r))
  {
    hide TypedFollows;
    forall i | 0 < i < |rs| ensures LinksAt(rs, i) <==> LinksAt(rs + [r], i) {
    }
    if AllLink(rs + [r]) && rs != [] {
      assert LinksAt(rs + [r], |rs|);
    }
  }

  lemma NeighboursInside(h: seq<Stored>, x: Stored, p: nat, q: nat)
    requires p < q < |h|
    ensures Neighbours(h + [x], p, q) <==> Neighbours(h, p, q)
    ensures PriorIsKept(h + [x], p, q) <==> PriorIsKept(h, p, q)
  {
    assert forall k :: 0 <= k < |h| ==> (h + [x])[k] == h[k];
  }

  lemma NeighboursAtEnd(h: seq<Stored>, x: Stored, p: nat)
    requires p < |h|
    ensures Neighbours(h + [x], p, |h|) <==> x.byLoop && LastIssued(h) == Some(p)
  {
    assert forall k :: 0 <= k < |h| ==> (h + [x])[k] == h[k];
    hide ByLoop;
  }

  lemma UninterruptedAppend(h: seq<Stored>, x: Stored)
    ensures Uninterrupted(h + [x]) <==>
            && Uninterrupted(h)
            && (x.byLoop && LastIssued(h).Some? ==> h[|h| - 1].receipt.hash == h[LastIssued(h).value].receipt.hash)
  {
    var all := h + [x];
    hide Neighbours, LastIssued, PriorIsKept;
    forall p: nat, q: nat | Neighbours(h, p, q) ensures Neighbours(all, p, q) {
      NeighboursInRange(h, p, q);
      NeighboursInside(h, x, p, q);
    }
    forall p: nat, q: nat | PriorIsKept(all, p, q) && Neighbours(h, p, q) ensures PriorIsKept(h, p, q) {
      NeighboursInRange(h, p, q);
      NeighboursInside(h, x, p, q);
    }
    forall p: nat, q: nat | Neighbours(all, p, q) && !PriorIsKept(all, p, q)
      ensures (Neighbours(h, p, q) && !PriorIsKept(h, p, q)) || (q == |h| && x.byLoop && LastIssued(h) == Some(p))
    {
      NeighboursInRange(all, p, q);
      if q < |h| {
        NeighboursInside(h, x, p, q);
      } else {
        NeighboursAtEnd(h, x, p);
      }
    }
    if LastIssued(h).Some? {
      NeighboursAtEnd(h, x, LastIssued(h).value);
      KeptAtEnd(h, x, LastIssued(h).value);
    }
  }

  lemma KeptAtEnd(h: seq<Stored>, x: Stored, p: nat)
    requires p < |h|
    ensures PriorIsKept(h + [x], p, |h|) <==> h[|h| - 1].receipt.hash == h[p].receipt.hash
  {
  }

  lemma NeighboursInRange(h: seq<Stored>, p: nat, q: nat)
    requires Neighbours(h, p, q)
    ensures p < q < |h|
  {
  }

  /** Of receipts each referring to the one stored before, the issued ones link up if and only if uninterrupted. */
  lemma {:induction false} IssuedLinkIff(h: seq<Stored>)
    requires forall i :: 0 < i < |h| ==> RefersBack(h, i)
    requires forall i :: 0 <= i < |h| ==> h[i].receipt.body.EntryEnriched?
    ensures AllLink(ByLoop(h)) <==> Uninterrupted(h)
  {
    if h == [] {
      assert AllLink([]) && Uninterrupted([]);
    } else {
      hide Uninterrupted, LastIssued;
      var init, last := h[..|h| - 1], h[|h| - 1];
      forall i | 0 < i < |init| ensures RefersBack(init, i) {
        assert RefersBack(h, i);
      }
      IssuedLinkIff(init);
      assert h == init + [last];
      UninterruptedAppend(init, last);
      LinksAppend(ByLoop(init), last.receipt);
      assert init != [] ==> RefersBack(h, |init|);
      var _ := LastIssued(init);
      hide AllLink;
    }
  }

  lemma FollowsBack(c: Crypto, key: Bytes, prior: Receipt, next: Receipt)
    requires Follows(c, Enrichments, ToCanonicalCbor(prior), ToCanonicalCbor(next), key) && next.body.EntryEnriched?
    requires VerifyReceiptSignature(c, prior, key) == Valid
    ensures TypedFollows(Enrichments, prior, next)
  {
    TypedAndMapLevelAgree(c, prior, key);
    LinkFields(next.body);
    hide BodyFields, Lookup, FieldsOf, ToCanonicalCbor, VerifyReceipt, VerifyReceiptSignature, Ascii;
    LookupInBody(next, SUPERSEDES_PRIOR, 6);
  }

  lemma {:induction false} LoopOnes(c: Crypto, key: Bytes, h: seq<Stored>)
    requires forall i :: 0 <= i < |h| ==> Sound(c, key, h[i])
    ensures forall r :: r in ByLoop(h) ==> r.body.EntryEnriched? && VerifyReceiptSignature(c, r, key) == Valid
  {
    hide VerifyReceiptSignature, ComputeHash;
    if h != [] {
      LoopOnes(c, key, h[..|h| - 1]);
    }
  }

  lemma AcceptedIffLinked(c: Crypto, rs: seq<Receipt>, key: Bytes)
    requires forall r :: r in rs ==> r.body.EntryEnriched? && VerifyReceiptSignature(c, r, key) == Valid
    ensures VerifyHistory(c, Encoded(rs), key, Enrichments).Passed? <==> AllLink(rs)
  {
    hide VerifyReceiptSignature, VerifyHistory, VerifyReceipt, ToCanonicalCbor, TypedFollows, Follows;
    if AllLink(rs) {
      forall i | 0 < i < |rs| ensures TypedFollows(Enrichments, rs[i - 1], rs[i]) {
        assert LinksAt(rs, i);
      }
      TypedChainAccepted(c, rs, key, Enrichments);
    }
    if VerifyHistory(c, Encoded(rs), key, Enrichments).Passed? {
      HistoryIff(c, Encoded(rs), key, Enrichments);
      forall i | 0 < i < |rs| ensures LinksAt(rs, i) {
        assert FollowsAt(c, Encoded(rs), key, Enrichments, i);
        FollowsBack(c, key, rs[i - 1], rs[i]);
      }
    }
  }

  /**
   Over any run of refreshes and submissions, the receipts the loop issued for a server are an accepted chain if
   and only if whatever was stored last before each of them has the hash of the one issued before.
   */
  lemma IssuedChainIff(c: Crypto, ryu: Ryu, s: Signer, events: seq<Event>, server: Str, key: Bytes)
    requires Signs(c, key, s.sign)
    ensures var h := History(c, ryu, s, events, server);
            VerifyHistory(c, Encoded(ByLoop(h)), key, Enrichments).Passed? <==> Uninterrupted(h)
  {
    hide VerifyReceiptSignature, VerifyHistory, History, ByLoop, Encoded, AllLink, Uninterrupted, TablesAfterAll, Signs;
    RunLinked(c, ryu, s, events, server, key);
    var h := History(c, ryu, s, events, server);
    LoopOnes(c, key, h);
    AcceptedIffLinked(c, ByLoop(h), key);
    IssuedLinkIff(h);
  }

  lemma SupersedesInPreimage(r: Receipt)
    requires r.body.EntryEnriched?
    ensures var hashed := Normalise(ToCborValue(r, true));
            && hashed.Map?
            && Lookup(hashed.pairs, SUPERSEDES_PRIOR) ==
               Some(if r.body.supersedesPrior.None? then Null else ByteString(r.body.supersedesPrior.value))
  {
    LinkFields(r.body);
    hide BodyFields, EnvelopeFields, Lookup, Sort, Ascii;
    NormaliseMap(Fields(r, true));
    assert forall j :: 0 <= j < |BodyFields(r.body)| ==> Fields(r, true)[j] == BodyFields(r.body)[j];
    LookupFirst(Fields(r, true), SUPERSEDES_PRIOR, 6);
    LookupDecoded(Fields(r, true), SUPERSEDES_PRIOR);
  }

  /** Equal hashes of enrichments mean equal back references, unless their preimages collide. */
  lemma HashBindsReference(c: Crypto, a: Receipt, b: Receipt)
    requires a.body.EntryEnriched? && b.body.EntryEnriched? && ComputeHash(c, a) == ComputeHash(c, b)
    requires NoCollision(c, Encode(ToCborValue(a, true)), Encode(ToCborValue(b, true)))
    ensures a.body.supersedesPrior == b.body.supersedesPrior
  {
    ReceiptEncodable(a, true);
    ReceiptEncodable(b, true);
    hide Encode, Normalise, Encodable, ToCborValue, Lookup, Ascii;
    EncodeInjective(ToCborValue(a, true), ToCborValue(b, true));
    SupersedesInPreimage(a);
    SupersedesInPreimage(b);
  }

  /**
   One submission stored between two issued receipts breaks the chain, unless its hash preimage collides with the
   earlier one's, or that receipt refers to its own hash.
   */
  lemma OneSubmissionBreaks(c: Crypto, ryu: Ryu, s: Signer, events: seq<Event>, server: Str, key: Bytes, p: nat)
    requires Signs(c, key, s.sign)
    requires var h := History(c, ryu, s, events, server);
             && Neighbours(h, p, p + 2)
             && h[p].receipt.body.supersedesPrior != Some(h[p].receipt.hash)
             && NoCollision(c, Encode(ToCborValue(h[p].receipt, true)), Encode(ToCborValue(h[p + 1].receipt, true)))
    ensures !VerifyHistory(c, Encoded(ByLoop(History(c, ryu, s, events, server))), key, Enrichments).Passed?
  {
    hide VerifyReceiptSignature, VerifyHistory, History, ByLoop, Encoded, TablesAfterAll, Signs, ComputeHash,
         ToCborValue, Encode, NoCollision;
    var h := History(c, ryu, s, events, server);
    IssuedChainIff(c, ryu, s, events, server, key);
    RunLinked(c, ryu, s, events, server, key);
    assert Sound(c, key, h[p]) && Sound(c, key, h[p + 1]) && RefersBack(h, p + 1);
    if PriorIsKept(h, p, p + 2) {
      HashBindsReference(c, h[p].receipt, h[p + 1].receipt);
    }
  }

  function Refreshes(attempts: seq<Attempt>): (r: seq<Event>)
    ensures |r| == |attempts| && forall i :: 0 <= i < |r| ==> r[i] == Refresh(attempts[i])
  {
    seq(|attempts|, i requires 0 <= i < |attempts| => Refresh(attempts[i]))
  }

  lemma ByLoopAppend(h: seq<Stored>, x: Stored)
    ensures ByLoop(h + [x]) == if x.byLoop then ByLoop(h) + [x.receipt] else ByLoop(h)
  {
    assert (h + [x])[..|h|] == h;
  }

  lemma {:induction false} OnlyRefreshes(c: Crypto, ryu: Ryu, s: Signer, attempts: seq<Attempt>, server: Str)
    ensures TablesAfterAll(c, ryu, s, Refreshes(attempts)) == TablesAfter(c, ryu, s, attempts)
    ensures var h := History(c, ryu, s, Refreshes(attempts), server);
            ByLoop(h) == Issued(c, ryu, s, attempts, server) && forall i :: 0 <= i < |h| ==> h[i].byLoop
  {
    hide Step, IssuedBy, ByLoop;
    if attempts == [] {
      NothingByLoop();
    } else {
      var init, last := attempts[..|attempts| - 1], attempts[|attempts| - 1];
      OnlyRefreshes(c, ryu, s, init, server);
      var all := Refreshes(attempts);
      assert all[..|all| - 1] == Refreshes(init) && all[|all| - 1] == Refresh(last);
      var newest := IssuedBy(c, ryu, s, TablesAfter(c, ryu, s, init), last);
      if last.server == server && newest.Some? {
        ByLoopAppend(History(c, ryu, s, Refreshes(init), server), Stored(newest.value, true));
      }
    }
  }

  lemma OneStepOrSubmission(h: seq<Stored>, p: nat, q: nat)
    requires Neighbours(h, p, q)
    ensures p + 1 < |h| && (q == p + 1 || !h[p + 1].byLoop)
  {
  }

  lemma NothingByLoop()
    ensures ByLoop([]) == []
  {
  }

  /** Without submissions a run is that of the loop alone, and all that is stored was issued. */
  lemma RefreshesAlone(c: Crypto, ryu: Ryu, s: Signer, attempts: seq<Attempt>, server: Str)
    ensures TablesAfterAll(c, ryu, s, Refreshes(attempts)) == TablesAfter(c, ryu, s, attempts)
    ensures var h := History(c, ryu, s, Refreshes(attempts), server);
            ByLoop(h) == Issued(c, ryu, s, attempts, server) && Uninterrupted(h)
  {
    OnlyRefreshes(c, ryu, s, attempts, server);
    hide History, TablesAfterAll, TablesAfter, Issued, ByLoop;
    var h := History(c, ryu, s, Refreshes(attempts), server);
    forall p: nat, q: nat | Neighbours(h, p, q) ensures PriorIsKept(h, p, q) {
      OneStepOrSubmission(h, p, q);
    }
  }
}
