/** Publisher enrichment: the payload, the store of declared hashes, and the refresh that chains receipts. */
module Enrichment {
  import opened ByteStrings
  import opened StableSort
  import opened Cbor
  import opened CborLaws
  import opened Receipts
  import opened Verify
  import opened Chains
  import opened Decimals
  import opened Hex
  import opened CanonicalJson
  import opened Embedding

  // ---- the payload ----

  datatype Declaration = Declaration(passport: Str, category: Str, minTier: Option<Str>, requiredAffinity: Option<Str>,
                                     graph: Json, declaredAt: Str)

  datatype Payload = Payload(declaration: Declaration, declaredUri: Str, declaredHash: Digest, verificationMethod: Str,
                             refreshInterval: Option<u64>)

  function OptionalText(t: Option<Str>): CborValue { if t.None? then Null else Text(t.value) }

  const CAPABILITY_GRAPH := Ascii("capability_graph")

  /** `PublisherEnrichmentPayload::to_cbor_value`; it fails only where the graph cannot be embedded. */
  function PayloadFields(p: Payload): Option<seq<Pair>> {
    var graph := JsonToCbor(p.declaration.graph);
    if graph.None? then None
    else
      Some([
        (Ascii("category"), Text(p.declaration.category)),
        (Ascii("min_tier"), OptionalText(p.declaration.minTier)),
        (Ascii("required_affinity"), OptionalText(p.declaration.requiredAffinity)),
        (CAPABILITY_GRAPH, graph.value),
        (Ascii("declared_at"), Text(p.declaration.declaredAt)),
        (Ascii("declared_uri"), Text(p.declaredUri)),
        (Ascii("declared_hash"), Text(Prefixed(p.declaredHash))),
        (Ascii("publisher_rights_verified"), Bool(true)),
        (Ascii("verification_method"), Text(p.verificationMethod)),
        (Ascii("refresh_interval_seconds"), if p.refreshInterval.None? then Null else Uint(p.refreshInterval.value)) ])
  }

  /** The octets a receipt carries as `enrichment_bytes`; longer buffers than memory holds do not occur. */
  function PayloadBytes(p: Payload): Option<Blob> {
    var fields := PayloadFields(p);
    if fields.None? then None
    else
      var bytes := Encode(Map(fields.value));
      if |bytes| < U64 then Some(bytes) else None
  }

  lemma PrefixedIsText(hash: Digest)
    ensures WellFormedText(Prefixed(hash))
  {
    HexTextIsLowerHex(hash);
    AsciiIsUtf8(Prefixed(hash));
  }

  lemma NameIsText(name: string)
    requires |name| < 64
    ensures WellFormedText(Ascii(name))
  {
    AsciiIsUtf8(Ascii(name));
  }

  lemma PayloadEncodable(p: Payload)
    requires Proper(p.declaration.graph) && Sized(p.declaration.graph) && PayloadFields(p).Some?
    ensures Encodable(Map(PayloadFields(p).value))
  {
    hide WellFormedText, Ascii, JsonToCbor, Proper, Sized;
    ConvertedEncodable(p.declaration.graph);
    PrefixedIsText(p.declaredHash);
    NameIsText("category");
    NameIsText("min_tier");
    NameIsText("required_affinity");
    NameIsText("capability_graph");
    NameIsText("declared_at");
    NameIsText("declared_uri");
    NameIsText("declared_hash");
    NameIsText("publisher_rights_verified");
    NameIsText("verification_method");
    NameIsText("refresh_interval_seconds");
    EncodablePairs(PayloadFields(p).value);
  }

  lemma GraphField(p: Payload)
    requires PayloadFields(p).Some?
    ensures Lookup(PayloadFields(p).value, CAPABILITY_GRAPH) == JsonToCbor(p.declaration.graph)
  {
    hide JsonToCbor, Encode;
    LookupFirst(PayloadFields(p).value, CAPABILITY_GRAPH, 3);
  }

  /** A reader of the enrichment bytes gets back the declared graph, down to its canonical text. */
  lemma GraphSurvives(ryu: Ryu, p: Payload)
    requires Proper(p.declaration.graph) && Sized(p.declaration.graph) && PayloadBytes(p).Some?
    ensures var decoded := Decode(Rust, PayloadBytes(p).value);
            && decoded.Some? && decoded.value.Map?
            && Lookup(decoded.value.pairs, CAPABILITY_GRAPH).Some?
            && JsonText(ryu, ToJson(Lookup(decoded.value.pairs, CAPABILITY_GRAPH).value)) ==
              JsonText(ryu, p.declaration.graph)
  {
    hide PayloadFields, Encode, Decode, Normalise, Lookup, JsonText, ToJson, JsonToCbor, Proper, Sized, Encodable, Sort;
    var fields := PayloadFields(p).value;
    PayloadEncodable(p);
    RustReads(Map(fields));
    NormaliseMap(fields);
    GraphField(p);
    LookupDecoded(fields, CAPABILITY_GRAPH);
    PayloadGraph(p);
    RenderedBack(p.declaration.graph);
    TextOfNormal(ryu, p.declaration.graph);
    TextOfNormal(ryu, ToJson(Normalise(JsonToCbor(p.declaration.graph).value)));
  }

  lemma PayloadGraph(p: Payload)
    requires PayloadFields(p).Some?
    ensures JsonToCbor(p.declaration.graph).Some?
  {
  }

  // ---- the store ----

  /** What `get` hands back of a record: the two hashes, as prefixed text. */
  datatype Record = Record(declaredHash: Bytes, receiptHash: Bytes)

  datatype HashRow = HashRow(declaredHash: Digest, receiptHash: Digest)

  /** The enrichment table and its sidecar, which remembers the text of the superseded hash. */
  datatype Tables = Tables(hashes: map<Bytes, HashRow>, superseded: map<Bytes, Option<Bytes>>)

  /** How the two inserts of an upsert go. */
  datatype Inserts = BothDone | FirstFails | SecondFails

  function Fetch(t: Tables, name: Bytes): Option<Record> {
    if name in t.hashes then
      Some(Record(Prefixed(t.hashes[name].declaredHash), Prefixed(t.hashes[name].receiptHash)))
    else None
  }

  function Upserted(t: Tables, name: Bytes, record: Record, supersedes: Option<Bytes>, inserts: Inserts): Tables {
    var declared, receipt := ParsePrefixed(record.declaredHash), ParsePrefixed(record.receiptHash);
    if declared.None? || receipt.None? || inserts.FirstFails? then t
    else
      Tables(t.hashes[name := HashRow(declared.value, receipt.value)],
             if inserts.SecondFails? then t.superseded else t.superseded[name := supersedes])
  }

  class EnrichmentStore {
    var hashes: map<Bytes, HashRow>
    var superseded: map<Bytes, Option<Bytes>>

    function Contents(): Tables
      reads this
    {
      Tables(hashes, superseded)
    }

    constructor ()
      ensures Contents() == Tables(map[], map[])
    {
      hashes, superseded := map[], map[];
    }

    method Get(name: Bytes) returns (record: Option<Record>)
      ensures record == Fetch(Contents(), name)
    {
      if name !in hashes {
        return None;
      }
      record := Some(Record(Prefixed(hashes[name].declaredHash), Prefixed(hashes[name].receiptHash)));
    }

    method Upsert(name: Bytes, record: Record, supersedes: Option<Bytes>, inserts: Inserts) returns (ok: bool)
      modifies this
      ensures Contents() == Upserted(old(Contents()), name, record, supersedes, inserts)
      ensures ok <==>
              ParsePrefixed(record.declaredHash).Some? && ParsePrefixed(record.receiptHash).Some? && inserts.BothDone?
    {
      var declared, receipt := ParsePrefixed(record.declaredHash), ParsePrefixed(record.receiptHash);
      if declared.None? || receipt.None? || inserts.FirstFails? {
        return false;
      }
      hashes := hashes[name := HashRow(declared.value, receipt.value)];
      if inserts.SecondFails? {
        return false;
      }
      superseded := superseded[name := supersedes];
      ok := true;
    }
  }

  // ---- one refresh ----

  /**
   One call of `refresh_one`: the fetched document with its declaration and the verification method of
   the publisher's rights (`None` when fetching, validation or the rights lookup fails), and how
   signing and storing go.
   */
  datatype Attempt = Attempt(server: Str, found: Option<Found>, eventId: Ulid, refreshInterval: Option<u64>,
                             signerAnswers: bool, inserts: Inserts)

  datatype Found = Found(raw: Json, declaration: Declaration, declaredUri: Str, verificationMethod: Str)

  datatype Outcome = Refreshed | Unchanged | Rejected

  datatype Signer = Signer(sign: Bytes -> Signature, kid: Str)

  function DeclaredHash(c: Crypto, ryu: Ryu, raw: Json): Digest { c.hash(JsonText(ryu, raw)) }

  function ParsedHash(record: Option<Record>): Option<Digest> {
    if record.None? then None else ParsePrefixed(record.value.declaredHash)
  }

  function ParsedReceiptHash(record: Option<Record>): Option<Digest> {
    if record.None? then None else ParsePrefixed(record.value.receiptHash)
  }

  function EnrichmentBody(a: Attempt, f: Found, declaredHash: Digest, bytes: Blob, supersedes: Option<Digest>): Body {
    EntryEnriched(a.eventId, a.server, f.declaration.passport, f.declaredUri, declaredHash, bytes, supersedes)
  }

  /** The receipt a refresh signs, or why there is none. */
  datatype Drafted = Nothing(outcome: Outcome) | Signed(receipt: Receipt)

  function Draft(c: Crypto, ryu: Ryu, s: Signer, prior: Option<Record>, a: Attempt): (d: Drafted)
    ensures d.Signed? ==> d.receipt.body.EntryEnriched?
    ensures d.Nothing? ==> !d.outcome.Refreshed?
  {
    if a.found.None? then Nothing(Rejected)
    else
      var f := a.found.value;
      var declaredHash := DeclaredHash(c, ryu, f.raw);
      if ParsedHash(prior) == Some(declaredHash) then Nothing(Unchanged)
      else
        var bytes := PayloadBytes(Payload(f.declaration, f.declaredUri, declaredHash, f.verificationMethod,
                                          a.refreshInterval));
        if bytes.None? || !a.signerAnswers then Nothing(Rejected)
        else Signed(Mint(c, EnrichmentBody(a, f, declaredHash, bytes.value, ParsedReceiptHash(prior)), s.kid, s.sign))
  }

  function RecordOf(receipt: Receipt): Record
    requires receipt.body.EntryEnriched?
  {
    Record(Prefixed(receipt.body.declaredHash), Prefixed(receipt.hash))
  }

  function PriorText(prior: Option<Record>): Option<Bytes> {
    if prior.None? then None else Some(prior.value.receiptHash)
  }

  /** The tables after one refresh. */
  function Step(c: Crypto, ryu: Ryu, s: Signer, t: Tables, a: Attempt): Tables {
    var prior := Fetch(t, a.server);
    var draft := Draft(c, ryu, s, prior, a);
    if draft.Nothing? then t
    else Upserted(t, a.server, RecordOf(draft.receipt), PriorText(prior), a.inserts)
  }

  /** The receipt a refresh issues: signed, and its hash stored as the server's latest. */
  function IssuedBy(c: Crypto, ryu: Ryu, s: Signer, t: Tables, a: Attempt): (r: Option<Receipt>)
    ensures r.Some? ==> r.value.body.EntryEnriched?
  {
    var draft := Draft(c, ryu, s, Fetch(t, a.server), a);
    if draft.Nothing? || a.inserts.FirstFails? then None else Some(draft.receipt)
  }

  class EnrichLoop {
    const store: EnrichmentStore

    constructor ()
      ensures fresh(store) && store.Contents() == Tables(map[], map[])
    {
      store := new EnrichmentStore();
    }

    /** `refresh_one`; the Rust code keeps only the hash of the receipt. */
    method RefreshOne(c: Crypto, ryu: Ryu, s: Signer, a: Attempt) returns (outcome: Outcome, issued: Option<Receipt>)
      modifies store
      ensures store.Contents() == Step(c, ryu, s, old(store.Contents()), a)
      ensures issued == IssuedBy(c, ryu, s, old(store.Contents()), a)
      ensures outcome.Refreshed? <==> issued.Some? && a.inserts.BothDone?
    {
      hide PayloadBytes, JsonText, ParsePrefixed, Prefixed, ToCanonicalCbor, ComputeHash;
      if a.found.None? {
        return Rejected, None;
      }
      var found := a.found.value;
      var prior := store.Get(a.server);
      var declaredHash := DeclaredHash(c, ryu, found.raw);
      if ParsedHash(prior) == Some(declaredHash) {
        return Unchanged, None;
      }
      var payload := Payload(found.declaration, found.declaredUri, declaredHash, found.verificationMethod,
                             a.refreshInterval);
      var bytes := PayloadBytes(payload);
      if bytes.None? {
        return Rejected, None;
      }
      var body := EnrichmentBody(a, found, declaredHash, bytes.value, ParsedReceiptHash(prior));
      var receipt := Receipt(body, Zeros(HASH_LEN), Zeros(SIGNATURE_LEN), s.kid);
      receipt := receipt.(hash := ComputeHash(c, receipt));
      var signingBytes := ToCanonicalCbor(receipt);
      if !a.signerAnswers {
        return Rejected, None;
      }
      receipt := receipt.(signature := s.sign(signingBytes));
      PrefixedRoundTrip(declaredHash);
      PrefixedRoundTrip(receipt.hash);
      var ok := store.Upsert(a.server, RecordOf(receipt), PriorText(prior), a.inserts);
      outcome := if ok then Refreshed else Rejected;
      issued := if a.inserts.FirstFails? then None else Some(receipt);
    }
  }

  // ---- every run ----

  function TablesAfter(c: Crypto, ryu: Ryu, s: Signer, attempts: seq<Attempt>): Tables {
    if attempts == [] then Tables(map[], map[])
    else Step(c, ryu, s, TablesAfter(c, ryu, s, attempts[..|attempts| - 1]), attempts[|attempts| - 1])
  }

  /** The receipts a run issues for one server, oldest first. */
  function Issued(c: Crypto, ryu: Ryu, s: Signer, attempts: seq<Attempt>, server: Str): (r: seq<Receipt>)
    ensures forall i :: 0 <= i < |r| ==> r[i].body.EntryEnriched?
  {
    if attempts == [] then []
    else
      var init, last := attempts[..|attempts| - 1], attempts[|attempts| - 1];
      var before := Issued(c, ryu, s, init, server);
      var newest := IssuedBy(c, ryu, s, TablesAfter(c, ryu, s, init), last);
      if last.server == server && newest.Some? then before + [newest.value] else before
  }

  method RunAll(c: Crypto, ryu: Ryu, s: Signer, attempts: seq<Attempt>, server: Str) returns (receipts: seq<Receipt>)
    ensures receipts == Issued(c, ryu, s, attempts, server)
  {
    hide Step, IssuedBy;
    var loop := new EnrichLoop();
    receipts := [];
    for i := 0 to |attempts|
      invariant fresh(loop.store) && loop.store.Contents() == TablesAfter(c, ryu, s, attempts[..i])
      invariant receipts == Issued(c, ryu, s, attempts[..i], server)
    {
      assert attempts[..i + 1][..i] == attempts[..i];
      var outcome, issued := loop.RefreshOne(c, ryu, s, attempts[i]);
      if attempts[i].server == server && issued.Some? {
        receipts := receipts + [issued.value];
      }
    }
    assert attempts[..|attempts|] == attempts;
  }

  ghost predicate LinkedAt(receipts: seq<Receipt>, i: nat) {
    && 0 < i < |receipts| && receipts[i - 1].body.EntryEnriched?
    && TypedFollows(Enrichments, receipts[i - 1], receipts[i])
    && receipts[i].body.declaredHash != receipts[i - 1].body.declaredHash
  }

  /** The issued receipts form a chain from a first without predecessor, and the table remembers its tip. */
  ghost predicate Chained(c: Crypto, key: Bytes, t: Tables, server: Bytes, receipts: seq<Receipt>) {
    && (forall i :: 0 <= i < |receipts| ==> VerifyReceiptSignature(c, receipts[i], key) == Valid)
    && (forall i :: 0 < i < |receipts| ==> LinkedAt(receipts, i))
    && (receipts != [] ==> receipts[0].body.EntryEnriched? && receipts[0].body.supersedesPrior.None?)
    && (server in t.hashes <==> receipts != [])
    && (receipts != [] ==> Tip(receipts).body.EntryEnriched?
                           && t.hashes[server] == HashRow(Tip(receipts).body.declaredHash, Tip(receipts).hash))
  }

  function Tip(receipts: seq<Receipt>): Receipt
    requires receipts != []
  {
    receipts[|receipts| - 1]
  }

  /** What a newly issued receipt looks like from the tables it was drafted over. */
  lemma IssuedFacts(c: Crypto, ryu: Ryu, s: Signer, t: Tables, a: Attempt, key: Bytes)
    requires Signs(c, key, s.sign) && IssuedBy(c, ryu, s, t, a).Some?
    ensures var r := IssuedBy(c, ryu, s, t, a).value;
            && VerifyReceiptSignature(c, r, key) == Valid
            && r.body.supersedesPrior == (if a.server in t.hashes then Some(t.hashes[a.server].receiptHash) else None)
            && (a.server in t.hashes ==> r.body.declaredHash != t.hashes[a.server].declaredHash)
  {
    hide PayloadBytes, JsonText, ToCanonicalCbor, ComputeHash, VerifyReceiptSignature, VerifyReceipt, Prefixed,
         ParsePrefixed;
    var f := a.found.value;
    var r := IssuedBy(c, ryu, s, t, a).value;
    if a.server in t.hashes {
      PrefixedRoundTrip(t.hashes[a.server].declaredHash);
      PrefixedRoundTrip(t.hashes[a.server].receiptHash);
    }
    MintedVerifies(c, r.body, s.kid, s.sign, key);
  }

  /** What a step does to the hashes of each server. */
  lemma StepHashes(c: Crypto, ryu: Ryu, s: Signer, t: Tables, a: Attempt)
    ensures var r := IssuedBy(c, ryu, s, t, a);
            Step(c, ryu, s, t, a).hashes ==
            if r.None? then t.hashes else t.hashes[a.server := HashRow(r.value.body.declaredHash, r.value.hash)]
  {
    hide Draft, Prefixed, ParsePrefixed;
    var draft := Draft(c, ryu, s, Fetch(t, a.server), a);
    if draft.Signed? {
      PrefixedRoundTrip(draft.receipt.body.declaredHash);
      PrefixedRoundTrip(draft.receipt.hash);
    }
  }

  lemma ExtendChain(c: Crypto, key: Bytes, before: Tables, after: Tables, server: Bytes, receipts: seq<Receipt>,
                    r: Receipt)
    requires Chained(c, key, before, server, receipts) && r.body.EntryEnriched?
    requires VerifyReceiptSignature(c, r, key) == Valid
    requires r.body.supersedesPrior == if server in before.hashes then Some(before.hashes[server].receiptHash) else None
    requires server in before.hashes ==> r.body.declaredHash != before.hashes[server].declaredHash
    requires after.hashes == before.hashes[server := HashRow(r.body.declaredHash, r.hash)]
    ensures Chained(c, key, after, server, receipts + [r])
  {
    hide VerifyReceiptSignature;
    forall i | 0 < i <= |receipts| ensures LinkedAt(receipts + [r], i) {
      assert i < |receipts| ==> LinkedAt(receipts, i);
    }
  }

  lemma {:induction false} RunChained(c: Crypto, ryu: Ryu, s: Signer, attempts: seq<Attempt>, server: Str, key: Bytes)
    requires Signs(c, key, s.sign)
    ensures Chained(c, key, TablesAfter(c, ryu, s, attempts), server, Issued(c, ryu, s, attempts, server))
  {
    hide VerifyReceiptSignature, Step, IssuedBy, LinkedAt, Signs;
    if attempts != [] {
      var init, last := attempts[..|attempts| - 1], attempts[|attempts| - 1];
      RunChained(c, ryu, s, init, server, key);
      var before := TablesAfter(c, ryu, s, init);
      StepHashes(c, ryu, s, before, last);
      var r := IssuedBy(c, ryu, s, before, last);
      if r.Some? {
        IssuedFacts(c, ryu, s, before, last, key);
        if last.server == server {
          ExtendChain(c, key, before, TablesAfter(c, ryu, s, attempts), server, Issued(c, ryu, s, init, server),
                      r.value);
        }
      }
    }
  }

  /**
   After any run of refreshes from empty tables, some failing to fetch, to sign or to store, the
   receipts issued for one server are an enrichment chain the verifier accepts, and no two neighbours
   in it declare the same document.
   */
  lemma EveryRunIssuesAChain(c: Crypto, ryu: Ryu, s: Signer, attempts: seq<Attempt>, server: Str, key: Bytes)
    requires Signs(c, key, s.sign)
    ensures var receipts := Issued(c, ryu, s, attempts, server);
            && VerifyHistory(c, Encoded(receipts), key, Enrichments).Passed?
            && forall i {:trigger receipts[i]} :: 0 < i < |receipts| ==>
                 receipts[i].body.declaredHash != receipts[i - 1].body.declaredHash
  {
    RunChained(c, ryu, s, attempts, server, key);
    hide VerifyReceiptSignature, VerifyHistory, Issued, TablesAfter, Signs, ToCanonicalCbor, TypedFollows;
    var receipts := Issued(c, ryu, s, attempts, server);
    forall i | 0 < i < |receipts|
      ensures TypedFollows(Enrichments, receipts[i - 1], receipts[i])
              && receipts[i].body.declaredHash != receipts[i - 1].body.declaredHash
    {
      assert LinkedAt(receipts, i);
    }
    TypedChainAccepted(c, receipts, key, Enrichments);
  }
}
