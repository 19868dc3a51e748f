/**
 The chain checks of the Python reimplementation, which also ask for a first link without predecessor
 and for times that do not run backwards, and that everything the two loops publish passes them.
 */
module StrictChains {
  import opened ByteStrings
  import opened StableSort
  import opened Cbor
  import opened Receipts
  import opened Verify
  import opened Chains
  import opened PythonVerify
  import Gates
  import Minted
  import Decimals
  import Enrichment
  import Sync

  const SCRAPED_AT := Ascii("scraped_at")

  predicate IsHash(v: CborValue) { v.ByteString? && |v.bytes| == HASH_LEN }

  /** One verdict of `check_snapshot_chain`. */
  predicate SnapshotLinkOk(chain: seq<seq<Pair>>, i: nat)
    requires i < |chain|
  {
    var link, root, time := Unique(chain[i], PREVIOUS_SNAPSHOT_HASH), Unique(chain[i], SNAPSHOT_ROOT),
        Unique(chain[i], SCRAPED_AT);
    && root.Some? && IsHash(root.value)
    && (if i == 0 then link == Some(Null) else link.Some? && link == Unique(chain[i - 1], SNAPSHOT_ROOT))
    && time.Some? && time.value.Uint?
    && (i > 0 ==> var before := Unique(chain[i - 1], SCRAPED_AT);
                  before.Some? && before.value.Uint? ==> before.value.number <= time.value.number)
  }

  predicate AllOfType(chain: seq<seq<Pair>>, t: ReceiptType) {
    forall i :: 0 <= i < |chain| ==> Validate(chain[i]) == Some(t)
  }

  /** What a validated snapshot holds under the three names the check looks at. */
  lemma SnapshotHolds(fields: seq<Pair>)
    requires Validate(fields) == Some(SnapshotType)
    ensures var root: Option<CborValue> := Lookup(fields, SNAPSHOT_ROOT);
            root.Some? && IsHash(root.value) && Unique(fields, SNAPSHOT_ROOT) == root
    ensures var time: Option<CborValue> := Lookup(fields, SCRAPED_AT);
            time == Some(Uint(NumberAt(fields, SCRAPED_AT))) && Unique(fields, SCRAPED_AT) == time
    ensures var back: Option<CborValue> := Lookup(fields, PREVIOUS_SNAPSHOT_HASH);
            back.Some? && Unique(fields, PREVIOUS_SNAPSHOT_HASH) == back
  {
    hide Ascii, Unique, Lookup, IsCounts, HasFields;
    UniqueIfDistinct(fields, SNAPSHOT_ROOT);
    UniqueIfDistinct(fields, SCRAPED_AT);
    UniqueIfDistinct(fields, PREVIOUS_SNAPSHOT_HASH);
    var schema := SchemaOf(SnapshotType);
    assert FieldConforms(fields, schema[2].0, schema[2].1) && FieldConforms(fields, schema[4].0, schema[4].1);
    assert FieldConforms(fields, schema[5].0, schema[5].1);
  }

  /** `check_snapshot_chain`; `None` is the error raised at a receipt that is not a valid snapshot. */
  method CheckSnapshotChain(chain: seq<seq<Pair>>) returns (results: Option<seq<bool>>)
    ensures results.Some? <==> AllOfType(chain, SnapshotType)
    ensures results.Some? ==>
              |results.value| == |chain| && forall i :: 0 <= i < |chain| ==>
                results.value[i] == SnapshotLinkOk(chain, i)
  {
    hide Unique, Ascii, Lookup, Validate;
    var verdicts: seq<bool> := [];
    var previousRoot: Option<CborValue>, previousTime: Option<u64> := None, None;
    for index := 0 to |chain|
      invariant forall i :: 0 <= i < index ==> Validate(chain[i]) == Some(SnapshotType)
      invariant |verdicts| == index && forall i :: 0 <= i < index ==> verdicts[i] == SnapshotLinkOk(chain, i)
      invariant if index == 0 then previousTime.None?
                else previousRoot == Unique(chain[index - 1], SNAPSHOT_ROOT) && previousTime.Some?
                     && Unique(chain[index - 1], SCRAPED_AT) == Some(Uint(previousTime.value))
    {
      if Validate(chain[index]) != Some(SnapshotType) {
        return None;
      }
      SnapshotHolds(chain[index]);
      var link, root := Unique(chain[index], PREVIOUS_SNAPSHOT_HASH).value, Unique(chain[index], SNAPSHOT_ROOT).value;
      var time := Unique(chain[index], SCRAPED_AT).value.number;
      var linkValid := if index == 0 then link == Null else Some(link) == previousRoot;
      if !IsHash(root) {
        linkValid := false;
      }
      if previousTime.Some? && time < previousTime.value {
        linkValid := false;
      }
      verdicts := verdicts + [linkValid];
      previousRoot, previousTime := Some(root), Some(time);
    }
    results := Some(verdicts);
  }

  /** One verdict of `check_enrichment_chain`. */
  predicate EnrichmentLinkOk(chain: seq<seq<Pair>>, i: nat)
    requires i < |chain|
  {
    var link, hash := Unique(chain[i], SUPERSEDES_PRIOR), Unique(chain[i], RECEIPT_HASH);
    && hash.Some? && IsHash(hash.value)
    && (if i == 0 then link == Some(Null) else link.Some? && link == Unique(chain[i - 1], RECEIPT_HASH))
  }

  /** What a validated enrichment holds under the two names the check looks at. */
  lemma EnrichmentHolds(fields: seq<Pair>)
    requires Validate(fields) == Some(EnrichedType)
    ensures var hash: Option<CborValue> := Lookup(fields, RECEIPT_HASH);
            hash.Some? && IsHash(hash.value) && Unique(fields, RECEIPT_HASH) == hash
    ensures var back: Option<CborValue> := Lookup(fields, SUPERSEDES_PRIOR);
            back.Some? && Unique(fields, SUPERSEDES_PRIOR) == back
  {
    hide Ascii, Unique, Lookup, IsCounts, HasFields;
    UniqueIfDistinct(fields, RECEIPT_HASH);
    UniqueIfDistinct(fields, SUPERSEDES_PRIOR);
    var schema := SchemaOf(EnrichedType);
    assert FieldConforms(fields, schema[6].0, schema[6].1) && FieldConforms(fields, schema[7].0, schema[7].1);
  }

  /** `check_enrichment_chain`; `None` is the error raised at a receipt that is not a valid enrichment. */
  method CheckEnrichmentChain(chain: seq<seq<Pair>>) returns (results: Option<seq<bool>>)
    ensures results.Some? <==> AllOfType(chain, EnrichedType)
    ensures results.Some? ==>
              |results.value| == |chain| && forall i :: 0 <= i < |chain| ==>
                results.value[i] == EnrichmentLinkOk(chain, i)
  {
    hide Unique, Ascii, Lookup, Validate;
    var verdicts: seq<bool> := [];
    var previousHash: Option<CborValue> := None;
    for index := 0 to |chain|
      invariant forall i :: 0 <= i < index ==> Validate(chain[i]) == Some(EnrichedType)
      invariant |verdicts| == index && forall i :: 0 <= i < index ==> verdicts[i] == EnrichmentLinkOk(chain, i)
      invariant index > 0 ==> previousHash == Unique(chain[index - 1], RECEIPT_HASH)
    {
      if Validate(chain[index]) != Some(EnrichedType) {
        return None;
      }
      EnrichmentHolds(chain[index]);
      var link, hash := Unique(chain[index], SUPERSEDES_PRIOR).value, Unique(chain[index], RECEIPT_HASH).value;
      var linkValid := if index == 0 then link == Null else Some(link) == previousHash;
      if !IsHash(hash) {
        linkValid := false;
      }
      verdicts := verdicts + [linkValid];
      previousHash := Some(hash);
    }
    results := Some(verdicts);
  }

  // ---- what the verdicts say ----

  /** A verdict: no predecessor at first, then the root of the link before, no earlier than it. */
  lemma SnapshotVerdict(chain: seq<seq<Pair>>, i: nat)
    requires AllOfType(chain, SnapshotType) && i < |chain|
    ensures SnapshotLinkOk(chain, i) <==>
            var back: Option<CborValue> := Lookup(chain[i], Ascii("previous_snapshot_hash"));
            if i == 0 then back == Some(Null)
            else
              && back == Lookup(chain[i - 1], Ascii("snapshot_merkle_root"))
              && NumberAt(chain[i - 1], Ascii("scraped_at")) <= NumberAt(chain[i], Ascii("scraped_at"))
  {
    hide Ascii, Unique, Lookup, Validate, NumberAt;
    SnapshotHolds(chain[i]);
    if i > 0 { SnapshotHolds(chain[i - 1]); }
  }

  /** The root an accepted receipt reports is the one it holds, and so is the hash. */
  lemma ReportedFacts(c: Crypto, bs: Bytes, key: Bytes)
    requires VerifyReceipt(c, bs, key).Passed?
    ensures VerifyReceipt(c, bs, key).value.snapshotRoot == RootOf(FieldsOf(bs))
    ensures Lookup(FieldsOf(bs), RECEIPT_HASH) == Some(ByteString(VerifyReceipt(c, bs, key).value.receiptHash))
    ensures |VerifyReceipt(c, bs, key).value.receiptHash| == HASH_LEN
  {
    AcceptedReceipt(c, bs, key, FieldsOf(bs));
    hide VerifyReceipt, TakeKid, RootOf, HashPreimage, SigningPreimage, Gates.IsEncodingOf, Lookup, Ascii;
  }

  lemma SnapshotFollows(c: Crypto, prior: Bytes, next: Bytes, key: Bytes)
    requires VerifyReceipt(c, prior, key).Passed? && Validate(FieldsOf(prior)) == Some(SnapshotType)
    ensures Follows(c, Snapshots, prior, next, key) <==>
            Lookup(FieldsOf(next), PREVIOUS_SNAPSHOT_HASH) == Lookup(FieldsOf(prior), SNAPSHOT_ROOT)
  {
    hide Ascii, Unique, Lookup, Validate, NumberAt, VerifyReceipt, FieldsOf;
    SnapshotHolds(FieldsOf(prior));
    ReportedFacts(c, prior, key);
  }

  /**
   On verified snapshots the stricter check says yes at every link exactly if the history is accepted, the first
   link names no predecessor, and the times of scraping never run backwards.
   */
  lemma SnapshotCheckIff(c: Crypto, links: seq<Bytes>, key: Bytes)
    requires forall i :: 0 <= i < |links| ==> VerifyReceipt(c, links[i], key).Passed?
    requires AllOfType(Maps(links), SnapshotType)
    ensures (forall i :: 0 <= i < |links| ==> SnapshotLinkOk(Maps(links), i)) <==>
            && VerifyHistory(c, links, key, Snapshots).Passed?
            && (links != [] ==> Lookup(FieldsOf(links[0]), Ascii("previous_snapshot_hash")) == Some(Null))
            && (forall i :: 0 < i < |links| ==> ScrapedInOrder(links, i))
  {
    hide Ascii, Unique, Lookup, Validate, NumberAt, VerifyReceipt, VerifyHistory, FieldsOf, SnapshotLinkOk;
    HistoryIff(c, links, key, Snapshots);
    var chain := Maps(links);
    forall i | 0 <= i < |links|
      ensures SnapshotLinkOk(chain, i) <==>
              if i == 0 then Lookup(chain[0], PREVIOUS_SNAPSHOT_HASH) == Some(Null)
              else FollowsAt(c, links, key, Snapshots, i) && ScrapedInOrder(links, i)
    {
      SnapshotVerdict(chain, i);
      if i > 0 { SnapshotFollows(c, links[i - 1], links[i], key); }
    }
    hide FollowsAt, ScrapedInOrder;
    if links != [] { assert SnapshotLinkOk(chain, 0) <==> Lookup(chain[0], PREVIOUS_SNAPSHOT_HASH) == Some(Null); }
  }

  /** Link `i` was scraped no earlier than the one before it. */
  ghost predicate ScrapedInOrder(links: seq<Bytes>, i: nat)
    requires 0 < i < |links|
  {
    NumberAt(FieldsOf(links[i - 1]), Ascii("scraped_at")) <= NumberAt(FieldsOf(links[i]), Ascii("scraped_at"))
  }

  /** A verdict: nothing superseded at first, then the receipt hash of the link before. */
  lemma EnrichmentVerdict(chain: seq<seq<Pair>>, i: nat)
    requires AllOfType(chain, EnrichedType) && i < |chain|
    ensures EnrichmentLinkOk(chain, i) <==>
            Lookup(chain[i], Ascii("supersedes_prior")) ==
            if i == 0 then Some(Null) else Lookup(chain[i - 1], Ascii("receipt_hash"))
  {
    hide Ascii, Unique, Lookup, Validate;
    EnrichmentHolds(chain[i]);
    if i > 0 { EnrichmentHolds(chain[i - 1]); }
  }

  /**
   On verified enrichments the stricter check says yes at every link exactly if the history is accepted and the
   first link supersedes nothing.
   */
  lemma EnrichmentCheckIff(c: Crypto, links: seq<Bytes>, key: Bytes)
    requires forall i :: 0 <= i < |links| ==> VerifyReceipt(c, links[i], key).Passed?
    requires AllOfType(Maps(links), EnrichedType)
    ensures (forall i :: 0 <= i < |links| ==> EnrichmentLinkOk(Maps(links), i)) <==>
            && VerifyHistory(c, links, key, Enrichments).Passed?
            && (links != [] ==> Lookup(FieldsOf(links[0]), Ascii("supersedes_prior")) == Some(Null))
  {
    hide Ascii, Unique, Lookup, Validate, VerifyReceipt, VerifyHistory, FieldsOf, EnrichmentLinkOk;
    HistoryIff(c, links, key, Enrichments);
    var chain := Maps(links);
    forall i | 0 <= i < |links|
      ensures EnrichmentLinkOk(chain, i) <==>
              if i == 0 then Lookup(chain[0], SUPERSEDES_PRIOR) == Some(Null)
              else FollowsAt(c, links, key, Enrichments, i)
    {
      EnrichmentVerdict(chain, i);
      if i > 0 { ReportedFacts(c, links[i - 1], key); }
    }
    hide FollowsAt;
    if links != [] { assert EnrichmentLinkOk(chain, 0) <==> Lookup(chain[0], SUPERSEDES_PRIOR) == Some(Null); }
  }

  // ---- typed receipts as decoded maps ----

  function Maps(links: seq<Bytes>): (r: seq<seq<Pair>>)
    ensures |r| == |links| && forall i :: 0 <= i < |r| ==> r[i] == FieldsOf(links[i])
  {
    seq(|links|, i requires 0 <= i < |links| => FieldsOf(links[i]))
  }

  function LinkValue(h: Option<Digest>): CborValue { if h.None? then Null else ByteString(h.value) }

  lemma SnapshotDecoded(r: Receipt)
    requires r.body.RegistrySnapshot?
    ensures var fields := FieldsOf(ToCanonicalCbor(r));
            && Unique(fields, PREVIOUS_SNAPSHOT_HASH) == Some(LinkValue(r.body.previousSnapshotHash))
            && Unique(fields, SNAPSHOT_ROOT) == Some(ByteString(r.body.snapshotRoot))
            && Unique(fields, SCRAPED_AT) == Some(Uint(r.body.scrapedAt))
  {
    hide BodyFields, Lookup, FieldsOf, ToCanonicalCbor, Ascii, Unique, DistinctKeys;
    var fields := FieldsOf(ToCanonicalCbor(r));
    Minted.ReceiptDecodesPlain(r);
    SnapshotPlaces(r.body);
    UniqueIfDistinct(fields, PREVIOUS_SNAPSHOT_HASH);
    UniqueIfDistinct(fields, SNAPSHOT_ROOT);
    UniqueIfDistinct(fields, SCRAPED_AT);
    LookupInBody(r, PREVIOUS_SNAPSHOT_HASH, 5);
    LookupInBody(r, SNAPSHOT_ROOT, 4);
    LookupInBody(r, SCRAPED_AT, 2);
  }

  lemma SnapshotPlaces(b: Body)
    requires b.RegistrySnapshot?
    ensures var f := BodyFields(b);
            && |f| == 9 && f[2] == (SCRAPED_AT, Uint(b.scrapedAt))
              && f[4] == (SNAPSHOT_ROOT, ByteString(b.snapshotRoot))
            && f[5] == (PREVIOUS_SNAPSHOT_HASH, LinkValue(b.previousSnapshotHash))
            && (forall j :: 0 <= j < 2 ==> f[j].0 != SCRAPED_AT)
            && (forall j :: 0 <= j < 4 ==> f[j].0 != SNAPSHOT_ROOT)
            && (forall j :: 0 <= j < 5 ==> f[j].0 != PREVIOUS_SNAPSHOT_HASH)
  {
    hide EncodableField, WellFormedText, Encodable;
  }

  lemma EnrichmentDecoded(r: Receipt)
    requires r.body.EntryEnriched?
    ensures var fields := FieldsOf(ToCanonicalCbor(r));
            && Unique(fields, SUPERSEDES_PRIOR) == Some(LinkValue(r.body.supersedesPrior))
            && Unique(fields, RECEIPT_HASH) == Some(ByteString(r.hash))
  {
    hide BodyFields, Lookup, FieldsOf, ToCanonicalCbor, Ascii, Unique, DistinctKeys, Fields, Sort;
    var fields := FieldsOf(ToCanonicalCbor(r));
    Minted.ReceiptDecodesPlain(r);
    LinkFields(r.body);
    LookupEnvelope(r);
    DecodedFields(r);
    LookupDecoded(Fields(r, false), RECEIPT_HASH);
    UniqueIfDistinct(fields, SUPERSEDES_PRIOR);
    UniqueIfDistinct(fields, RECEIPT_HASH);
    LookupInBody(r, SUPERSEDES_PRIOR, 6);
  }

  // ---- every run ----

  /** After any run of sync ticks, the published snapshot chain passes the stricter check at every link. */
  lemma SnapshotRunsPass(c: Crypto, s: Sync.Signer, ticks: seq<Sync.Tick>, key: Bytes)
    requires Signs(c, key, s.sign) && Sync.ClockAdvances(ticks)
    ensures var chain := Maps(Sync.PublishedChain(Sync.Run(c, s, ticks).snapshots));
            AllOfType(chain, SnapshotType) && forall i :: 0 <= i < |chain| ==> SnapshotLinkOk(chain, i)
  {
    hide Sync.Run, Sync.PublishedChain, FieldsOf, ToCanonicalCbor, Unique, Sync.Holds, Sync.InTimeOrder, Signs,
         Ascii, Validate;
    var receipts := Sync.PublishedReceipts(c, s, ticks, key);
    var chain := Maps(Sync.PublishedChain(Sync.Run(c, s, ticks).snapshots));
    forall i | 0 <= i < |chain| ensures Validate(chain[i]) == Some(SnapshotType) {
      SnapshotAt(c, key, Sync.Run(c, s, ticks).snapshots, receipts, i);
    }
    forall i | 0 <= i < |chain| ensures SnapshotLinkOk(chain, i) {
      SnapshotAt(c, key, Sync.Run(c, s, ticks).snapshots, receipts, i);
      if i > 0 {
        SnapshotAt(c, key, Sync.Run(c, s, ticks).snapshots, receipts, i - 1);
      }
    }
  }

  /** What row `i` of a run decodes to. */
  lemma SnapshotAt(c: Crypto, key: Bytes, rows: seq<Sync.SnapshotRow>, receipts: seq<Receipt>, i: nat)
    requires Sync.Holds(c, key, rows, receipts) && Sync.InTimeOrder(rows) && i < |rows|
    ensures receipts[i].body.RegistrySnapshot?
    ensures var fields := FieldsOf(ToCanonicalCbor(receipts[i]));
            && Unique(fields, PREVIOUS_SNAPSHOT_HASH) ==
               Some(if i == 0 then Null else ByteString(receipts[i - 1].body.snapshotRoot))
            && Unique(fields, SNAPSHOT_ROOT) == Some(ByteString(receipts[i].body.snapshotRoot))
            && Unique(fields, SCRAPED_AT) == Some(Uint(receipts[i].body.scrapedAt))
            && Validate(fields) == Some(SnapshotType)
    ensures i > 0 ==> receipts[i - 1].body.scrapedAt <= receipts[i].body.scrapedAt
  {
    hide FieldsOf, ToCanonicalCbor, Unique, VerifyReceiptSignature, Ascii, Validate;
    assert Sync.Carries(c, key, rows[i], receipts[i]);
    TypedValidates(receipts[i]);
    SnapshotDecoded(receipts[i]);
    if i > 0 {
      assert Sync.LinkedAt(receipts, i) && Sync.Carries(c, key, rows[i - 1], receipts[i - 1]);
    }
  }

  /** After any run of refreshes, the receipts issued for a server pass the stricter check at every link. */
  lemma EnrichmentRunsPass(c: Crypto, ryu: Decimals.Ryu, s: Enrichment.Signer, xs: seq<Enrichment.Attempt>,
                           server: Str, key: Bytes)
    requires Signs(c, key, s.sign)
    ensures var chain := Maps(Encoded(Enrichment.Issued(c, ryu, s, xs, server)));
            AllOfType(chain, EnrichedType) && forall i :: 0 <= i < |chain| ==> EnrichmentLinkOk(chain, i)
  {
    hide Enrichment.Issued, Enrichment.TablesAfter, FieldsOf, ToCanonicalCbor, Unique, Enrichment.Chained, Signs,
         Ascii, Validate;
    var receipts := Enrichment.Issued(c, ryu, s, xs, server);
    var tables := Enrichment.TablesAfter(c, ryu, s, xs);
    Enrichment.RunChained(c, ryu, s, xs, server, key);
    var chain := Maps(Encoded(receipts));
    forall i | 0 <= i < |chain| ensures Validate(chain[i]) == Some(EnrichedType) {
      EnrichmentAt(c, key, tables, server, receipts, i);
    }
    forall i | 0 <= i < |chain| ensures EnrichmentLinkOk(chain, i) {
      EnrichmentAt(c, key, tables, server, receipts, i);
      if i > 0 {
        EnrichmentAt(c, key, tables, server, receipts, i - 1);
      }
    }
  }

  /** What link `i` of an issued chain decodes to. */
  lemma EnrichmentAt(c: Crypto, key: Bytes, t: Enrichment.Tables, server: Bytes, receipts: seq<Receipt>, i: nat)
    requires Enrichment.Chained(c, key, t, server, receipts) && i < |receipts| && receipts[i].body.EntryEnriched?
    ensures var fields := FieldsOf(ToCanonicalCbor(receipts[i]));
            && Unique(fields, SUPERSEDES_PRIOR) == Some(if i == 0 then Null else ByteString(receipts[i - 1].hash))
            && Unique(fields, RECEIPT_HASH) == Some(ByteString(receipts[i].hash))
            && Validate(fields) == Some(EnrichedType)
  {
    hide FieldsOf, ToCanonicalCbor, Unique, VerifyReceiptSignature, Ascii, Validate;
    TypedValidates(receipts[i]);
    EnrichmentDecoded(receipts[i]);
    if i > 0 {
      assert Enrichment.LinkedAt(receipts, i);
    }
  }
}
