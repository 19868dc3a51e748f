/** The sync loop: each tick mints a snapshot receipt chained to the one before and stores it. */
module Sync {
  import opened ByteStrings
  import opened StableSort
  import opened Receipts
  import opened SnapshotDigest
  import opened Mirror
  import opened Verify
  import opened Chains

  /** A row of the snapshots table; `entries` is dropped after a while, the receipt never. */
  datatype SnapshotRow = SnapshotRow(snapshotId: Ulid, snapshotHash: Digest, serverCount: int, scrapedAt: u64,
                                     receiptHash: Digest, receiptSignature: Signature, signerKid: Str,
                                     receiptCbor: Bytes, entries: Option<seq<Entry>>)

  const U32_MAX := 0xFFFF_FFFF

  // ---- the table, on values ----

  /** Row `j` comes before row `i` in the order rows are kept in: newest first, of one time the last inserted. */
  predicate Ahead(rows: seq<SnapshotRow>, j: nat, i: nat)
    requires i < |rows| && j < |rows|
  {
    rows[j].scrapedAt > rows[i].scrapedAt || (rows[j].scrapedAt == rows[i].scrapedAt && j > i)
  }

  /** The rows holding entries that come before row `i`. */
  function AheadOf(rows: seq<SnapshotRow>, i: nat): set<nat>
    requires i < |rows|
  {
    set j: nat | j < |rows| && rows[j].entries.Some? && Ahead(rows, j, i)
  }

  /** `prune_entry_sets`: only the newest `retention` entry sets stay. */
  function Pruned(rows: seq<SnapshotRow>, retention: nat): (r: seq<SnapshotRow>)
    ensures |r| == |rows|
    ensures forall i :: 0 <= i < |rows| ==>
              r[i] == rows[i].(entries := if |AheadOf(rows, i)| < retention then rows[i].entries else None)
  {
    seq(|rows|, i requires 0 <= i < |rows| =>
      rows[i].(entries := if |AheadOf(rows, i)| < retention then rows[i].entries else None))
  }

  predicate HasId(rows: seq<SnapshotRow>, id: Ulid) { exists i :: 0 <= i < |rows| && rows[i].snapshotId == id }

  /** `record`: insert unless the id is taken, then prune. */
  function Recorded(rows: seq<SnapshotRow>, row: SnapshotRow, retention: nat): seq<SnapshotRow> {
    Pruned(if HasId(rows, row.snapshotId) then rows else rows + [row], retention)
  }

  /** The row with the greatest `scraped_at` (`ORDER BY scraped_at DESC LIMIT 1`). */
  function LatestIndex(rows: seq<SnapshotRow>): (i: nat)
    requires rows != []
    ensures i < |rows| && forall j :: 0 <= j < |rows| ==> rows[j].scrapedAt <= rows[i].scrapedAt
  {
    if |rows| == 1 then 0
    else
      var i := LatestIndex(rows[..|rows| - 1]);
      assert forall j :: 0 <= j < |rows| - 1 ==> rows[j] == rows[..|rows| - 1][j];
      if rows[|rows| - 1].scrapedAt > rows[i].scrapedAt then |rows| - 1 else i
  }

  function LatestHash(rows: seq<SnapshotRow>): Option<Digest> {
    if rows == [] then None else Some(rows[LatestIndex(rows)].snapshotHash)
  }

  class SnapshotStore {
    var rows: seq<SnapshotRow>

    constructor ()
      ensures rows == []
    {
      rows := [];
    }

    method Record(row: SnapshotRow, retention: nat)
      modifies this
      ensures rows == Recorded(old(rows), row, retention)
    {
      if !HasId(rows, row.snapshotId) {
        rows := rows + [row];
      }
      PruneEntrySets(retention);
    }

    method PruneEntrySets(retention: nat)
      modifies this
      ensures rows == Pruned(old(rows), retention)
    {
      var pruned := [];
      for i := 0 to |rows|
        invariant rows == old(rows)
        invariant pruned == Pruned(rows, retention)[..i]
      {
        pruned := pruned + [if |AheadOf(rows, i)| < retention then rows[i] else rows[i].(entries := None)];
      }
      rows := pruned;
    }

    method Latest() returns (hash: Option<Digest>)
      ensures hash == LatestHash(rows)
    {
      if rows == [] {
        return None;
      }
      var best := 0;
      for i := 1 to |rows|
        invariant best == LatestIndex(rows[..i])
      {
        assert rows[..i + 1][..i] == rows[..i];
        if rows[i].scrapedAt > rows[best].scrapedAt {
          best := i;
        }
      }
      assert rows[..|rows|] == rows;
      hash := Some(rows[best].snapshotHash);
    }
  }

  // ---- one tick ----

  /** What one tick observes: the upstream set, the clock, and whether the signer answers. */
  datatype Tick = Tick(mirror: MirrorTick, eventId: Ulid, snapshotId: Ulid, scrapedAt: u64, signerAnswers: bool)

  const UPSTREAM_URI: Bytes := Ascii("https://registry.modelcontextprotocol.io/v0/servers")

  function UpstreamUri(): Str {
    AsciiIsUtf8(UPSTREAM_URI);
    UPSTREAM_URI
  }

  function EntriesOf(current: seq<Mirrored>): (r: seq<Entry>)
    ensures |r| == |current| && forall i :: 0 <= i < |current| ==> r[i] == current[i].entry
  {
    seq(|current|, i requires 0 <= i < |current| => current[i].entry)
  }

  /** A 64-bit count (`len() as u64`). */
  function Count(n: nat): u64 { n % U64 }

  /** `build_snapshot_plan` with an empty previous set: every distinct name counts as added. */
  function SnapshotBody(c: Crypto, tick: Tick, previous: Option<Digest>): Body {
    RegistrySnapshot(tick.eventId, tick.snapshotId, tick.scrapedAt, Count(|tick.mirror.current|),
                     SnapshotRoot(c, EntriesOf(tick.mirror.current)), previous, UpstreamUri(), None,
                     Count(|NamesOf(tick.mirror.current)|), 0, 0)
  }

  function Plan(c: Crypto, tick: Tick, previous: Option<Digest>, kid: Str): (plan: Receipt)
    ensures plan.body.RegistrySnapshot?
  {
    var draft := Receipt(SnapshotBody(c, tick, previous), Zeros(HASH_LEN), Zeros(SIGNATURE_LEN), kid);
    draft.(hash := ComputeHash(c, draft))
  }

  /** A 32-bit count in the signed column that stores it (`as i32`). */
  function AsI32(n: nat): int { if n < 0x8000_0000 then n else n - 0x1_0000_0000 }

  /** The row `persist_snapshot` stores for a plan and its signature. */
  function StoredRow(plan: Receipt, signature: Signature, entries: seq<Entry>): SnapshotRow
    requires plan.body.RegistrySnapshot?
  {
    SnapshotRow(plan.body.snapshotId, plan.body.snapshotRoot,
                AsI32(if plan.body.serverCount < U32_MAX then plan.body.serverCount else U32_MAX),
                plan.body.scrapedAt, plan.hash, signature, plan.kid,
                ToCanonicalCbor(plan.(signature := signature)), Some(entries))
  }

  datatype State = State(mirror: Table, snapshots: seq<SnapshotRow>)

  /** The signing key's side of things, and the configured retention of entry sets. */
  datatype Signer = Signer(sign: Bytes -> Signature, kid: Str, retention: nat)

  /** Whether a tick ends well: no eviction is refused and the signer answers. */
  predicate Completes(c: Crypto, state: State, tick: Tick) {
    BlockedIn(c, state.mirror, tick.mirror) == {} && tick.signerAnswers
  }

  /** A failing tick leaves the snapshots alone; the mirror has changed by then. */
  function Step(c: Crypto, s: Signer, state: State, tick: Tick): State {
    var plan := Plan(c, tick, LatestHash(state.snapshots), s.kid);
    State(MirrorStep(c, state.mirror, tick.mirror),
          if !Completes(c, state, tick) then state.snapshots
          else Recorded(state.snapshots,
                        StoredRow(plan, s.sign(ToCanonicalCbor(plan)), EntriesOf(tick.mirror.current)), s.retention))
  }

  function Run(c: Crypto, s: Signer, ticks: seq<Tick>): State {
    if ticks == [] then State(map[], []) else Step(c, s, Run(c, s, ticks[..|ticks| - 1]), ticks[|ticks| - 1])
  }

  /** The tick with another set of names listed before the first refused eviction. */
  function Finding(tick: Tick, reached: set<Bytes>): Tick { tick.(mirror := tick.mirror.(reached := reached)) }

  lemma SamePlan(c: Crypto, tick: Tick, reached: set<Bytes>, previous: Option<Digest>, kid: Str)
    ensures Plan(c, tick, previous, kid) == Plan(c, Finding(tick, reached), previous, kid)
  {
  }

  class SyncLoop {
    const mirror: MirrorStore
    const snapshots: SnapshotStore

    constructor ()
      ensures fresh(mirror) && fresh(snapshots) && mirror.rows == map[] && snapshots.rows == []
    {
      mirror := new MirrorStore();
      snapshots := new SnapshotStore();
    }

    /**
     `run_tick_blocking` from the fetched pages on. `found` is the tick with the names that were reconciled
     before a refused eviction, which the order of the table decides.
     */
    method RunTick(c: Crypto, s: Signer, tick: Tick) returns (completed: bool, ghost found: Tick)
      modifies mirror, snapshots
      ensures found == Finding(tick, found.mirror.reached)
      ensures completed == Completes(c, old(State(mirror.rows, snapshots.rows)), tick)
      ensures State(mirror.rows, snapshots.rows) == Step(c, s, old(State(mirror.rows, snapshots.rows)), found)
    {
      hide Recorded, ReconciledAmong, Persisted, Plan, StoredRow, ToCanonicalCbor, LatestHash, NamesOf, Blocked;
      ghost var before := State(mirror.rows, snapshots.rows);
      var prior := snapshots.Latest();
      var plan := Plan(c, tick, prior, s.kid);
      mirror.PersistChanges(c, tick.mirror.current, tick.mirror.observedAt);
      ghost var reached;
      completed, reached := mirror.ReconcileInPlace(tick.mirror.current, tick.mirror.now, tick.mirror.enriched);
      found := Finding(tick, reached);
      assert mirror.rows == MirrorStep(c, before.mirror, found.mirror) by {
        assert reached - BlockedIn(c, before.mirror, tick.mirror) == reached;
      }
      if completed {
        SamePlan(c, tick, reached, prior, s.kid);
        completed := PersistSnapshot(s, plan, tick);
      }
    }

    /** `persist_snapshot` */
    method PersistSnapshot(s: Signer, plan: Receipt, tick: Tick) returns (recorded: bool)
      requires plan.body.RegistrySnapshot?
      modifies snapshots
      ensures recorded == tick.signerAnswers
      ensures snapshots.rows == if !recorded then old(snapshots.rows)
              else Recorded(old(snapshots.rows),
                            StoredRow(plan, s.sign(ToCanonicalCbor(plan)), EntriesOf(tick.mirror.current)), s.retention)
    {
      var signingBytes := ToCanonicalCbor(plan);
      if !tick.signerAnswers {
        return false;
      }
      var signature := s.sign(signingBytes);
      snapshots.Record(StoredRow(plan, signature, EntriesOf(tick.mirror.current)), s.retention);
      recorded := true;
    }
  }

  /** A whole run of the loop; `found` are the ticks with what each of them reconciled. */
  method RunAll(c: Crypto, s: Signer, ticks: seq<Tick>) returns (state: State, ghost found: seq<Tick>)
    ensures |found| == |ticks|
    ensures forall i :: 0 <= i < |ticks| ==> found[i] == Finding(ticks[i], found[i].mirror.reached)
    ensures state == Run(c, s, found)
  {
    hide Step;
    var loop := new SyncLoop();
    found := [];
    for i := 0 to |ticks|
      invariant fresh(loop.mirror) && fresh(loop.snapshots)
      invariant |found| == i
      invariant forall j :: 0 <= j < i ==> found[j] == Finding(ticks[j], found[j].mirror.reached)
      invariant State(loop.mirror.rows, loop.snapshots.rows) == Run(c, s, found)
    {
      ghost var tick;
      var completed;
      completed, tick := loop.RunTick(c, s, ticks[i]);
      assert (found + [tick])[..i] == found;
      found := found + [tick];
    }
    state := State(loop.mirror.rows, loop.snapshots.rows);
  }

  // ---- every run ----

  ghost predicate ClockAdvances(ticks: seq<Tick>) {
    forall i, j :: 0 <= i < j < |ticks| ==> ticks[i].scrapedAt < ticks[j].scrapedAt
  }

  ghost predicate InTimeOrder(rows: seq<SnapshotRow>) {
    forall i, j :: 0 <= i < j < |rows| ==> rows[i].scrapedAt < rows[j].scrapedAt
  }

  /** `row` holds the octets of a validly signed snapshot receipt, and its root. */
  ghost predicate Carries(c: Crypto, key: Bytes, row: SnapshotRow, receipt: Receipt) {
    && receipt.body.RegistrySnapshot?
    && VerifyReceiptSignature(c, receipt, key) == Valid
    && row.receiptCbor == ToCanonicalCbor(receipt)
    && row.snapshotHash == receipt.body.snapshotRoot
    && row.scrapedAt == receipt.body.scrapedAt
  }

  ghost predicate LinkedAt(receipts: seq<Receipt>, i: nat) {
    0 < i < |receipts| && TypedFollows(Snapshots, receipts[i - 1], receipts[i])
  }

  /** The rows carry `receipts`, each chained to the one before, the first to nothing. */
  ghost predicate Holds(c: Crypto, key: Bytes, rows: seq<SnapshotRow>, receipts: seq<Receipt>) {
    && |receipts| == |rows|
    && (forall i :: 0 <= i < |rows| ==> Carries(c, key, rows[i], receipts[i]))
    && (forall i :: 0 < i < |rows| ==> LinkedAt(receipts, i))
    && (receipts != [] ==> Genesis(receipts[0]))
  }

  predicate Genesis(receipt: Receipt) { receipt.body.RegistrySnapshot? && receipt.body.previousSnapshotHash.None? }

  lemma CarriesPruned(c: Crypto, key: Bytes, row: SnapshotRow, receipt: Receipt, entries: Option<seq<Entry>>)
    requires Carries(c, key, row, receipt)
    ensures Carries(c, key, row.(entries := entries), receipt)
  {
  }

  lemma PrunedHolds(c: Crypto, key: Bytes, rows: seq<SnapshotRow>, receipts: seq<Receipt>, retention: nat)
    requires Holds(c, key, rows, receipts)
    ensures Holds(c, key, Pruned(rows, retention), receipts)
    ensures InTimeOrder(rows) ==> InTimeOrder(Pruned(rows, retention))
  {
    hide Carries, LinkedAt, AheadOf, Genesis;
    forall i | 0 <= i < |rows| ensures Carries(c, key, Pruned(rows, retention)[i], receipts[i]) {
      CarriesPruned(c, key, rows[i], receipts[i], Pruned(rows, retention)[i].entries);
    }
  }

  /** The signed plan is a valid receipt that carries the link it was planned with. */
  lemma SignedPlan(c: Crypto, s: Signer, tick: Tick, previous: Option<Digest>, key: Bytes) returns (signed: Receipt)
    requires Signs(c, key, s.sign)
    ensures var plan := Plan(c, tick, previous, s.kid);
            var row := StoredRow(plan, s.sign(ToCanonicalCbor(plan)), EntriesOf(tick.mirror.current));
            && Carries(c, key, row, signed)
            && signed.body.RegistrySnapshot? && signed.body.previousSnapshotHash == previous
  {
    MintedVerifies(c, SnapshotBody(c, tick, previous), s.kid, s.sign, key);
    hide VerifyReceiptSignature, VerifyReceipt, ComputeHash, ToCanonicalCbor, SnapshotRoot, NamesOf, Signs;
    var plan := Plan(c, tick, previous, s.kid);
    signed := plan.(signature := s.sign(ToCanonicalCbor(plan)));
    assert signed == Mint(c, SnapshotBody(c, tick, previous), s.kid, s.sign);
  }

  lemma LatestIsLast(rows: seq<SnapshotRow>)
    requires InTimeOrder(rows)
    ensures LatestHash(rows) == if rows == [] then None else Some(rows[|rows| - 1].snapshotHash)
  {
  }

  ghost predicate AllBefore(rows: seq<SnapshotRow>, at: u64) { forall i :: 0 <= i < |rows| ==> rows[i].scrapedAt < at }

  lemma RootLinks(c: Crypto, key: Bytes, row: SnapshotRow, prior: Receipt, next: Receipt)
    requires Carries(c, key, row, prior) && next.body.RegistrySnapshot?
    requires next.body.previousSnapshotHash == Some(row.snapshotHash)
    ensures TypedFollows(Snapshots, prior, next)
  {
  }

  lemma AppendHolds(c: Crypto, key: Bytes, rows: seq<SnapshotRow>, receipts: seq<Receipt>, row: SnapshotRow,
                    next: Receipt)
    requires Holds(c, key, rows, receipts) && InTimeOrder(rows)
    requires Carries(c, key, row, next) && next.body.RegistrySnapshot?
            && next.body.previousSnapshotHash == LatestHash(rows)
    ensures Holds(c, key, rows + [row], receipts + [next])
  {
    hide Carries, TypedFollows, LatestHash, InTimeOrder;
    LatestIsLast(rows);
    if rows != [] {
      RootLinks(c, key, rows[|rows| - 1], receipts[|rows| - 1], next);
    }
    forall i | 0 < i <= |rows| ensures LinkedAt(receipts + [next], i) {
      assert i < |rows| ==> LinkedAt(receipts, i);
    }
  }

  lemma AppendInOrder(rows: seq<SnapshotRow>, row: SnapshotRow)
    requires InTimeOrder(rows) && AllBefore(rows, row.scrapedAt)
    ensures InTimeOrder(rows + [row])
  {
  }

  /** The row a tick stores, if it completes. */
  function NewRow(c: Crypto, s: Signer, rows: seq<SnapshotRow>, tick: Tick): (row: SnapshotRow)
    ensures row.scrapedAt == tick.scrapedAt && row.entries == Some(EntriesOf(tick.mirror.current))
    ensures row.snapshotHash == SnapshotRoot(c, EntriesOf(tick.mirror.current))
  {
    hide ToCanonicalCbor, ComputeHash, SnapshotRoot;
    var plan := Plan(c, tick, LatestHash(rows), s.kid);
    StoredRow(plan, s.sign(ToCanonicalCbor(plan)), EntriesOf(tick.mirror.current))
  }

  lemma StepRows(c: Crypto, s: Signer, state: State, tick: Tick)
    ensures Step(c, s, state, tick).snapshots == if !Completes(c, state, tick) then state.snapshots
            else Recorded(state.snapshots, NewRow(c, s, state.snapshots, tick), s.retention)
  {
  }

  lemma RecordedHolds(c: Crypto, s: Signer, rows: seq<SnapshotRow>, receipts: seq<Receipt>, tick: Tick, key: Bytes)
    returns (more: seq<Receipt>)
    requires Signs(c, key, s.sign) && Holds(c, key, rows, receipts) && InTimeOrder(rows)
    requires AllBefore(rows, tick.scrapedAt)
    ensures var r := Recorded(rows, NewRow(c, s, rows, tick), s.retention);
            Holds(c, key, r, more) && InTimeOrder(r)
  {
    var next := SignedPlan(c, s, tick, LatestHash(rows), key);
    var row := NewRow(c, s, rows, tick);
    hide Plan, StoredRow, ToCanonicalCbor, LatestHash, Carries, Holds, InTimeOrder, Pruned, EntriesOf, AllBefore, Signs;
    if HasId(rows, row.snapshotId) {
      more := receipts;
      PrunedHolds(c, key, rows, receipts, s.retention);
    } else {
      more := receipts + [next];
      AppendHolds(c, key, rows, receipts, row, next);
      AppendInOrder(rows, row);
      PrunedHolds(c, key, rows + [row], more, s.retention);
    }
  }

  lemma RecordedTimes(rows: seq<SnapshotRow>, row: SnapshotRow, retention: nat, at: u64)
    requires AllBefore(rows, at) && row.scrapedAt < at
    ensures AllBefore(Recorded(rows, row, retention), at)
  {
  }

  lemma {:induction false} RunTimes(c: Crypto, s: Signer, ticks: seq<Tick>, at: u64)
    requires forall i :: 0 <= i < |ticks| ==> ticks[i].scrapedAt < at
    ensures AllBefore(Run(c, s, ticks).snapshots, at)
  {
    if ticks != [] {
      var init, tick := ticks[..|ticks| - 1], ticks[|ticks| - 1];
      RunTimes(c, s, init, at);
      StepRows(c, s, Run(c, s, init), tick);
      hide Step, NewRow, Recorded, AllBefore, Completes;
      RecordedTimes(Run(c, s, init).snapshots, NewRow(c, s, Run(c, s, init).snapshots, tick), s.retention, at);
    }
  }

  lemma {:induction false} RunHolds(c: Crypto, s: Signer, ticks: seq<Tick>, key: Bytes) returns (receipts: seq<Receipt>)
    requires Signs(c, key, s.sign) && ClockAdvances(ticks)
    ensures Holds(c, key, Run(c, s, ticks).snapshots, receipts) && InTimeOrder(Run(c, s, ticks).snapshots)
  {
    if ticks == [] {
      receipts := [];
    } else {
      var init, tick := ticks[..|ticks| - 1], ticks[|ticks| - 1];
      receipts := RunHolds(c, s, init, key);
      RunTimes(c, s, init, tick.scrapedAt);
      StepRows(c, s, Run(c, s, init), tick);
      hide Step, NewRow, Holds, InTimeOrder, AllBefore, Recorded, Signs, Completes;
      if Completes(c, Run(c, s, init), tick) {
        receipts := RecordedHolds(c, s, Run(c, s, init).snapshots, receipts, tick, key);
      }
    }
  }

  predicate Earlier(a: u64, b: u64) { a < b }

  function TimedCbors(rows: seq<SnapshotRow>): (r: seq<(u64, Bytes)>)
    ensures |r| == |rows| && forall i :: 0 <= i < |rows| ==> r[i] == (rows[i].scrapedAt, rows[i].receiptCbor)
  {
    seq(|rows|, i requires 0 <= i < |rows| => (rows[i].scrapedAt, rows[i].receiptCbor))
  }

  function Cbors(rows: seq<(u64, Bytes)>): (r: seq<Bytes>)
    ensures |r| == |rows| && forall i :: 0 <= i < |rows| ==> r[i] == rows[i].1
  {
    seq(|rows|, i requires 0 <= i < |rows| => rows[i].1)
  }

  /** The stored receipts, oldest first by `scraped_at`, as a third party fetches them. */
  function PublishedChain(rows: seq<SnapshotRow>): seq<Bytes> { Cbors(Sort(Earlier, TimedCbors(rows))) }

  /** What a run publishes are the octets of the receipts its rows carry, in their order. */
  lemma PublishedReceipts(c: Crypto, s: Signer, ticks: seq<Tick>, key: Bytes) returns (receipts: seq<Receipt>)
    requires Signs(c, key, s.sign) && ClockAdvances(ticks)
    ensures var rows := Run(c, s, ticks).snapshots;
            && Holds(c, key, rows, receipts) && InTimeOrder(rows)
            && |rows| == |receipts| && PublishedChain(rows) == Encoded(receipts)
  {
    hide VerifyReceiptSignature, ToCanonicalCbor, Run, Signs, Sort, LinkedAt;
    receipts := RunHolds(c, s, ticks, key);
    var rows := Run(c, s, ticks).snapshots;
    SortSorted(Earlier, TimedCbors(rows));
    assert PublishedChain(rows) == Encoded(receipts);
  }

  /**
   After any run of ticks from an empty store, some of them failing at a refused eviction or at signing, the
   stored receipts in time order are a snapshot chain the verifier accepts.
   */
  lemma EveryRunPublishesAChain(c: Crypto, s: Signer, ticks: seq<Tick>, key: Bytes)
    requires Signs(c, key, s.sign) && ClockAdvances(ticks)
    ensures VerifyHistory(c, PublishedChain(Run(c, s, ticks).snapshots), key, Snapshots).Passed?
  {
    hide VerifyHistory, VerifyReceiptSignature, ToCanonicalCbor, Run, Signs, TypedFollows, PublishedChain, InTimeOrder;
    var receipts := PublishedReceipts(c, s, ticks, key);
    forall i | 0 < i < |receipts| ensures TypedFollows(Snapshots, receipts[i - 1], receipts[i]) {
      assert LinkedAt(receipts, i);
    }
    TypedChainAccepted(c, receipts, key, Snapshots);
  }

  // ---- entry sets ----

  ghost predicate EntriesVerify(c: Crypto, rows: seq<SnapshotRow>) {
    forall i :: 0 <= i < |rows| && rows[i].entries.Some? ==>
        VerifySnapshot(c, rows[i].entries.value, rows[i].snapshotHash)
  }

  /** Exactly the newest `retention` rows hold entries. */
  ghost predicate NewestHold(rows: seq<SnapshotRow>, retention: nat) {
    forall i :: 0 <= i < |rows| ==> (rows[i].entries.Some? <==> i + retention >= |rows|)
  }

  ghost function Positions(from: nat, n: nat): (r: set<nat>)
    ensures |r| == n
    ensures forall j: nat :: j in r <==> (from <= j < from + n)
    decreases n
  {
    if n == 0 then {} else {from} + Positions(from + 1, n - 1)
  }

  lemma CountAhead(rows: seq<SnapshotRow>, from: nat, i: nat)
    requires InTimeOrder(rows) && from <= i < |rows|
    requires forall j :: 0 <= j < |rows| ==> (rows[j].entries.Some? <==> j >= from)
    ensures |AheadOf(rows, i)| == |rows| - 1 - i
  {
    assert AheadOf(rows, i) == Positions(i + 1, |rows| - 1 - i);
  }

  /** The rows that keep their entry sets. */
  ghost function Kept(rows: seq<SnapshotRow>, retention: nat): set<nat> {
    set i: nat | i < |rows| && rows[i].entries.Some? && |AheadOf(rows, i)| < retention
  }

  lemma AheadCountsMore(rows: seq<SnapshotRow>, j: nat, i: nat)
    requires i < |rows| && j < |rows| && rows[j].entries.Some? && Ahead(rows, j, i)
    ensures |AheadOf(rows, j)| < |AheadOf(rows, i)|
  {
    Included(AheadOf(rows, j) + {j}, AheadOf(rows, i));
  }

  lemma Included(a: set<nat>, b: set<nat>)
    requires a <= b
    ensures |a| <= |b|
  {
    assert b == a + (b - a);
  }

  lemma {:induction false} KeptAtMost(rows: seq<SnapshotRow>, retention: nat)
    ensures |Kept(rows, retention)| <= retention
  {
    if retention > 0 {
      KeptAtMost(rows, retention - 1);
      var more := Kept(rows, retention) - Kept(rows, retention - 1);
      forall i, j | i in more && j in more ensures i == j {
        if i != j {
          if Ahead(rows, j, i) {
            AheadCountsMore(rows, j, i);
          } else {
            AheadCountsMore(rows, i, j);
          }
        }
      }
      if more != {} {
        var i :| i in more;
        assert more == {i};
      }
      assert Kept(rows, retention) == Kept(rows, retention - 1) + more;
    } else {
      assert Kept(rows, 0) == {};
    }
  }

  ghost predicate Dropped(rows: seq<SnapshotRow>, r: seq<SnapshotRow>, j: nat) {
    j < |rows| && j < |r| && rows[j].entries.Some? && r[j].entries.None?
  }

  /**
   On any table, equal times included, pruning leaves at most the allowed number of entry sets, touches
   nothing else, and drops none that is newer than one it keeps.
   */
  lemma PruningKeepsNewest(rows: seq<SnapshotRow>, retention: nat)
    ensures var r := Pruned(rows, retention);
            && |(set i: nat | i < |r| && r[i].entries.Some?)| <= retention
            && (forall i :: 0 <= i < |rows| ==> r[i].(entries := None) == rows[i].(entries := None))
            && (forall i, j :: 0 <= i < |rows| && 0 <= j < |rows| && r[i].entries.Some? && Dropped(rows, r, j) ==>
                  rows[j].scrapedAt <= rows[i].scrapedAt)
  {
    var r := Pruned(rows, retention);
    KeptAtMost(rows, retention);
    assert (set i: nat | i < |r| && r[i].entries.Some?) == Kept(rows, retention);
    forall i: nat, j: nat | i < |rows| && j < |rows| && r[i].entries.Some? && Dropped(rows, r, j)
      ensures rows[j].scrapedAt <= rows[i].scrapedAt
    {
      if rows[j].scrapedAt > rows[i].scrapedAt {
        AheadCountsMore(rows, j, i);
      }
    }
  }

  lemma PrunedNewest(rows: seq<SnapshotRow>, retention: nat, from: nat)
    requires InTimeOrder(rows) && (from == 0 || from + retention <= |rows|)
    requires forall j :: 0 <= j < |rows| ==> (rows[j].entries.Some? <==> j >= from)
    ensures NewestHold(Pruned(rows, retention), retention)
  {
    forall i | 0 <= i < |rows| ensures Pruned(rows, retention)[i].entries.Some? <==> i + retention >= |rows| {
      if from <= i {
        CountAhead(rows, from, i);
      }
    }
  }

  lemma RecordedEntries(c: Crypto, rows: seq<SnapshotRow>, row: SnapshotRow, retention: nat)
    requires InTimeOrder(rows) && AllBefore(rows, row.scrapedAt)
    requires EntriesVerify(c, rows) && NewestHold(rows, retention)
    requires row.entries.Some? && row.snapshotHash == SnapshotRoot(c, row.entries.value)
    ensures EntriesVerify(c, Recorded(rows, row, retention)) && NewestHold(Recorded(rows, row, retention), retention)
  {
    hide SnapshotRoot;
    var from := if |rows| <= retention then 0 else |rows| - retention;
    if HasId(rows, row.snapshotId) {
      PrunedNewest(rows, retention, from);
    } else {
      PrunedNewest(rows + [row], retention, from);
    }
  }

  /**
   After any run, exactly the newest `retention` stored snapshots still have their entry sets, and every
   entry set still stored digests to the root of its row.
   */
  lemma {:induction false} EveryRunKeepsVerifiableEntries(c: Crypto, s: Signer, ticks: seq<Tick>, key: Bytes)
    requires Signs(c, key, s.sign) && ClockAdvances(ticks)
    ensures EntriesVerify(c, Run(c, s, ticks).snapshots)
    ensures NewestHold(Run(c, s, ticks).snapshots, s.retention)
  {
    if ticks != [] {
      var init, tick := ticks[..|ticks| - 1], ticks[|ticks| - 1];
      EveryRunKeepsVerifiableEntries(c, s, init, key);
      var _ := RunHolds(c, s, init, key);
      RunTimes(c, s, init, tick.scrapedAt);
      StepRows(c, s, Run(c, s, init), tick);
      hide Step, NewRow, Holds, InTimeOrder, AllBefore, Recorded, Signs, EntriesVerify, NewestHold, Completes;
      if Completes(c, Run(c, s, init), tick) {
        RecordedEntries(c, Run(c, s, init).snapshots, NewRow(c, s, Run(c, s, init).snapshots, tick), s.retention);
      }
    }
  }

  // ---- the mirror over a run ----

  function MirrorTicks(ticks: seq<Tick>): (r: seq<MirrorTick>)
    ensures |r| == |ticks| && forall i :: 0 <= i < |r| ==> r[i] == ticks[i].mirror
  {
    seq(|ticks|, i requires 0 <= i < |ticks| => ticks[i].mirror)
  }

  /** The mirror table of a run does not depend on the signer: it is the one the soft-delete laws are about. */
  lemma {:induction false} RunMirror(c: Crypto, s: Signer, ticks: seq<Tick>)
    ensures Run(c, s, ticks).mirror == MirrorAfter(c, MirrorTicks(ticks))
  {
    hide Recorded, MirrorStep, Plan, StoredRow;
    if ticks != [] {
      var init := ticks[..|ticks| - 1];
      RunMirror(c, s, init);
      assert MirrorTicks(ticks)[..|ticks| - 1] == MirrorTicks(init);
    }
  }

  /**
   Over any run of the loop, whatever signing does and whichever evictions are refused, a name's row follows
   from when the name was last listed and which ticks reconciled it since.
   */
  lemma EveryRunKeepsSoftDeletes(c: Crypto, s: Signer, ticks: seq<Tick>, name: Bytes)
    ensures var rows, mirrors := Run(c, s, ticks).mirror, MirrorTicks(ticks);
            match LastSeen(mirrors, name)
            case None => name !in rows
            case Some(j) =>
              match FirstReached(c, mirrors, j, name)
              case None => name in rows && rows[name].deletedAt.None?
              case Some(f) =>
                && (name in rows <==> !EvictedSince(c, mirrors, name, f))
                && (name in rows ==> rows[name].deletedAt == Some(ticks[f].mirror.now) && rows[name].status == DELETED)
  {
    RunMirror(c, s, ticks);
    SoftDeleteHistory(c, MirrorTicks(ticks), name);
    hide Run, MirrorAfter, LastSeen, FirstReached, EvictedSince;
  }

  lemma RunStep(c: Crypto, s: Signer, ticks: seq<Tick>, j: nat)
    requires j < |ticks|
    ensures Run(c, s, ticks[..j + 1]) == Step(c, s, Run(c, s, ticks[..j]), ticks[j])
  {
    hide Step;
    assert ticks[..j + 1][..j] == ticks[..j];
  }

  /** A tick of a run completes if and only if its signer answers and no absent, expired name is enriched. */
  lemma TickCompletesIff(c: Crypto, s: Signer, ticks: seq<Tick>, j: nat)
    requires j < |ticks|
    ensures Completes(c, Run(c, s, ticks[..j]), ticks[j]) <==>
            BlockedAt(c, MirrorTicks(ticks), j) == {} && ticks[j].signerAnswers
  {
    RunMirror(c, s, ticks[..j]);
    assert MirrorTicks(ticks)[..j] == MirrorTicks(ticks[..j]);
    hide Run, MirrorAfter, BlockedIn;
  }

  lemma FailedStep(c: Crypto, s: Signer, state: State, tick: Tick)
    requires !Completes(c, state, tick)
    ensures Step(c, s, state, tick).snapshots == state.snapshots
  {
  }

  /**
   One absent, expired, enriched name ends publishing: until upstream lists it again no tick stores a
   snapshot, whatever the others observe.
   */
  lemma {:induction false} BlockedNameStopsPublishing(c: Crypto, s: Signer, ticks: seq<Tick>, i: nat, j: nat,
                                                      name: Bytes)
    requires i <= j < |ticks| && name in BlockedAt(c, MirrorTicks(ticks), i)
    requires forall k :: i < k <= j ==>
               var tick := ticks[k].mirror;
               !Listed(tick, name) && name in tick.enriched && ticks[i].mirror.now <= tick.now
    ensures Run(c, s, ticks[..j + 1]).snapshots == Run(c, s, ticks[..i]).snapshots
  {
    hide BlockedAt, Listed, MirrorAfter, Run, Step, Completes;
    BlockedUntilListed(c, MirrorTicks(ticks), i, j, name);
    TickCompletesIff(c, s, ticks, j);
    RunStep(c, s, ticks, j);
    FailedStep(c, s, Run(c, s, ticks[..j]), ticks[j]);
    if i < j {
      BlockedNameStopsPublishing(c, s, ticks, i, j - 1, name);
    }
  }
}
