/** The mirrored-server table: upserts, soft deletion and eviction, over whole runs of sync ticks. */
module Mirror {
  import opened ByteStrings
  import opened Receipts
  import opened SnapshotDigest

  /** Milliseconds since the epoch; clocks may run before it. */
  type Time = int

  const RETENTION: Time := 30 * 24 * 60 * 60 * 1000

  const DELETED := Ascii("deleted")

  datatype Mirrored = Mirrored(entry: Entry, status: Bytes)

  datatype Row = Row(version: Bytes, status: Bytes, upstreamHash: Digest, firstObserved: Time, lastObserved: Time,
                     deletedAt: Option<Time>)

  type Table = map<Bytes, Row>

  // ---- the statements, on values ----

  function Upserted(c: Crypto, rows: Table, s: Mirrored, at: Time): Table {
    var name := s.entry.name;
    var first := if name in rows then rows[name].firstObserved else at;
    rows[name := Row(s.entry.version, s.status, ServerHash(c, s.entry), first, at, None)]
  }

  function MarkedDeleted(rows: Table, name: Bytes, when: Time): Table {
    if name in rows && rows[name].deletedAt.None? then
      rows[name := rows[name].(status := DELETED, deletedAt := Some(when))]
    else rows
  }

  function Evicted(rows: Table, name: Bytes): Table { rows - {name} }

  /** The schema keeps a row an enrichment row refers to. */
  predicate Evictable(rows: Table, enriched: set<Bytes>, name: Bytes) { name !in rows || name !in enriched }

  function Persisted(c: Crypto, rows: Table, current: seq<Mirrored>, at: Time): Table {
    if current == [] then rows
    else Upserted(c, Persisted(c, rows, current[..|current| - 1], at), current[|current| - 1], at)
  }

  function NamesOf(current: seq<Mirrored>): set<Bytes> { set s | s in current :: s.entry.name }

  /** Whether an absent name's soft-delete window has closed. */
  predicate Expired(deletedAt: Option<Time>, now: Time, retention: Time) {
    deletedAt.Some? && now - deletedAt.value >= retention
  }

  /** The table after reconciling the names in `done` against the names now listed. */
  function ReconciledAmong(rows: Table, done: set<Bytes>, names: set<Bytes>, now: Time, retention: Time): Table {
    map n | n in rows && !(n in done && n !in names && Expired(rows[n].deletedAt, now, retention)) ::
      if n in done && n !in names && rows[n].deletedAt.None? then
        rows[n].(status := DELETED, deletedAt := Some(now))
      else rows[n]
  }

  function Reconciled(rows: Table, names: set<Bytes>, now: Time, retention: Time): Table {
    ReconciledAmong(rows, rows.Keys, names, now, retention)
  }

  /** The absent names whose window has closed and whose rows cannot be deleted: any of them fails the tick. */
  function Blocked(rows: Table, names: set<Bytes>, enriched: set<Bytes>, now: Time, retention: Time): set<Bytes> {
    set n | n in rows && n !in names && n in enriched && Expired(rows[n].deletedAt, now, retention)
  }

  // ---- the reconciliation plan ----

  datatype SoftDeletePlan = SoftDeletePlan(markDeleted: seq<Bytes>, retainDeleted: seq<Bytes>, evict: seq<Bytes>)

  type CachedState = (Bytes, Option<Time>)

  /** `now.duration_since(deleted_at).unwrap_or_default()`: never negative. */
  function Elapsed(now: Time, since: Time): Time { if now < since then 0 else now - since }

  function PlanFor(cached: seq<CachedState>, names: set<Bytes>, now: Time, retention: Time): SoftDeletePlan {
    if cached == [] then SoftDeletePlan([], [], [])
    else
      var plan := PlanFor(cached[..|cached| - 1], names, now, retention);
      var (name, deletedAt) := cached[|cached| - 1];
      if name in names then plan
      else if deletedAt.None? then plan.(markDeleted := plan.markDeleted + [name])
      else if Elapsed(now, deletedAt.value) >= retention then plan.(evict := plan.evict + [name])
      else plan.(retainDeleted := plan.retainDeleted + [name])
  }

  /** `reconcile_soft_deletes` */
  method ReconcileSoftDeletes(cached: seq<CachedState>, names: set<Bytes>, now: Time, retention: Time)
    returns (plan: SoftDeletePlan)
    ensures plan == PlanFor(cached, names, now, retention)
  {
    var markDeleted, retainDeleted, evict := [], [], [];
    for i := 0 to |cached|
      invariant PlanFor(cached[..i], names, now, retention) == SoftDeletePlan(markDeleted, retainDeleted, evict)
    {
      assert cached[..i + 1][..i] == cached[..i];
      var (name, deletedAt) := cached[i];
      if name !in names {
        if deletedAt.None? {
          markDeleted := markDeleted + [name];
        } else if Elapsed(now, deletedAt.value) >= retention {
          evict := evict + [name];
        } else {
          retainDeleted := retainDeleted + [name];
        }
      }
    }
    assert cached[..|cached|] == cached;
    plan := SoftDeletePlan(markDeleted, retainDeleted, evict);
  }

  /** `cached` lists every row once, in whatever order the table returns them. */
  ghost predicate Lists(cached: seq<CachedState>, rows: Table) {
    && (forall i, j :: 0 <= i < j < |cached| ==> cached[i].0 != cached[j].0)
    && (forall i :: 0 <= i < |cached| ==> cached[i].0 in rows && rows[cached[i].0].deletedAt == cached[i].1)
    && (forall n :: n in rows ==> exists i :: 0 <= i < |cached| && cached[i].0 == n)
  }

  function Applied(rows: Table, plan: SoftDeletePlan, now: Time): Table {
    map n | n in rows && n !in plan.evict ::
      if n in plan.markDeleted then rows[n].(status := DELETED, deletedAt := Some(now)) else rows[n]
  }

  /** The cached names that satisfy a condition, in the order cached. */
  function Chosen(cached: seq<CachedState>, keep: CachedState -> bool): seq<Bytes> {
    if cached == [] then []
    else
      var last := cached[|cached| - 1];
      Chosen(cached[..|cached| - 1], keep) + if keep(last) then [last.0] else []
  }

  /** The three lists: absent and unstamped, absent within the window, absent past it; each in cached order. */
  lemma {:induction false} PlanIs(cached: seq<CachedState>, names: set<Bytes>, now: Time, retention: Time)
    ensures var plan := PlanFor(cached, names, now, retention);
            var past := (at: Time) => now - at >= retention || (now < at && retention <= 0);
            && plan.markDeleted == Chosen(cached, (s: CachedState) => s.0 !in names && s.1.None?)
            && plan.evict == Chosen(cached, (s: CachedState) => s.0 !in names && s.1.Some? && past(s.1.value))
            && plan.retainDeleted == Chosen(cached, (s: CachedState) => s.0 !in names && s.1.Some? && !past(s.1.value))
  {
    if cached != [] {
      PlanIs(cached[..|cached| - 1], names, now, retention);
    }
  }

  /** Each absent name is on exactly one list of the plan, decided by its stamp. */
  lemma {:induction false} PlanLists(cached: seq<CachedState>, names: set<Bytes>, now: Time, retention: Time)
    ensures var plan := PlanFor(cached, names, now, retention);
            forall n ::
              && (n in plan.markDeleted <==>
                  (exists i :: 0 <= i < |cached| && cached[i] == (n, None) && n !in names))
              && (n in plan.evict <==>
                  (exists i :: 0 <= i < |cached| && cached[i].0 == n && n !in names
                               && cached[i].1.Some? && Elapsed(now, cached[i].1.value) >= retention))
  {
    if cached != [] {
      PlanLists(cached[..|cached| - 1], names, now, retention);
    }
  }

  /** An absent name's row stamped in the future. */
  ghost predicate StampedLater(rows: Table, names: set<Bytes>, now: Time, n: Bytes) {
    n in rows && n !in names && rows[n].deletedAt.Some? && rows[n].deletedAt.value > now
  }

  /** Which rows of the table the plan marks and evicts. */
  lemma PlanOfTable(rows: Table, cached: seq<CachedState>, names: set<Bytes>, now: Time, retention: Time)
    requires Lists(cached, rows)
    ensures var plan := PlanFor(cached, names, now, retention);
            forall n :: n in rows ==>
              && (n in plan.markDeleted <==> n !in names && rows[n].deletedAt.None?)
              && (n in plan.evict <==>
                  n !in names && rows[n].deletedAt.Some? && Elapsed(now, rows[n].deletedAt.value) >= retention)
  {
    PlanLists(cached, names, now, retention);
    var plan := PlanFor(cached, names, now, retention);
    hide PlanFor;
    forall n | n in rows
      ensures n in plan.markDeleted <==> n !in names && rows[n].deletedAt.None?
      ensures n in plan.evict <==>
              n !in names && rows[n].deletedAt.Some? && Elapsed(now, rows[n].deletedAt.value) >= retention
    {
      var i :| 0 <= i < |cached| && cached[i].0 == n;
      assert cached[i] == (n, rows[n].deletedAt);
    }
  }

  /**
   Applying the plan has the effect of the in-place loop, except when nothing is to be retained and a
   row is stamped in the future: the plan then evicts it, the loop does not.
   */
  lemma PlanMatchesLoop(rows: Table, cached: seq<CachedState>, names: set<Bytes>, now: Time, retention: Time)
    requires Lists(cached, rows) && retention >= 0
    ensures Applied(rows, PlanFor(cached, names, now, retention), now) == Reconciled(rows, names, now, retention) <==>
            (retention > 0 || forall n :: !StampedLater(rows, names, now, n))
  {
    hide Lists, PlanFor;
    PlanOfTable(rows, cached, names, now, retention);
    var applied := Applied(rows, PlanFor(cached, names, now, retention), now);
    var reconciled := Reconciled(rows, names, now, retention);
    if retention == 0 && exists n :: StampedLater(rows, names, now, n) {
      var n :| StampedLater(rows, names, now, n);
      assert n !in applied && n in reconciled;
    } else {
      forall n | n in rows ensures n in applied <==> n in reconciled {
        assert retention == 0 ==> !StampedLater(rows, names, now, n);
      }
      assert applied.Keys == reconciled.Keys;
    }
  }

  // ---- the store ----

  class MirrorStore {
    var rows: Table

    constructor ()
      ensures rows == map[]
    {
      rows := map[];
    }

    method UpsertServer(c: Crypto, s: Mirrored, at: Time)
      modifies this
      ensures rows == Upserted(c, old(rows), s, at)
    {
      var name := s.entry.name;
      var hash := ServerHash(c, s.entry);
      if name in rows {
        rows := rows[name := rows[name].(version := s.entry.version, status := s.status, upstreamHash := hash,
                                         lastObserved := at, deletedAt := None)];
      } else {
        rows := rows[name := Row(s.entry.version, s.status, hash, at, at, None)];
      }
    }

    method MarkDeleted(name: Bytes, when: Time)
      modifies this
      ensures rows == MarkedDeleted(old(rows), name, when)
    {
      if name in rows && rows[name].deletedAt.None? {
        rows := rows[name := rows[name].(status := DELETED, deletedAt := Some(when))];
      }
    }

    /** `enriched` are the names some enrichment row refers to. */
    method Evict(name: Bytes, enriched: set<Bytes>) returns (ok: bool)
      modifies this
      ensures ok <==> Evictable(old(rows), enriched, name)
      ensures rows == if ok then Evicted(old(rows), name) else old(rows)
    {
      if name in rows && name in enriched {
        return false;
      }
      rows := rows - {name};
      ok := true;
    }

    method CachedStates() returns (cached: seq<CachedState>)
      ensures Lists(cached, rows)
    {
      cached := [];
      var left := rows.Keys;
      while left != {}
        invariant left <= rows.Keys
        invariant forall i, j :: 0 <= i < j < |cached| ==> cached[i].0 != cached[j].0
        invariant forall i :: 0 <= i < |cached| ==>
                    cached[i].0 in rows && cached[i].0 !in left && rows[cached[i].0].deletedAt == cached[i].1
        invariant forall n :: n in rows && n !in left ==> exists i :: 0 <= i < |cached| && cached[i].0 == n
      {
        var name :| name in left;
        ghost var before := cached;
        cached := cached + [(name, rows[name].deletedAt)];
        assert cached[|before|].0 == name;
        assert forall i :: 0 <= i < |before| ==> cached[i] == before[i];
        left := left - {name};
      }
    }

    /** `persist_changes` */
    method PersistChanges(c: Crypto, current: seq<Mirrored>, at: Time)
      modifies this
      ensures rows == Persisted(c, old(rows), current, at)
    {
      for i := 0 to |current|
        invariant rows == Persisted(c, old(rows), current[..i], at)
      {
        assert current[..i + 1][..i] == current[..i];
        UpsertServer(c, current[i], at);
      }
      assert current[..|current|] == current;
    }

    /** `reconcile_soft_deletes_blocking`; `reached` are the names dealt with before a refused eviction. */
    method ReconcileInPlace(current: seq<Mirrored>, now: Time, enriched: set<Bytes>)
      returns (ok: bool, ghost reached: set<Bytes>)
      modifies this
      ensures var blocked := Blocked(old(rows), NamesOf(current), enriched, now, RETENTION);
              (ok <==> blocked == {}) && (ok ==> reached == old(rows).Keys) && reached !! blocked
      ensures rows == ReconciledAmong(old(rows), reached, NamesOf(current), now, RETENTION)
    {
      var cached := CachedStates();
      var names := NamesOf(current);
      reached := {};
      assert rows == ReconciledAmong(old(rows), reached, names, now, RETENTION);
      for i := 0 to |cached|
        invariant reached == set k | 0 <= k < i :: cached[k].0
        invariant reached !! Blocked(old(rows), names, enriched, now, RETENTION)
        invariant rows == ReconciledAmong(old(rows), reached, names, now, RETENTION)
      {
        var (name, deletedAt) := cached[i];
        ghost var before := rows;
        assert name !in reached && name in before && before[name] == old(rows)[name];
        if name !in names {
          match deletedAt {
            case None => MarkDeleted(name, now);
            case Some(stamp) =>
              if now - stamp >= RETENTION {
                ok := Evict(name, enriched);
                if !ok {
                  assert name in Blocked(old(rows), names, enriched, now, RETENTION);
                  return;
                }
              }
          }
        }
        StepReconciles(old(rows), reached, name, names, now);
        reached := reached + {name};
      }
      assert reached == old(rows).Keys;
      ok := true;
    }
  }

  lemma StepReconciles(rows: Table, done: set<Bytes>, name: Bytes, names: set<Bytes>, now: Time)
    requires name in rows && name !in done
    ensures var before := ReconciledAmong(rows, done, names, now, RETENTION);
            ReconciledAmong(rows, done + {name}, names, now, RETENTION) ==
            if name in names then before
            else if rows[name].deletedAt.None? then MarkedDeleted(before, name, now)
            else if Expired(rows[name].deletedAt, now, RETENTION) then Evicted(before, name)
            else before
  {
  }

  // ---- runs ----

  /**
   What a tick finds: the upstream set, the clock, the names with an enrichment row, and the names the table
   happens to list before one whose eviction is refused.
   */
  datatype MirrorTick = MirrorTick(current: seq<Mirrored>, observedAt: Time, now: Time, enriched: set<Bytes>,
                                   reached: set<Bytes>)

  function BlockedIn(c: Crypto, rows: Table, tick: MirrorTick): set<Bytes> {
    var seen := Persisted(c, rows, tick.current, tick.observedAt);
    Blocked(seen, NamesOf(tick.current), tick.enriched, tick.now, RETENTION)
  }

  /** The names a tick reconciles: all, unless an eviction is refused. */
  function ReachedIn(c: Crypto, rows: Table, tick: MirrorTick): set<Bytes> {
    if BlockedIn(c, rows, tick) == {} then Persisted(c, rows, tick.current, tick.observedAt).Keys
    else tick.reached - BlockedIn(c, rows, tick)
  }

  function MirrorStep(c: Crypto, rows: Table, tick: MirrorTick): Table {
    ReconciledAmong(Persisted(c, rows, tick.current, tick.observedAt), ReachedIn(c, rows, tick), NamesOf(tick.current),
                    tick.now, RETENTION)
  }

  function MirrorAfter(c: Crypto, ticks: seq<MirrorTick>): Table {
    if ticks == [] then map[] else MirrorStep(c, MirrorAfter(c, ticks[..|ticks| - 1]), ticks[|ticks| - 1])
  }

  predicate Listed(tick: MirrorTick, name: Bytes) { name in NamesOf(tick.current) }

  /** The last tick that listed `name`. */
  function LastSeen(ticks: seq<MirrorTick>, name: Bytes): (j: Option<nat>)
    ensures j.Some? ==> j.value < |ticks| && Listed(ticks[j.value], name)
    ensures j.Some? ==> forall i :: j.value < i < |ticks| ==> !Listed(ticks[i], name)
    ensures j.None? ==> forall i :: 0 <= i < |ticks| ==> !Listed(ticks[i], name)
  {
    if ticks == [] then None
    else if Listed(ticks[|ticks| - 1], name) then Some(|ticks| - 1)
    else LastSeen(ticks[..|ticks| - 1], name)
  }

  lemma {:induction false} PersistedRows(c: Crypto, rows: Table, current: seq<Mirrored>, at: Time, name: Bytes)
    ensures name in NamesOf(current) ==>
              name in Persisted(c, rows, current, at) && Persisted(c, rows, current, at)[name].deletedAt.None?
    ensures name !in NamesOf(current) ==>
              (name in Persisted(c, rows, current, at) <==> name in rows)
              && (name in rows ==> Persisted(c, rows, current, at)[name] == rows[name])
  {
    if current != [] {
      var init, last := current[..|current| - 1], current[|current| - 1];
      PersistedRows(c, rows, init, at, name);
      assert current == init + [last];
      assert name in NamesOf(current) <==> name in NamesOf(init) || name == last.entry.name by {
        assert forall s :: s in current <==> s in init || s == last;
      }
    }
  }

  function BlockedAt(c: Crypto, ticks: seq<MirrorTick>, i: nat): set<Bytes>
    requires i < |ticks|
  {
    BlockedIn(c, MirrorAfter(c, ticks[..i]), ticks[i])
  }

  function ReachedAt(c: Crypto, ticks: seq<MirrorTick>, i: nat): set<Bytes>
    requires i < |ticks|
  {
    ReachedIn(c, MirrorAfter(c, ticks[..i]), ticks[i])
  }

  /** The first tick after the `j`-th that reconciles `name`. */
  function FirstReached(c: Crypto, ticks: seq<MirrorTick>, j: nat, name: Bytes): (f: Option<nat>)
    ensures f.Some? ==> j < f.value < |ticks|
  {
    if |ticks| <= j + 1 then None
    else
      var earlier := FirstReached(c, ticks[..|ticks| - 1], j, name);
      if earlier.Some? then earlier
      else if name in ReachedAt(c, ticks, |ticks| - 1) then Some(|ticks| - 1)
      else None
  }

  /** Tick `k` reconciles `name` when the window opened at tick `f` has closed. */
  ghost predicate EvictedAt(c: Crypto, ticks: seq<MirrorTick>, name: Bytes, f: nat, k: nat) {
    f < k < |ticks| && name in ReachedAt(c, ticks, k) && ticks[k].now - ticks[f].now >= RETENTION
  }

  ghost predicate EvictedSince(c: Crypto, ticks: seq<MirrorTick>, name: Bytes, f: nat) {
    exists k :: EvictedAt(c, ticks, name, f, k)
  }

  lemma EvictedEarlier(c: Crypto, ticks: seq<MirrorTick>, name: Bytes, f: nat)
    requires ticks != []
    ensures EvictedSince(c, ticks, name, f) <==>
            EvictedSince(c, ticks[..|ticks| - 1], name, f) || EvictedAt(c, ticks, name, f, |ticks| - 1)
  {
    hide ReachedIn, MirrorAfter;
    var init := ticks[..|ticks| - 1];
    forall k: nat | k < |init| ensures EvictedAt(c, ticks, name, f, k) <==> EvictedAt(c, init, name, f, k) {
      assert ticks[..k] == init[..k];
    }
  }

  lemma StepRow(c: Crypto, rows: Table, tick: MirrorTick, name: Bytes)
    ensures var after := MirrorStep(c, rows, tick);
            if Listed(tick, name) then name in after && after[name].deletedAt.None?
            else if name !in rows then name !in after
            else if name !in ReachedIn(c, rows, tick) then name in after && after[name] == rows[name]
            else if rows[name].deletedAt.None? then
              name in after && after[name].deletedAt == Some(tick.now) && after[name].status == DELETED
            else
              && (name in after <==> !Expired(rows[name].deletedAt, tick.now, RETENTION))
              && (name in after ==> after[name] == rows[name])
  {
    PersistedRows(c, rows, tick.current, tick.observedAt, name);
    hide Persisted, NamesOf, ReachedIn;
  }

  /**
   After any run from an empty table, under any clock: a listed name has a live row; an absent one keeps it
   live until a tick reconciles it, then has a row stamped with that tick until one reconciles it again when
   the window has closed; a name never seen has none.
   */
  lemma {:induction false} SoftDeleteHistory(c: Crypto, ticks: seq<MirrorTick>, name: Bytes)
    ensures var rows := MirrorAfter(c, ticks);
            match LastSeen(ticks, name)
            case None => name !in rows
            case Some(j) =>
              match FirstReached(c, ticks, j, name)
              case None => name in rows && rows[name].deletedAt.None?
              case Some(f) =>
                && (name in rows <==> !EvictedSince(c, ticks, name, f))
                && (name in rows ==> rows[name].deletedAt == Some(ticks[f].now) && rows[name].status == DELETED)
  {
    if ticks != [] {
      var init, last := ticks[..|ticks| - 1], ticks[|ticks| - 1];
      SoftDeleteHistory(c, init, name);
      StepRow(c, MirrorAfter(c, init), last, name);
      var j := LastSeen(ticks, name);
      hide MirrorStep, ReachedIn, Listed, EvictedSince;
      if j.Some? && j.value < |init| && FirstReached(c, ticks, j.value, name).Some? {
        var f := FirstReached(c, ticks, j.value, name).value;
        EvictedEarlier(c, ticks, name, f);
        assert f < |init| ==> ticks[f] == init[f];
      }
    }
  }

  // ---- what a row remembers ----

  /** The last of the listed servers with this name. */
  function LastMention(current: seq<Mirrored>, name: Bytes): (m: Mirrored)
    requires name in NamesOf(current)
    ensures m in current && m.entry.name == name
  {
    var last := current[|current| - 1];
    if last.entry.name == name then last
    else
      assert forall s :: s in current ==> s in current[..|current| - 1] || s == last;
      LastMention(current[..|current| - 1], name)
  }

  /** The row repeats what the listing said of the server, and dates it. */
  predicate Repeats(c: Crypto, row: Row, m: Mirrored, first: Time, last: Time) {
    && row.version == m.entry.version
    && row.upstreamHash == c.hash(m.entry.name + [0] + m.entry.version + [0] + m.entry.json)
    && row.firstObserved == first && row.lastObserved == last
    && (row.deletedAt.None? ==> row.status == m.status)
  }

  lemma {:induction false} PersistedRepeats(c: Crypto, rows: Table, current: seq<Mirrored>, at: Time, name: Bytes)
    requires name in NamesOf(current)
    ensures var after := Persisted(c, rows, current, at);
            name in after && after[name].deletedAt.None? && Repeats(c, after[name], LastMention(current, name),
                                      if name in rows then rows[name].firstObserved else at, at)
  {
    var init, last := current[..|current| - 1], current[|current| - 1];
    assert current == init + [last];
    PersistedRows(c, rows, init, at, name);
    if last.entry.name == name {
      if name in NamesOf(init) { PersistedRepeats(c, rows, init, at, name); }
    } else {
      assert name in NamesOf(init) by { assert forall s :: s in current <==> s in init || s == last; }
      PersistedRepeats(c, rows, init, at, name);
    }
  }

  /** Tick `i` opened the row that is still there. */
  ghost predicate OpenedAt(c: Crypto, ticks: seq<MirrorTick>, name: Bytes, i: nat) {
    && i < |ticks| && Listed(ticks[i], name) && name !in MirrorAfter(c, ticks[..i])
    && forall k :: i < k <= |ticks| ==> name in MirrorAfter(c, ticks[..k])
  }

  /**
   A row, live or stamped, repeats the last mention of its name in the last tick that listed it; it is dated from the
   tick that opened it to that last one.
   */
  lemma {:induction false} RowRepeats(c: Crypto, ticks: seq<MirrorTick>, name: Bytes) returns (i: nat)
    requires name in MirrorAfter(c, ticks)
    ensures OpenedAt(c, ticks, name, i) && LastSeen(ticks, name).Some?
    ensures var j := LastSeen(ticks, name).value;
            i <= j && Repeats(c, MirrorAfter(c, ticks)[name], LastMention(ticks[j].current, name),
                              ticks[i].observedAt, ticks[j].observedAt)
  {
    var n := |ticks| - 1;
    var init, last := ticks[..n], ticks[n];
    var before := MirrorAfter(c, init);
    StepRepeats(c, before, last, name);
    assert ticks[..n + 1] == ticks;
    if name in before {
      i := RowRepeats(c, init, name);
      hide MirrorStep, ReachedIn, Repeats;
      OpenedStill(c, ticks, name, i);
    } else {
      i := n;
    }
  }

  lemma OpenedStill(c: Crypto, ticks: seq<MirrorTick>, name: Bytes, i: nat)
    requires ticks != [] && OpenedAt(c, ticks[..|ticks| - 1], name, i) && name in MirrorAfter(c, ticks)
    ensures OpenedAt(c, ticks, name, i)
  {
    hide MirrorAfter, Listed;
    var init := ticks[..|ticks| - 1];
    assert ticks[..|ticks|] == ticks && init[..i] == ticks[..i];
    forall k | i < k <= |ticks| ensures name in MirrorAfter(c, ticks[..k]) {
      if k < |ticks| { assert init[..k] == ticks[..k]; }
    }
  }

  /** One tick either repeats a name anew or leaves what its row says alone. */
  lemma StepRepeats(c: Crypto, rows: Table, tick: MirrorTick, name: Bytes)
    requires name in MirrorStep(c, rows, tick)
    ensures var row := MirrorStep(c, rows, tick)[name];
            if Listed(tick, name) then
              Repeats(c, row, LastMention(tick.current, name),
                      if name in rows then rows[name].firstObserved else tick.observedAt, tick.observedAt)
            else
              && name in rows
              && forall m, first, last :: Repeats(c, rows[name], m, first, last) ==> Repeats(c, row, m, first, last)
  {
    PersistedRows(c, rows, tick.current, tick.observedAt, name);
    if Listed(tick, name) {
      PersistedRepeats(c, rows, tick.current, tick.observedAt, name);
    }
    hide Persisted, NamesOf, ReachedIn, LastMention;
  }

  ghost predicate NoneBlocked(c: Crypto, ticks: seq<MirrorTick>) {
    forall i :: 0 <= i < |ticks| ==> BlockedAt(c, ticks, i) == {}
  }

  lemma NoneBlockedBefore(c: Crypto, ticks: seq<MirrorTick>)
    requires ticks != [] && NoneBlocked(c, ticks)
    ensures var init := ticks[..|ticks| - 1];
            NoneBlocked(c, init) && BlockedIn(c, MirrorAfter(c, init), ticks[|ticks| - 1]) == {}
  {
    hide BlockedIn, MirrorAfter;
    var init := ticks[..|ticks| - 1];
    assert BlockedAt(c, ticks, |init|) == {};
    forall i | 0 <= i < |init| ensures BlockedAt(c, init, i) == {} {
      assert init[..i] == ticks[..i] && BlockedAt(c, ticks, i) == {};
    }
  }

  lemma AllReached(c: Crypto, rows: Table, tick: MirrorTick, name: Bytes)
    requires BlockedIn(c, rows, tick) == {} && name in rows
    ensures name in ReachedIn(c, rows, tick)
  {
    PersistedRows(c, rows, tick.current, tick.observedAt, name);
    hide Persisted, NamesOf, BlockedIn;
  }

  /**
   If no eviction is refused and the clock never runs back, a name absent now has a row exactly while its
   retention of thirty days lasts, stamped with the first tick after its last sighting.
   */
  lemma {:induction false} UnblockedHistory(c: Crypto, ticks: seq<MirrorTick>, name: Bytes)
    requires ticks != [] && NoneBlocked(c, ticks)
    requires forall i, j :: 0 <= i < j < |ticks| ==> ticks[i].now <= ticks[j].now
    ensures var rows := MirrorAfter(c, ticks);
            match LastSeen(ticks, name)
            case None => name !in rows
            case Some(j) =>
              if j == |ticks| - 1 then name in rows && rows[name].deletedAt.None?
              else
                var stamp := ticks[j + 1].now;
                && (name in rows <==> ticks[|ticks| - 1].now - stamp < 2_592_000_000)
                && (name in rows ==> rows[name].deletedAt == Some(stamp) && rows[name].status == Ascii("deleted"))
  {
    var init, last := ticks[..|ticks| - 1], ticks[|ticks| - 1];
    var before := MirrorAfter(c, init);
    NoneBlockedBefore(c, ticks);
    StepRow(c, before, last, name);
    if name in before {
      AllReached(c, before, last, name);
    }
    assert MirrorAfter(c, ticks) == MirrorStep(c, before, last);
    assert LastSeen(ticks, name) == if Listed(last, name) then Some(|init|) else LastSeen(init, name);
    if init == [] {
      assert LastSeen(init, name) == None && before == map[];
    } else {
      UnblockedHistory(c, init, name);
    }
    hide MirrorStep, MirrorAfter, LastSeen, BlockedIn, ReachedIn, NoneBlocked, Listed;
  }

  /** A name that blocks one tick blocks every later one until upstream lists it again. */
  lemma {:induction false} BlockedUntilListed(c: Crypto, ticks: seq<MirrorTick>, i: nat, j: nat, name: Bytes)
    requires i <= j < |ticks| && name in BlockedAt(c, ticks, i)
    requires forall k :: i < k <= j ==>
               !Listed(ticks[k], name) && name in ticks[k].enriched && ticks[i].now <= ticks[k].now
    ensures name in BlockedAt(c, ticks, j)
    ensures var rows := MirrorAfter(c, ticks[..j]);
            name in rows && !Listed(ticks[j], name) && Expired(rows[name].deletedAt, ticks[i].now, RETENTION)
  {
    hide Persisted, NamesOf, MirrorStep, ReconciledAmong, MirrorAfter;
    var rows := MirrorAfter(c, ticks[..j]);
    PersistedRows(c, rows, ticks[j].current, ticks[j].observedAt, name);
    if i < j {
      BlockedUntilListed(c, ticks, i, j - 1, name);
      StepRow(c, MirrorAfter(c, ticks[..j - 1]), ticks[j - 1], name);
      assert rows == MirrorStep(c, MirrorAfter(c, ticks[..j - 1]), ticks[j - 1]) by {
        AfterStep(c, ticks, j);
      }
    }
  }

  lemma AfterStep(c: Crypto, ticks: seq<MirrorTick>, j: nat)
    requires 0 < j <= |ticks|
    ensures MirrorAfter(c, ticks[..j]) == MirrorStep(c, MirrorAfter(c, ticks[..j - 1]), ticks[j - 1])
  {
    assert ticks[..j][..j - 1] == ticks[..j - 1];
  }

  /** It happens: an enriched name listed once and then absent for the retention blocks the third tick. */
  lemma EnrichedNameBlocks(c: Crypto, s: Mirrored, listed: MirrorTick, absent: MirrorTick, later: MirrorTick)
    requires listed.current == [s] && absent.current == [] == later.current
    requires later.now - absent.now >= RETENTION && s.entry.name in later.enriched
    ensures s.entry.name in BlockedAt(c, [listed, absent, later], 2)
  {
    var name := s.entry.name;
    var ticks := [listed, absent, later];
    assert ticks[..0] == [] && ticks[..1] == [listed] && ticks[..2] == [listed, absent];
    AfterStep(c, ticks, 1);
    AfterStep(c, ticks, 2);
    var one, two := MirrorAfter(c, ticks[..1]), MirrorAfter(c, ticks[..2]);
    assert s in listed.current && Listed(listed, name);
    StepRow(c, map[], listed, name);
    NothingStamped(c, listed, absent);
    AllReached(c, one, absent, name);
    StepRow(c, one, absent, name);
    PersistedRows(c, two, later.current, later.observedAt, name);
    hide MirrorStep, Persisted, ServerHash, ReachedIn, MirrorAfter;
  }

  /** The second tick of a run finds no row stamped. */
  lemma NothingStamped(c: Crypto, first: MirrorTick, second: MirrorTick)
    ensures BlockedIn(c, MirrorStep(c, map[], first), second) == {}
  {
    var one := MirrorStep(c, map[], first);
    forall n | n in BlockedIn(c, one, second) ensures false {
      StepRow(c, map[], first, n);
      PersistedRows(c, one, second.current, second.observedAt, n);
    }
  }
}
