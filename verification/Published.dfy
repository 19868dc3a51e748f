/** What the receipts that the producers sign say: about upstream, about a declaration, about a lockfile. */
module Published {
  import opened ByteStrings
  import opened Cbor
  import opened Receipts
  import opened SnapshotDigest
  import opened Chains
  import opened ReceiptFields
  import opened Mirror
  import CanonicalJson
  import Decimals
  import JsonFormat
  import SkillsLock
  import StableSort
  import Sync

  // ---- snapshots ----

  /** How the database column shows a count: capped at the largest 32-bit number, read as signed. */
  function Column(n: nat): int {
    if n < 0x8000_0000 then n else if n < 0xFFFF_FFFF then n - 0x1_0000_0000 else -1
  }

  /** The names among the entries, each once. */
  function NamesAmong(listed: seq<Entry>): set<Bytes> { set e | e in listed :: e.name }

  function Low64(n: nat): u64 { n % 0x1_0000_0000_0000_0000 }

  /** The octets say what the tick listed and which root came before: every name counts as added, nothing as removed. */
  ghost predicate SnapshotSaid(c: Crypto, f: seq<Pair>, tick: Sync.Tick, previous: Option<Digest>) {
    var listed := Sync.EntriesOf(tick.mirror.current);
    && SaysOctets(f, "event_id", tick.eventId, 16) && SaysOctets(f, "snapshot_id", tick.snapshotId, 16)
    && SaysNumber(f, "scraped_at", tick.scrapedAt) && SaysNumber(f, "server_count", Low64(|listed|))
    && SaysOctets(f, "snapshot_merkle_root", c.hash(SetPreimage(listed)), 32)
    && SaysHash(f, "previous_snapshot_hash", previous)
    && SaysText(f, "upstream_registry_uri", Ascii("https://registry.modelcontextprotocol.io/v0/servers"))
    && Says(f, "upstream_snapshot_etag", Null)
    && Says(f, "changes", Map([(Ascii("added"), Uint(Low64(|NamesAmong(listed)|))), (Ascii("removed"), Uint(0)),
                               (Ascii("modified"), Uint(0))]))
  }

  /** The columns of the row repeat what its octets say. */
  ghost predicate ColumnsAgree(f: seq<Pair>, row: Sync.SnapshotRow, tick: Sync.Tick) {
    && SaysOctets(f, "snapshot_id", row.snapshotId, 16) && SaysOctets(f, "snapshot_merkle_root", row.snapshotHash, 32)
    && SaysNumber(f, "scraped_at", row.scrapedAt)
    && row.serverCount == Column(Low64(|tick.mirror.current|))
    && SaysOctets(f, "receipt_hash", row.receiptHash, 32)
    && SaysOctets(f, "receipt_signature", row.receiptSignature, 64)
    && SaysText(f, "signer_kid", row.signerKid)
  }

  ghost predicate RowSays(c: Crypto, s: Sync.Signer, row: Sync.SnapshotRow, tick: Sync.Tick,
                          previous: Option<Digest>) {
    && SnapshotSaid(c, FieldsOf(row.receiptCbor), tick, previous)
    && ColumnsAgree(FieldsOf(row.receiptCbor), row, tick) && row.signerKid == s.kid
  }

  lemma NewRowSays(c: Crypto, s: Sync.Signer, rows: seq<Sync.SnapshotRow>, tick: Sync.Tick)
    ensures RowSays(c, s, Sync.NewRow(c, s, rows, tick), tick, Sync.LatestHash(rows))
  {
    hide SetPreimage, ToCanonicalCbor, ComputeHash, FieldsOf, Says, Ascii, BodyFields, Sync.LatestHash, WellFormedText;
    var plan := Sync.Plan(c, tick, Sync.LatestHash(rows), s.kid);
    var signed := plan.(signature := s.sign(ToCanonicalCbor(plan)));
    ReceiptSays(signed);
    SameNames(tick);
  }

  lemma SameNames(tick: Sync.Tick)
    ensures NamesAmong(Sync.EntriesOf(tick.mirror.current)) == NamesOf(tick.mirror.current)
  {
    var listed := Sync.EntriesOf(tick.mirror.current);
    forall n | n in NamesOf(tick.mirror.current) ensures exists e :: e in listed && e.name == n {
      var m :| m in tick.mirror.current && m.entry.name == n;
      var i :| 0 <= i < |tick.mirror.current| && tick.mirror.current[i] == m;
      assert listed[i] in listed;
    }
  }

  /** Row `i` says what tick `at[i]` listed, and names the root of the row before. */
  ghost predicate RowsSay(c: Crypto, s: Sync.Signer, ticks: seq<Sync.Tick>, rows: seq<Sync.SnapshotRow>,
                          at: seq<nat>) {
    && |at| == |rows|
    && (forall i :: 0 <= i < |at| ==> at[i] < |ticks| && RowFrom(c, s, ticks, rows, at, i))
    && (forall i, j :: 0 <= i < j < |at| ==> at[i] < at[j])
  }

  /** Tick `at[i]` completed and row `i` is what it published. */
  ghost predicate RowFrom(c: Crypto, s: Sync.Signer, ticks: seq<Sync.Tick>, rows: seq<Sync.SnapshotRow>, at: seq<nat>,
                          i: nat)
    requires i < |at| == |rows| && at[i] < |ticks|
  {
    && Sync.Completes(c, Sync.Run(c, s, ticks[..at[i]]), ticks[at[i]])
    && RowSays(c, s, rows[i], ticks[at[i]], if i == 0 then None else Some(rows[i - 1].snapshotHash))
  }

  /** Tick `j` has a row exactly if it completed and no row before took its snapshot id. */
  ghost predicate StoredIff(c: Crypto, s: Sync.Signer, ticks: seq<Sync.Tick>, rows: seq<Sync.SnapshotRow>,
                            at: seq<nat>, j: nat)
    requires |at| == |rows| && j < |ticks|
  {
    j in at <==>
    && Sync.Completes(c, Sync.Run(c, s, ticks[..j]), ticks[j])
    && !IdTaken(ticks, rows, at, j)
  }

  ghost predicate IdTaken(ticks: seq<Sync.Tick>, rows: seq<Sync.SnapshotRow>, at: seq<nat>, j: nat)
    requires |at| == |rows| && j < |ticks|
  {
    exists i :: 0 <= i < |at| && at[i] < j && rows[i].snapshotId == ticks[j].snapshotId
  }

  ghost predicate AllStored(c: Crypto, s: Sync.Signer, ticks: seq<Sync.Tick>, rows: seq<Sync.SnapshotRow>,
                            at: seq<nat>, n: nat) {
    |at| == |rows| && n <= |ticks| && forall j: nat :: j < n ==> StoredIff(c, s, ticks, rows, at, j)
  }

  /** After any run, every stored row says what one of the completed ticks observed, in the order of the ticks, and no
      completed tick with a new snapshot id is missing. */
  lemma {:induction false} EveryRowSays(c: Crypto, s: Sync.Signer, ticks: seq<Sync.Tick>, key: Bytes)
    returns (at: seq<nat>)
    requires Signs(c, key, s.sign) && Sync.ClockAdvances(ticks)
    ensures RowsSay(c, s, ticks, Sync.Run(c, s, ticks).snapshots, at)
    ensures AllStored(c, s, ticks, Sync.Run(c, s, ticks).snapshots, at, |ticks|)
  {
    if ticks == [] {
      at := [];
    } else {
      var n := |ticks| - 1;
      var init, tick := ticks[..n], ticks[n];
      at := EveryRowSays(c, s, init, key);
      var before := Sync.Run(c, s, init);
      var _ := Sync.RunHolds(c, s, init, key);
      Sync.StepRows(c, s, before, tick);
      assert Sync.Run(c, s, ticks) == Sync.Step(c, s, before, tick);
      NewRowId(c, s, before.snapshots, tick);
      NewRowSays(c, s, before.snapshots, tick);
      hide Sync.Run, Sync.Step, Sync.NewRow, Sync.Recorded, RowsSay, AllStored, Signs, Sync.Completes, Sync.Holds,
           Sync.InTimeOrder, RowSays, Sync.LatestHash;
      LaterTicks(c, s, ticks, before.snapshots, at);
      if Sync.Completes(c, before, tick) {
        at := RecordedSays(c, s, ticks, before.snapshots, at, Sync.NewRow(c, s, before.snapshots, tick));
      } else {
        FailedTick(c, s, ticks, before.snapshots, at);
      }
    }
  }

  /** A further tick does not change what the rows stored before it say. */
  lemma LaterTicks(c: Crypto, s: Sync.Signer, ticks: seq<Sync.Tick>, rows: seq<Sync.SnapshotRow>, at: seq<nat>)
    requires ticks != [] && RowsSay(c, s, ticks[..|ticks| - 1], rows, at)
    requires AllStored(c, s, ticks[..|ticks| - 1], rows, at, |ticks| - 1)
    ensures RowsSay(c, s, ticks, rows, at) && forall i :: 0 <= i < |at| ==> at[i] < |ticks| - 1
    ensures AllStored(c, s, ticks, rows, at, |ticks| - 1)
  {
    hide RowSays, Sync.Completes, Sync.Run;
    var init := ticks[..|ticks| - 1];
    forall j: nat | j < |ticks| - 1 ensures StoredIff(c, s, ticks, rows, at, j) {
      assert StoredIff(c, s, init, rows, at, j);
      assert init[..j] == ticks[..j];
    }
    forall i | 0 <= i < |at| ensures RowFrom(c, s, ticks, rows, at, i) {
      assert RowFrom(c, s, init, rows, at, i);
      assert init[..at[i]] == ticks[..at[i]];
    }
  }

  lemma FailedTick(c: Crypto, s: Sync.Signer, ticks: seq<Sync.Tick>, rows: seq<Sync.SnapshotRow>, at: seq<nat>)
    requires ticks != [] && AllStored(c, s, ticks, rows, at, |ticks| - 1)
    requires forall i :: 0 <= i < |at| ==> at[i] < |ticks| - 1
    requires !Sync.Completes(c, Sync.Run(c, s, ticks[..|ticks| - 1]), ticks[|ticks| - 1])
    ensures AllStored(c, s, ticks, rows, at, |ticks|)
  {
    hide Sync.Completes, Sync.Run;
    assert StoredIff(c, s, ticks, rows, at, |ticks| - 1);
  }

  /** One more tick, and one more row if its id is new. */
  lemma StoredNext(c: Crypto, s: Sync.Signer, ticks: seq<Sync.Tick>, rows: seq<Sync.SnapshotRow>, at: seq<nat>,
                   row: Sync.SnapshotRow)
    requires ticks != [] && AllStored(c, s, ticks, rows, at, |ticks| - 1)
    requires forall i :: 0 <= i < |at| ==> at[i] < |ticks| - 1
    requires Sync.Completes(c, Sync.Run(c, s, ticks[..|ticks| - 1]), ticks[|ticks| - 1])
    requires row.snapshotId == ticks[|ticks| - 1].snapshotId
    ensures if Sync.HasId(rows, row.snapshotId) then AllStored(c, s, ticks, rows, at, |ticks|)
            else AllStored(c, s, ticks, rows + [row], at + [|ticks| - 1], |ticks|)
  {
    hide Sync.Completes, Sync.Run;
    var n := |ticks| - 1;
    if Sync.HasId(rows, row.snapshotId) {
      assert IdTaken(ticks, rows, at, n);
      assert StoredIff(c, s, ticks, rows, at, n);
    } else {
      assert (at + [n])[|at|] == n;
      assert StoredIff(c, s, ticks, rows + [row], at + [n], n);
      forall j: nat | j < n ensures StoredIff(c, s, ticks, rows + [row], at + [n], j) {
        assert StoredIff(c, s, ticks, rows, at, j);
        assert forall i :: 0 <= i < |at| ==> (rows + [row])[i] == rows[i] && (at + [n])[i] == at[i];
        assert IdTaken(ticks, rows, at, j) <==> IdTaken(ticks, rows + [row], at + [n], j);
      }
    }
  }

  lemma RecordedSays(c: Crypto, s: Sync.Signer, ticks: seq<Sync.Tick>, rows: seq<Sync.SnapshotRow>, at: seq<nat>,
                     row: Sync.SnapshotRow)
    returns (more: seq<nat>)
    requires ticks != [] && RowsSay(c, s, ticks, rows, at) && forall i :: 0 <= i < |at| ==> at[i] < |ticks| - 1
    requires Sync.InTimeOrder(rows) && AllStored(c, s, ticks, rows, at, |ticks| - 1)
    requires Sync.Completes(c, Sync.Run(c, s, ticks[..|ticks| - 1]), ticks[|ticks| - 1])
    requires RowSays(c, s, row, ticks[|ticks| - 1], Sync.LatestHash(rows))
    requires row.snapshotId == ticks[|ticks| - 1].snapshotId
    ensures var r := Sync.Recorded(rows, row, s.retention);
            RowsSay(c, s, ticks, r, more) && AllStored(c, s, ticks, r, more, |ticks|)
  {
    hide Sync.Completes, Sync.Run, RowsSay, RowSays, AllStored, Sync.InTimeOrder, Sync.Pruned, Sync.HasId,
         Sync.LatestHash;
    StoredNext(c, s, ticks, rows, at, row);
    if Sync.HasId(rows, row.snapshotId) {
      more := at;
      PrunedSays(c, s, ticks, rows, at);
    } else {
      more := at + [|ticks| - 1];
      AppendSays(c, s, ticks, rows, at, row, |ticks| - 1);
      PrunedSays(c, s, ticks, rows + [row], more);
    }
  }

  /** The last tick completes, and `row` says what it found. */
  ghost predicate LastPublishes(c: Crypto, s: Sync.Signer, ticks: seq<Sync.Tick>, rows: seq<Sync.SnapshotRow>,
                                row: Sync.SnapshotRow)
    requires ticks != []
  {
    && Sync.Completes(c, Sync.Run(c, s, ticks[..|ticks| - 1]), ticks[|ticks| - 1])
    && RowSays(c, s, row, ticks[|ticks| - 1], Sync.LatestHash(rows))
  }

  lemma AppendSays(c: Crypto, s: Sync.Signer, ticks: seq<Sync.Tick>, rows: seq<Sync.SnapshotRow>, at: seq<nat>,
                   row: Sync.SnapshotRow, n: nat)
    requires |ticks| == n + 1 && RowsSay(c, s, ticks, rows, at) && forall i :: 0 <= i < |at| ==> at[i] < n
    requires Sync.InTimeOrder(rows) && LastPublishes(c, s, ticks, rows, row)
    ensures RowsSay(c, s, ticks, rows + [row], at + [n])
  {
    hide Sync.Completes, Sync.Run, RowSays, Sync.LatestHash, Sync.InTimeOrder;
    var more := at + [n];
    Sync.LatestIsLast(rows);
    forall i | 0 <= i < |more| ensures RowFrom(c, s, ticks, rows + [row], more, i) {
      if i < |at| { assert RowFrom(c, s, ticks, rows, at, i); }
    }
  }

  lemma NewRowId(c: Crypto, s: Sync.Signer, rows: seq<Sync.SnapshotRow>, tick: Sync.Tick)
    ensures Sync.NewRow(c, s, rows, tick).snapshotId == tick.snapshotId
  {
    hide SetPreimage, ToCanonicalCbor, ComputeHash, Sync.LatestHash;
  }

  /** Dropping entry sets changes nothing a row says. */
  lemma PrunedSays(c: Crypto, s: Sync.Signer, ticks: seq<Sync.Tick>, rows: seq<Sync.SnapshotRow>, at: seq<nat>)
    requires RowsSay(c, s, ticks, rows, at) && AllStored(c, s, ticks, rows, at, |ticks|)
    ensures RowsSay(c, s, ticks, Sync.Pruned(rows, s.retention), at)
    ensures AllStored(c, s, ticks, Sync.Pruned(rows, s.retention), at, |ticks|)
  {
    hide SnapshotSaid, Sync.Completes, Sync.Run, Sync.AheadOf, FieldsOf, Says;
    var r := Sync.Pruned(rows, s.retention);
    forall i | 0 <= i < |at| ensures RowFrom(c, s, ticks, r, at, i) {
      assert RowFrom(c, s, ticks, rows, at, i);
      assert r[i].(entries := None) == rows[i].(entries := None);
    }
    forall j: nat | j < |ticks| ensures StoredIff(c, s, ticks, r, at, j) {
      assert StoredIff(c, s, ticks, rows, at, j);
      assert forall i :: 0 <= i < |at| ==> r[i].snapshotId == rows[i].snapshotId;
      assert IdTaken(ticks, rows, at, j) <==> IdTaken(ticks, r, at, j);
    }
  }

  // ---- skills lockfiles ----

  /** The members of an entry by name. */
  function ByName(e: SkillsLock.LockEntry): seq<CanonicalJson.Member> {
    [ (Ascii("computedHash"), CanonicalJson.JString(e.computedHash)), (Ascii("ref"), CanonicalJson.JString(e.gitRef)),
      (Ascii("skillPath"), CanonicalJson.JString(e.skillPath)), (Ascii("source"), CanonicalJson.JString(e.source)),
      (Ascii("sourceType"), CanonicalJson.JString(e.sourceType)) ]
  }

  lemma ByNameSame(ryu: Decimals.Ryu, e: SkillsLock.LockEntry)
    ensures CanonicalJson.JsonText(ryu, SkillsLock.EntryJson(e)) ==
            CanonicalJson.JsonText(ryu, CanonicalJson.JObject(ByName(e)))
    ensures StableSort.DistinctKeys(ByName(e))
  {
    hide CanonicalJson.JsonText, WellFormedText;
    var a, b := SkillsLock.EntryJson(e).members, ByName(e);
    assert |a[0].0| == 6 && |a[1].0| == 10 && |a[2].0| == 9 && |a[3].0| == 3 && |a[4].0| == 12;
    hide Ascii;
    assert a[0] == b[3] && a[1] == b[4] && a[2] == b[2] && a[3] == b[1] && a[4] == b[0];
    CanonicalJson.MemberOrderIgnored(ryu, a, b);
  }

  lemma NamesAscend()
    ensures Less(Ascii("computedHash"), Ascii("ref")) && Less(Ascii("ref"), Ascii("skillPath"))
    ensures Less(Ascii("skillPath"), Ascii("source")) && Less(Ascii("source"), Ascii("sourceType"))
  {
    var skill, source, kind := Ascii("skillPath"), Ascii("source"), Ascii("sourceType");
    assert skill[0] == source[0] && skill[1..][0] < source[1..][0];
    assert kind == source + Ascii("Type");
    LessAfterPrefix(source, [], Ascii("Type"));
    assert source + [] == source;
  }

  /** Members already by name are written in the order listed. */
  lemma ByNameSorted(ryu: Decimals.Ryu, e: SkillsLock.LockEntry)
    ensures StableSort.Sort(Less, CanonicalJson.MemberTexts(ryu, ByName(e))) ==
            CanonicalJson.MemberTexts(ryu, ByName(e))
  {
    NamesAscend();
    LessIsStrictOrder();
    hide Less, Ascii, CanonicalJson.JsonText, WellFormedText;
    var rows := CanonicalJson.MemberTexts(ryu, ByName(e));
    assert forall p, q :: 0 <= p < q < 5 ==> Less(rows[p].0, rows[q].0);
    StableSort.SortSorted(Less, rows);
  }

  /** Text that needs no escape is written as it is. */
  lemma {:induction false} PlainText(t: Bytes)
    requires forall i :: 0 <= i < |t| ==> 32 <= t[i] && t[i] != 34 && t[i] != 92
    ensures CanonicalJson.Escaped(t) == t
  {
    if t != [] {
      PlainText(t[1..]);
      assert t == [t[0]] + t[1..];
    }
  }

  /** A name between quotes. */
  function InQuotes(name: string): Bytes { Ascii("\"") + Ascii(name) + Ascii("\"") }

  lemma QuotedName(name: string)
    requires forall i :: 0 <= i < |name| ==> ' ' <= name[i] <= '~' && name[i] != '\"' && name[i] != '\\'
    ensures CanonicalJson.QuotedText(Ascii(name)) == InQuotes(name)
  {
    PlainText(Ascii(name));
    assert Ascii("\"") == [34];
  }

  /** The five names as the text has them. */
  function QuotedNames(): (r: seq<Bytes>)
    ensures |r| == 5
  {
    [InQuotes("computedHash"), InQuotes("ref"), InQuotes("skillPath"), InQuotes("source"), InQuotes("sourceType")]
  }

  lemma NamesQuoted(e: SkillsLock.LockEntry)
    ensures forall i :: 0 <= i < 5 ==> CanonicalJson.QuotedText(ByName(e)[i].0) == QuotedNames()[i]
  {
    hide CanonicalJson.QuotedText, Ascii, InQuotes;
    QuotedName("computedHash");
    QuotedName("ref");
    QuotedName("skillPath");
    QuotedName("source");
    QuotedName("sourceType");
  }

  /** The canonical text of an entry: five quoted texts behind their names, the names in order. */
  lemma EntryText(ryu: Decimals.Ryu, e: SkillsLock.LockEntry, quoted: seq<Bytes>)
    requires |quoted| == 5
    requires JsonFormat.Quoted(quoted[0], e.computedHash) && JsonFormat.Quoted(quoted[1], e.gitRef)
    requires JsonFormat.Quoted(quoted[2], e.skillPath) && JsonFormat.Quoted(quoted[3], e.source)
    requires JsonFormat.Quoted(quoted[4], e.sourceType)
    ensures CanonicalJson.JsonText(ryu, SkillsLock.EntryJson(e)) ==
            Ascii("{") + JsonFormat.Listed(JsonFormat.Entries(QuotedNames(), quoted)) + Ascii("}")
  {
    hide *;
    ByNameSame(ryu, e);
    NamesQuoted(e);
    QuotedTexts(ryu, e, quoted);
    var parts := SortedParts(ryu, e);
    PartsAreEntries(ryu, e, parts, quoted);
    JsonFormat.ListedIsJoined(parts);
    JsonFormat.LiteralTexts();
  }

  lemma SortedParts(ryu: Decimals.Ryu, e: SkillsLock.LockEntry) returns (parts: seq<Bytes>)
    ensures parts == CanonicalJson.MemberParts(CanonicalJson.MemberTexts(ryu, ByName(e)))
    ensures CanonicalJson.JsonText(ryu, CanonicalJson.JObject(ByName(e))) ==
            [CanonicalJson.OPEN_OBJECT] + CanonicalJson.Joined(parts) + [CanonicalJson.CLOSE_OBJECT]
  {
    ByNameSorted(ryu, e);
    hide StableSort.Sort, Ascii, ByName, CanonicalJson.Joined;
    parts := CanonicalJson.MemberParts(CanonicalJson.MemberTexts(ryu, ByName(e)));
  }

  lemma PartsAreEntries(ryu: Decimals.Ryu, e: SkillsLock.LockEntry, parts: seq<Bytes>, quoted: seq<Bytes>)
    requires parts == CanonicalJson.MemberParts(CanonicalJson.MemberTexts(ryu, ByName(e))) && |quoted| == 5
    requires forall i :: 0 <= i < 5 ==> CanonicalJson.QuotedText(ByName(e)[i].0) == QuotedNames()[i]
    requires forall i :: 0 <= i < 5 ==> quoted[i] == CanonicalJson.JsonText(ryu, ByName(e)[i].1)
    ensures parts == JsonFormat.Entries(QuotedNames(), quoted)
  {
    JsonFormat.LiteralTexts();
    hide Ascii, CanonicalJson.QuotedText, CanonicalJson.JsonText, QuotedNames;
  }

  lemma QuotedTexts(ryu: Decimals.Ryu, e: SkillsLock.LockEntry, quoted: seq<Bytes>)
    requires |quoted| == 5
    requires JsonFormat.Quoted(quoted[0], e.computedHash) && JsonFormat.Quoted(quoted[1], e.gitRef)
    requires JsonFormat.Quoted(quoted[2], e.skillPath) && JsonFormat.Quoted(quoted[3], e.source)
    requires JsonFormat.Quoted(quoted[4], e.sourceType)
    ensures forall i :: 0 <= i < 5 ==> quoted[i] == CanonicalJson.JsonText(ryu, ByName(e)[i].1)
  {
    hide Ascii, JsonFormat.Quoted, CanonicalJson.QuotedText;
    JsonFormat.QuotedSpelled(quoted[0], e.computedHash);
    JsonFormat.QuotedSpelled(quoted[1], e.gitRef);
    JsonFormat.QuotedSpelled(quoted[2], e.skillPath);
    JsonFormat.QuotedSpelled(quoted[3], e.source);
    JsonFormat.QuotedSpelled(quoted[4], e.sourceType);
  }

  /** What a receipt prepared and signed for a lockfile says about it. */
  lemma LockReceiptSays(c: Crypto, ryu: Decimals.Ryu, lock: SkillsLock.SkillLock, draft: SkillsLock.ReceiptDraft,
                        sign: Bytes -> Option<Signature>, entries: seq<Entry>)
    requires SkillsLock.PrepareReceipt(c, ryu, lock, draft).Ready?
    requires |entries| == |lock.skills| && forall i :: 0 <= i < |entries| ==>
               && entries[i].name == lock.skills[i].0 && entries[i].version == lock.skills[i].1.gitRef
               && entries[i].json == CanonicalJson.JsonText(ryu, SkillsLock.EntryJson(lock.skills[i].1))
    ensures var r := SkillsLock.SignedReceipt(c, SkillsLock.PrepareReceipt(c, ryu, lock, draft).receipt, sign);
            var f := FieldsOf(ToCanonicalCbor(r));
            && SaysOctets(f, "event_id", draft.eventId, 16) && SaysOctets(f, "snapshot_id", draft.snapshotId, 16)
            && SaysNumber(f, "signed_at_ms", draft.signedAtMs)
            && SaysNumber(f, "skill_count", Low64(|lock.skills|)) && SaysNumber(f, "lock_version", lock.version)
            && SaysOctets(f, "lock_merkle_root", c.hash(SetPreimage(entries)), 32)
            && SaysHash(f, "previous_snapshot_hash", draft.previous)
            && SaysText(f, "signer_kid", draft.kid)
  {
    hide SetPreimage, ToCanonicalCbor, ComputeHash, FieldsOf, Says, Ascii, BodyFields, SkillsLock.Signable,
         WellFormedText, CanonicalJson.JsonText;
    var r := SkillsLock.SignedReceipt(c, SkillsLock.PrepareReceipt(c, ryu, lock, draft).receipt, sign);
    assert entries == SkillsLock.DigestEntries(ryu, lock);
    ReceiptSays(r);
  }
}
