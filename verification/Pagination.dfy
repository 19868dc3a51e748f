/** Cursor pagination: the listing of the mirror store, and the loop that fetches every page. */
module Pagination {
  import opened ByteStrings
  import opened StableSort
  import opened SnapshotDigest

  /** The fields of a stored record the listing looks at; name and version may be missing. */
  datatype Record = Record(name: Option<Bytes>, version: Option<Bytes>, deleted: bool, latest: bool,
                           updatedAt: Option<Bytes>, statusChangedAt: Option<Bytes>, publishedAt: Option<Bytes>)

  datatype Request = Request(cursor: Option<Bytes>, limit: Option<nat>, updatedSince: Option<Bytes>,
                             search: Option<Bytes>, version: Option<Bytes>, includeDeleted: bool)

  const DEFAULT_PAGE_LIMIT := 30
  const MAX_PAGE_LIMIT := 100
  const MAX_PAGES_PER_RUN := 1000

  const LATEST := Ascii("latest")

  /** `normalized_limit` */
  function NormalizedLimit(r: Request): (n: nat)
    ensures 1 <= n <= MAX_PAGE_LIMIT
  {
    var n := if r.limit.None? then DEFAULT_PAGE_LIMIT else r.limit.value;
    if n < 1 then 1 else if n > MAX_PAGE_LIMIT then MAX_PAGE_LIMIT else n
  }

  // ---- which records, in which order ----

  function OrDefault(t: Option<Bytes>): Bytes { if t.None? then [] else t.value }

  function OrElse(a: Option<Bytes>, b: Option<Bytes>): Option<Bytes> { if a.Some? then a else b }

  /** `cursor_token`: `name:version`, an error when either is missing. */
  function Token(r: Record): (token: Option<Bytes>)
    ensures token.Some? ==> token.value != []
  {
    if r.name.None? || r.version.None? then None else Some(r.name.value + [58] + r.version.value)
  }

  function AsciiLower(t: Bytes): Bytes {
    seq(|t|, i requires 0 <= i < |t| => if 65 <= t[i] < 91 then t[i] + 32 else t[i])
  }

  predicate Contains(t: Bytes, needle: Bytes) { needle <= t || (t != [] && Contains(t[1..], needle)) }

  predicate Matches(q: Request, r: Record) {
    && (q.includeDeleted || q.updatedSince.Some? || !r.deleted)
    && (q.search.Some? ==> r.name.Some? && Contains(AsciiLower(r.name.value), AsciiLower(q.search.value)))
    && (q.version.Some? ==> if q.version.value == LATEST then r.latest else r.version == q.version)
    && (q.updatedSince.Some? ==>
          var at := OrElse(OrElse(r.updatedAt, r.statusChangedAt), r.publishedAt);
          at.Some? && !Less(at.value, q.updatedSince.value))
  }

  function Filtered(records: seq<Record>, q: Request): (r: seq<Record>)
    ensures forall x :: x in r <==> x in records && Matches(q, x)
  {
    if records == [] then []
    else
      var rest := Filtered(records[1..], q);
      assert records == [records[0]] + records[1..];
      if Matches(q, records[0]) then [records[0]] + rest else rest
  }

  function Named(records: seq<Record>): (rows: seq<(Key, Record)>)
    ensures |rows| == |records|
    ensures forall i :: 0 <= i < |rows| ==>
            rows[i] == ((OrDefault(records[i].name), OrDefault(records[i].version)), records[i])
  {
    seq(|records|,
        i requires 0 <= i < |records| => ((OrDefault(records[i].name), OrDefault(records[i].version)), records[i]))
  }

  function Unnamed(rows: seq<(Key, Record)>): (records: seq<Record>)
    ensures |records| == |rows| && forall i :: 0 <= i < |rows| ==> records[i] == rows[i].1
  {
    seq(|rows|, i requires 0 <= i < |rows| => rows[i].1)
  }

  /** The matching records by name, then version, equal ones in stored order. */
  function Matching(records: seq<Record>, q: Request): seq<Record> {
    Unnamed(Sort(EntryLess, Named(Filtered(records, q))))
  }

  /** First row with the given token. */
  function Position(rows: seq<Record>, token: Bytes): (i: Option<nat>)
    ensures i.Some? ==> i.value < |rows| && Token(rows[i.value]) == Some(token)
                        && forall j :: 0 <= j < i.value ==> Token(rows[j]) != Some(token)
    ensures i.None? ==> forall j :: 0 <= j < |rows| ==> Token(rows[j]) != Some(token)
  {
    if rows == [] then None
    else if Token(rows[0]) == Some(token) then Some(0)
    else
      var i := Position(rows[1..], token);
      assert forall j :: 0 < j < |rows| ==> rows[j] == rows[1..][j - 1];
      if i.None? then None else Some(i.value + 1)
  }

  datatype Listing = Page(servers: seq<Record>, nextCursor: Option<Bytes>) | InvalidCursor | BadRequest

  function PageOf(rows: seq<Record>, limit: nat): Listing
    requires limit > 0
  {
    if |rows| <= limit then Page(rows, None)
    else
      var last := Token(rows[limit - 1]);
      if last.None? then BadRequest else Page(rows[..limit], last)
  }

  /** `list_servers` over `filtered_records` */
  function ListServers(records: seq<Record>, q: Request): Listing {
    var rows, limit := Matching(records, q), NormalizedLimit(q);
    if q.cursor.None? then PageOf(rows, limit)
    else
      var at := Position(rows, q.cursor.value);
      if at.None? then InvalidCursor else PageOf(rows[at.value + 1..], limit)
  }

  // ---- following the cursors ----

  datatype Fetched = Complete(servers: seq<Record>) | Failed(error: Listing)

  /** At most `pages` pages of the listing, one after the other from `cursor`. */
  function Chained(records: seq<Record>, q: Request, cursor: Option<Bytes>, pages: nat): Fetched
    decreases pages
  {
    if pages == 0 then Complete([])
    else
      match ListServers(records, q.(cursor := cursor))
      case Page(servers, next) =>
        if next.None? || next.value == [] then Complete(servers)
        else
          var more := Chained(records, q, next, pages - 1);
          if more.Failed? then more else Complete(servers + more.servers)
      case error => Failed(error)
  }

  const ALL_SERVERS := Request(None, Some(MAX_PAGE_LIMIT), None, None, None, false)

  /** `fetch_all_pages`, driven against one store. */
  method FetchAllPages(records: seq<Record>) returns (r: Fetched)
    ensures r == Chained(records, ALL_SERVERS, None, MAX_PAGES_PER_RUN)
  {
    hide ListServers;
    var envelopes, cursor := [], None;
    for i := 0 to MAX_PAGES_PER_RUN
      invariant Chained(records, ALL_SERVERS, None, MAX_PAGES_PER_RUN) ==
                Prepend(envelopes, Chained(records, ALL_SERVERS, cursor, MAX_PAGES_PER_RUN - i))
    {
      var response := ListServers(records, ALL_SERVERS.(cursor := cursor));
      if !response.Page? {
        return Failed(response);
      }
      ghost var before := envelopes;
      envelopes := envelopes + response.servers;
      if response.nextCursor.None? || response.nextCursor.value == [] {
        return Complete(envelopes);
      }
      cursor := response.nextCursor;
      PrependTwice(before, response.servers, Chained(records, ALL_SERVERS, cursor, MAX_PAGES_PER_RUN - i - 1));
    }
    r := Complete(envelopes);
  }

  function Prepend(servers: seq<Record>, f: Fetched): Fetched {
    if f.Failed? then f else Complete(servers + f.servers)
  }

  lemma PrependTwice(a: seq<Record>, b: seq<Record>, f: Fetched)
    ensures Prepend(a, Prepend(b, f)) == Prepend(a + b, f)
  {
  }

  // ---- nothing lost, nothing twice ----

  ghost predicate DistinctTokens(rows: seq<Record>) {
    && (forall i :: 0 <= i < |rows| ==> Token(rows[i]).Some?)
    && (forall i, j :: 0 <= i < j < |rows| ==> Token(rows[i]) != Token(rows[j]))
  }

  ghost predicate DistinctRows(rows: seq<Record>) { forall i, j :: 0 <= i < j < |rows| ==> rows[i] != rows[j] }

  /** The listing is the set of matching records, without losing or repeating any. */
  lemma MatchingIsFiltered(records: seq<Record>, q: Request)
    ensures |Matching(records, q)| == |Filtered(records, q)|
    ensures SameMembers(Matching(records, q), Filtered(records, q))
    ensures DistinctTokens(Filtered(records, q)) ==> DistinctTokens(Matching(records, q))
    ensures DistinctRows(Filtered(records, q)) ==> DistinctRows(Matching(records, q))
  {
    hide EntryLess, Order, Matches, Filtered, StrictOrder;
    var rows := Named(Filtered(records, q));
    EntryLessIsStrictOrder();
    OrderIsStable(EntryLess, Keys(rows));
    var idx := Order(EntryLess, Keys(rows));
    hide Before;
    assert forall p :: 0 <= p < |rows| ==> Matching(records, q)[p] == Filtered(records, q)[idx[p]];
    forall x ensures x in Matching(records, q) <==> x in Filtered(records, q) {
      if x in Filtered(records, q) {
        var i :| 0 <= i < |rows| && Filtered(records, q)[i] == x;
        assert i in idx;
        var p :| 0 <= p < |idx| && idx[p] == i;
        assert Matching(records, q)[p] == x;
      }
    }
    if DistinctTokens(Filtered(records, q)) {
      SortedTokens(records, q);
    }
    if DistinctRows(Filtered(records, q)) {
      SortedDistinct(records, q);
    }
  }

  /** Two places of the sorted listing come from two places of the filtered records. */
  lemma SortedPlaces(records: seq<Record>, q: Request, p: nat, n: nat) returns (i: nat, j: nat)
    requires p < n < |Matching(records, q)|
    ensures i < |Filtered(records, q)| && j < |Filtered(records, q)| && i != j
    ensures Matching(records, q)[p] == Filtered(records, q)[i] && Matching(records, q)[n] == Filtered(records, q)[j]
  {
    hide EntryLess, Order, Matches, Filtered;
    var rows := Named(Filtered(records, q));
    EntryLessIsStrictOrder();
    OrderIsStable(EntryLess, Keys(rows));
    i, j := Order(EntryLess, Keys(rows))[p], Order(EntryLess, Keys(rows))[n];
    assert Before(EntryLess, Keys(rows), i, j);
  }

  lemma SortedTokens(records: seq<Record>, q: Request)
    requires DistinctTokens(Filtered(records, q)) && SameMembers(Matching(records, q), Filtered(records, q))
    ensures DistinctTokens(Matching(records, q))
  {
    hide Matching, Filtered, Token;
    var sorted, given := Matching(records, q), Filtered(records, q);
    forall p | 0 <= p < |sorted| ensures Token(sorted[p]).Some? {
      assert sorted[p] in given;
    }
    forall p, n | 0 <= p < n < |sorted| ensures Token(sorted[p]) != Token(sorted[n]) {
      var i, j := SortedPlaces(records, q, p, n);
    }
  }

  lemma SortedDistinct(records: seq<Record>, q: Request)
    requires DistinctRows(Filtered(records, q))
    ensures DistinctRows(Matching(records, q))
  {
    hide Matching, Filtered;
    var sorted := Matching(records, q);
    forall p, n | 0 <= p < n < |sorted| ensures sorted[p] != sorted[n] {
      var i, j := SortedPlaces(records, q, p, n);
    }
  }

  // ---- the listing in the request's own terms ----

  /**
   `rows` are the stored records at `places`: every matching one, by name, then by version, a missing part
   counting as empty, and records that agree in both in stored order.
   */
  ghost predicate ListedInOrder(records: seq<Record>, q: Request, rows: seq<Record>, places: seq<nat>) {
    && |places| == |rows|
    && (forall i: nat :: i in places <==> i < |records| && Matches(q, records[i]))
    && (forall p :: 0 <= p < |places| ==> places[p] < |records| && rows[p] == records[places[p]])
    && forall p, n :: 0 <= p < n < |places| ==> Precedes(records, places[p], places[n])
  }

  /** Place `i` of the store is listed before place `j`. */
  predicate Precedes(records: seq<Record>, i: nat, j: nat)
    requires i < |records| && j < |records|
  {
    var a := if records[i].name.Some? then records[i].name.value else [];
    var b := if records[j].name.Some? then records[j].name.value else [];
    var v := if records[i].version.Some? then records[i].version.value else [];
    var w := if records[j].version.Some? then records[j].version.value else [];
    Less(a, b) || (a == b && (Less(v, w) || (v == w && i < j)))
  }

  /** Places one further on, with the first place before them if asked. */
  lemma ShiftPlaces(more: seq<nat>, first: bool) returns (at: seq<nat>)
    requires forall p, n :: 0 <= p < n < |more| ==> more[p] < more[n]
    ensures at == (if first then [0] else []) + seq(|more|, p requires 0 <= p < |more| => more[p] + 1)
    ensures forall i: nat :: i in at <==> if i == 0 then first else i - 1 in more
    ensures forall p, n :: 0 <= p < n < |at| ==> at[p] < at[n]
  {
    var later := seq(|more|, p requires 0 <= p < |more| => more[p] + 1);
    at := (if first then [0] else []) + later;
    forall i: nat | i > 0 && i - 1 in more ensures i in at {
      var p :| 0 <= p < |more| && more[p] == i - 1;
      assert later[p] == i;
    }
  }

  /** `at` are the stored places of the matching records, in stored order. */
  ghost predicate MatchingPlaces(records: seq<Record>, q: Request, at: seq<nat>) {
    && (forall i: nat :: i in at <==> i < |records| && Matches(q, records[i]))
    && forall p, n :: 0 <= p < n < |at| ==> at[p] < at[n]
  }

  lemma PlacesStep(records: seq<Record>, q: Request, more: seq<nat>) returns (at: seq<nat>)
    requires records != [] && MatchingPlaces(records[1..], q, more)
    ensures MatchingPlaces(records, q, at)
    ensures var first := if Matches(q, records[0]) then [0] else [];
            at == first + seq(|more|, p requires 0 <= p < |more| => more[p] + 1)
  {
    hide Matches;
    at := ShiftPlaces(more, Matches(q, records[0]));
    forall i: nat ensures i in at <==> i < |records| && Matches(q, records[i]) {
      if 0 < i < |records| { assert records[i] == records[1..][i - 1]; }
    }
  }

  ghost predicate Inside(at: seq<nat>, n: nat) { forall p :: 0 <= p < |at| ==> at[p] < n }

  lemma SelectStep(records: seq<Record>, more: seq<nat>, first: bool)
    requires records != [] && Inside(more, |records| - 1)
    ensures var at := (if first then [0] else []) + seq(|more|, p requires 0 <= p < |more| => more[p] + 1);
            Inside(at, |records|)
            && Select(records, at) == (if first then [records[0]] else []) + Select(records[1..], more)
  {
  }

  lemma {:induction false} FilteredPlaces(records: seq<Record>, q: Request) returns (at: seq<nat>)
    ensures MatchingPlaces(records, q, at) && Inside(at, |records|) && Filtered(records, q) == Select(records, at)
  {
    hide Matches, MatchingPlaces, Select;
    if records == [] {
      at := [];
      NoPlaces(q);
    } else {
      var more := FilteredPlaces(records[1..], q);
      at := PlacesStep(records, q, more);
      SelectStep(records, more, Matches(q, records[0]));
    }
  }

  lemma NoPlaces(q: Request)
    ensures MatchingPlaces([], q, []) && Select<Record>([], []) == []
  {
  }

  lemma SelectedPlaces(at: seq<nat>, idx: seq<nat>) returns (places: seq<nat>)
    requires |idx| == |at| && forall i: nat :: i in idx <==> i < |at|
    ensures |places| == |idx| && forall p :: 0 <= p < |idx| ==> idx[p] < |at| && places[p] == at[idx[p]]
    ensures forall i: nat :: i in places <==> i in at
  {
    assert forall p :: 0 <= p < |idx| ==> idx[p] in idx;
    places := Select(at, idx);
    forall i: nat | i in at ensures i in places {
      var k :| 0 <= k < |at| && at[k] == i;
      assert k in idx;
      var p :| 0 <= p < |idx| && idx[p] == k;
      assert places[p] == i;
    }
  }

  /** The listing is in the promised order, for every store and every request. */
  lemma MatchingInOrder(records: seq<Record>, q: Request) returns (places: seq<nat>)
    ensures ListedInOrder(records, q, Matching(records, q), places)
  {
    hide Filtered, Matches, MatchingPlaces, Precedes, EntryLess;
    var at := FilteredPlaces(records, q);
    var given := Filtered(records, q);
    var idx := SortedIndices(given);
    hide Order, Sort;
    places := SelectedPlaces(at, idx);
    PlacesMatch(records, q, at);
    forall p | 0 <= p < |places| ensures places[p] < |records| && Matching(records, q)[p] == records[places[p]] {
      assert given[idx[p]] == records[at[idx[p]]];
    }
    forall p, n | 0 <= p < n < |places| ensures Precedes(records, places[p], places[n]) {
      KeptOrder(records, q, at, idx[p], idx[n]);
    }
  }

  lemma PlacesMatch(records: seq<Record>, q: Request, at: seq<nat>)
    requires MatchingPlaces(records, q, at)
    ensures forall i: nat :: i in at <==> i < |records| && Matches(q, records[i])
  {
  }

  /** The sorting permutation of the given records, and what it sorts them into. */
  lemma SortedIndices(given: seq<Record>) returns (idx: seq<nat>)
    ensures |idx| == |given| && forall i: nat :: i in idx <==> i < |given|
    ensures forall p :: 0 <= p < |idx| ==>
              idx[p] < |given| && Unnamed(Sort(EntryLess, Named(given)))[p] == given[idx[p]]
    ensures forall p, n :: 0 <= p < n < |idx| ==> Before(EntryLess, Keys(Named(given)), idx[p], idx[n])
  {
    idx := Order(EntryLess, Keys(Named(given)));
    EntryLessIsStrictOrder();
    OrderIsStable(EntryLess, Keys(Named(given)));
    hide Order, EntryLess;
  }

  /** Two filtered rows stand to each other as their stored places do. */
  lemma KeptOrder(records: seq<Record>, q: Request, at: seq<nat>, i: nat, j: nat)
    requires MatchingPlaces(records, q, at) && Inside(at, |records|)
    requires Filtered(records, q) == Select(records, at) && i < |at| && j < |at|
    requires Before(EntryLess, Keys(Named(Filtered(records, q))), i, j)
    ensures Precedes(records, at[i], at[j])
  {
    hide Less, Matches;
  }

  /** The same character, upper and lower case counting as one. */
  predicate SameCharacter(a: byte, b: byte) {
    a == b || (65 <= a <= 90 && b == a + 32) || (65 <= b <= 90 && a == b + 32)
  }

  /** `needle` occurs in `t` at place `i`, upper and lower case counting as one. */
  predicate OccursAt(t: Bytes, needle: Bytes, i: nat) {
    i + |needle| <= |t| && forall j :: 0 <= j < |needle| ==> SameCharacter(t[i + j], needle[j])
  }

  lemma OccursLater(t: Bytes, needle: Bytes, i: nat)
    requires t != [] && i > 0
    ensures OccursAt(t, needle, i) <==> OccursAt(t[1..], needle, i - 1)
  {
    if OccursAt(t, needle, i) {
      forall j | 0 <= j < |needle| ensures SameCharacter(t[1..][i - 1 + j], needle[j]) {
        assert SameCharacter(t[i + j], needle[j]);
      }
    }
    if OccursAt(t[1..], needle, i - 1) {
      forall j | 0 <= j < |needle| ensures SameCharacter(t[i + j], needle[j]) {
        assert SameCharacter(t[1..][i - 1 + j], needle[j]);
      }
    }
  }

  lemma {:induction false} ContainsIff(t: Bytes, needle: Bytes)
    ensures Contains(AsciiLower(t), AsciiLower(needle)) <==> exists i: nat :: OccursAt(t, needle, i)
  {
    var low, part := AsciiLower(t), AsciiLower(needle);
    assert part <= low <==> OccursAt(t, needle, 0) by {
      if OccursAt(t, needle, 0) {
        assert forall j :: 0 <= j < |needle| ==> SameCharacter(t[0 + j], needle[j]);
      }
      if part <= low {
        forall j | 0 <= j < |needle| ensures SameCharacter(t[0 + j], needle[j]) {
          assert part[j] == low[j];
        }
      }
    }
    if t != [] {
      assert low[1..] == AsciiLower(t[1..]);
      ContainsIff(t[1..], needle);
      forall i: nat | i > 0 ensures OccursAt(t, needle, i) <==> OccursAt(t[1..], needle, i - 1) {
        OccursLater(t, needle, i);
      }
      if i: nat :| OccursAt(t[1..], needle, i) {
        assert OccursAt(t, needle, i + 1);
      }
    }
  }

  /** What each part of a request asks of a record. */
  lemma MatchesIff(q: Request, r: Record)
    ensures Matches(q, r) <==>
            && (r.deleted ==> q.includeDeleted || q.updatedSince.Some?)
            && (q.search.Some? ==> r.name.Some? && exists i: nat :: OccursAt(r.name.value, q.search.value, i))
            && (q.version == Some([108, 97, 116, 101, 115, 116]) ==> r.latest)
            && (q.version.Some? && q.version.value != [108, 97, 116, 101, 115, 116] ==> r.version == q.version)
            && (q.updatedSince.Some? ==>
                  var since := q.updatedSince.value;
                  if r.updatedAt.Some? then NotBefore(r.updatedAt.value, since)
                  else if r.statusChangedAt.Some? then NotBefore(r.statusChangedAt.value, since)
                  else r.publishedAt.Some? && NotBefore(r.publishedAt.value, since))
  {
    assert LATEST == [108, 97, 116, 101, 115, 116];
    if q.search.Some? && r.name.Some? { ContainsIff(r.name.value, q.search.value); }
    if q.updatedSince.Some? {
      forall at: Bytes ensures !Less(at, q.updatedSince.value) <==> NotBefore(at, q.updatedSince.value) {
        LessTotal(at, q.updatedSince.value);
        if Less(q.updatedSince.value, at) { LessAsymmetric(q.updatedSince.value, at); }
        if Less(at, q.updatedSince.value) { LessAsymmetric(at, q.updatedSince.value); }
      }
    }
    hide Less, Contains, OccursAt, AsciiLower;
  }

  predicate NotBefore(at: Bytes, since: Bytes) { at == since || Less(since, at) }

  function Take(rows: seq<Record>, n: nat): seq<Record> { if n < |rows| then rows[..n] else rows }

  /** A page holds the asked number of rows: 30 unless said, at least one, at most 100. */
  function PageLength(q: Request): nat {
    match q.limit
    case None => 30
    case Some(n) => if n == 0 then 1 else if n <= 100 then n else 100
  }

  /** `name:version` of a record that has both. */
  predicate Bears(r: Record, cursor: Bytes) {
    r.name.Some? && r.version.Some? && cursor == r.name.value + Ascii(":") + r.version.value
  }

  /**
   A request gets the rows that follow its cursor, as many as a page holds; a cursor no row bears is an error,
   and so is a page that has to name a last row without name or version.
   */
  lemma ListServersAnswers(records: seq<Record>, q: Request) returns (start: nat)
    ensures var rows, n := Matching(records, q), PageLength(q);
            && start <= |rows|
            && (q.cursor.None? ==> start == 0)
            && match ListServers(records, q)
               case InvalidCursor => q.cursor.Some? && forall r :: r in rows ==> !Bears(r, q.cursor.value)
               case BadRequest =>
                 && CursorAt(rows, q.cursor, start) && |rows| > start + n
                 && (rows[start + n - 1].name.None? || rows[start + n - 1].version.None?)
               case Page(servers, None) =>
                 CursorAt(rows, q.cursor, start) && |rows| <= start + n && servers == rows[start..]
               case Page(servers, Some(next)) =>
                 && CursorAt(rows, q.cursor, start) && |rows| > start + n && servers == rows[start..start + n]
                 && Bears(rows[start + n - 1], next)
  {
    var rows, n := Matching(records, q), PageLength(q);
    hide Matching, Token;
    forall r, t ensures Token(r) == Some(t) <==> Bears(r, t) { TokenBorne(r, t); }
    hide Bears;
    start := 0;
    if q.cursor.Some? && Position(rows, q.cursor.value).Some? {
      start := Position(rows, q.cursor.value).value + 1;
    }
    assert rows[0..] == rows;
    forall r ensures Token(r).None? <==> r.name.None? || r.version.None? { TokenBorne(r, []); }
    PageAt(rows, start, n);
  }

  lemma TokenBorne(r: Record, t: Bytes)
    ensures Token(r) == Some(t) <==> Bears(r, t)
    ensures Token(r).None? <==> r.name.None? || r.version.None?
  {
    assert Ascii(":") == [58];
  }

  /** Row `start` is the first, or the one after the first row that bears the cursor. */
  ghost predicate CursorAt(rows: seq<Record>, cursor: Option<Bytes>, start: nat)
    requires start <= |rows|
  {
    cursor.Some? ==>
      && start > 0 && Bears(rows[start - 1], cursor.value)
      && forall i :: 0 <= i < start - 1 ==> !Bears(rows[i], cursor.value)
  }

  // ---- what following the cursors yields, in general ----

  /** The listing resumes at row `from`: no cursor asks for the start, any other for what follows its first row. */
  ghost predicate ResumesAt(rows: seq<Record>, cursor: Option<Bytes>, from: nat) {
    if cursor.None? then from == 0
    else
      var at := Position(rows, cursor.value);
      at.Some? && at.value + 1 == from
  }

  lemma {:induction false} CursorIgnored(records: seq<Record>, q: Request, cursor: Option<Bytes>)
    ensures Filtered(records, q.(cursor := cursor)) == Filtered(records, q)
  {
    if records != [] {
      CursorIgnored(records[1..], q, cursor);
    }
  }

  lemma SameMatching(records: seq<Record>, q: Request, cursor: Option<Bytes>)
    ensures Matching(records, q.(cursor := cursor)) == Matching(records, q)
    ensures NormalizedLimit(q.(cursor := cursor)) == NormalizedLimit(q)
  {
    CursorIgnored(records, q, cursor);
    hide Filtered, Sort;
  }

  lemma ListedFrom(records: seq<Record>, q: Request, cursor: Option<Bytes>, from: nat)
    requires ResumesAt(Matching(records, q), cursor, from)
    ensures from <= |Matching(records, q)|
    ensures ListServers(records, q.(cursor := cursor)) == PageOf(Matching(records, q)[from..], NormalizedLimit(q))
  {
    hide Matching, Token, PageOf, NormalizedLimit;
    SameMatching(records, q, cursor);
    assert Matching(records, q)[0..] == Matching(records, q);
  }

  /** One page, then the pages its last row leads to. */
  lemma OnePage(records: seq<Record>, q: Request, cursor: Option<Bytes>, from: nat, pages: nat)
    requires ResumesAt(Matching(records, q), cursor, from) && pages > 0
    ensures from <= |Matching(records, q)|
    ensures var rows, limit := Matching(records, q), NormalizedLimit(q);
            Chained(records, q, cursor, pages) ==
            if |rows| <= from + limit then Complete(rows[from..])
            else if Token(rows[from + limit - 1]).None? then Failed(BadRequest)
            else Prepend(rows[from..from + limit], Chained(records, q, Token(rows[from + limit - 1]), pages - 1))
  {
    hide Matching, ListServers, NormalizedLimit, PageOf, ResumesAt, Token;
    ListedFrom(records, q, cursor, from);
    PageAt(Matching(records, q), from, NormalizedLimit(q));
  }

  lemma PageAt(rows: seq<Record>, from: nat, limit: nat)
    requires from <= |rows| && limit > 0
    ensures PageOf(rows[from..], limit) ==
            if |rows| <= from + limit then Page(rows[from..], None)
            else if Token(rows[from + limit - 1]).None? then BadRequest
            else Page(rows[from..from + limit], Token(rows[from + limit - 1]))
  {
    hide Token;
    assert |rows| > from + limit ==>
        rows[from..][..limit] == rows[from..from + limit] && rows[from..][limit - 1] == rows[from + limit - 1];
  }

  /** As many rows as `pages` pages hold. */
  function Allowed(pages: nat, limit: nat): nat { if pages == 0 then 0 else Allowed(pages - 1, limit) + limit }

  lemma {:induction false} AllowedIsProduct(pages: nat, limit: nat)
    ensures Allowed(pages, limit) == pages * limit
  {
    if pages > 0 {
      AllowedIsProduct(pages - 1, limit);
      assert pages * limit == (pages - 1) * limit + limit;
    }
  }

  /** A page may end at row `k`: it has a token and, if another page is fetched, no earlier row has it. */
  ghost predicate PageMayEnd(rows: seq<Record>, k: nat, last: bool)
    requires k < |rows|
  {
    Token(rows[k]).Some? && (last || forall j :: 0 <= j < k ==> Token(rows[j]) != Token(rows[k]))
  }

  /** Every page end but that of the whole listing is one where a page may end. */
  ghost predicate EndsResume(rows: seq<Record>, from: nat, limit: nat, pages: nat)
    requires limit > 0
    decreases pages
  {
    pages == 0 || |rows| <= from + limit
    || (PageMayEnd(rows, from + limit - 1, pages == 1) && EndsResume(rows, from + limit, limit, pages - 1))
  }

  /** A further page shows the row it resumes at, whatever comes after. */
  lemma ResumedRow(records: seq<Record>, q: Request, cursor: Option<Bytes>, from: nat, pages: nat)
    requires ResumesAt(Matching(records, q), cursor, from) && from < |Matching(records, q)| && pages > 0
    ensures var r := Chained(records, q, cursor, pages);
            r.Complete? ==> r.servers != [] && r.servers[0] == Matching(records, q)[from]
  {
    hide Matching, Chained, NormalizedLimit, ResumesAt, Token;
    OnePage(records, q, cursor, from, pages);
  }

  lemma NoPages(records: seq<Record>, q: Request, cursor: Option<Bytes>, rows: seq<Record>)
    ensures Chained(records, q, cursor, 0) == Complete(Take(rows, 0))
  {
  }

  lemma TakeAll(rows: seq<Record>, n: nat)
    requires |rows| <= n
    ensures Take(rows, n) == rows
  {
  }

  /** Taking more after one page is having taken it all at once, and nothing else is. */
  lemma TakeFurther(rows: seq<Record>, from: nat, limit: nat, more: nat, f: Fetched)
    requires from + limit <= |rows|
    ensures Prepend(rows[from..from + limit], f) == Complete(Take(rows[from..], more + limit)) <==>
            f == Complete(Take(rows[from + limit..], more))
  {
    var page := rows[from..from + limit];
    assert Take(rows[from..], more + limit) == page + Take(rows[from + limit..], more);
    if f.Complete? {
      assert (page + f.servers)[limit..] == f.servers;
      assert (page + Take(rows[from + limit..], more))[limit..] == Take(rows[from + limit..], more);
    }
  }

  lemma {:induction false} ChainedFrom(records: seq<Record>, q: Request, cursor: Option<Bytes>, from: nat, pages: nat)
    requires DistinctRows(Matching(records, q)) && ResumesAt(Matching(records, q), cursor, from)
    ensures from <= |Matching(records, q)|
    ensures var rows, limit := Matching(records, q), NormalizedLimit(q);
            Chained(records, q, cursor, pages) == Complete(Take(rows[from..], Allowed(pages, limit))) <==>
            EndsResume(rows, from, limit, pages)
    decreases pages
  {
    hide Matching, NormalizedLimit, DistinctRows, Chained, ResumesAt, Token, Take, PageMayEnd, Prepend;
    var rows, limit := Matching(records, q), NormalizedLimit(q);
    ResumesInside(rows, cursor, from);
    if pages == 0 {
      NoPages(records, q, cursor, rows[from..]);
    } else {
      OnePage(records, q, cursor, from, pages);
      if |rows| <= from + limit {
        TakeAll(rows[from..], Allowed(pages, limit));
      } else {
        FurtherPages(records, q, from, pages);
      }
    }
  }

  lemma {:induction false} FurtherPages(records: seq<Record>, q: Request, from: nat, pages: nat)
    requires DistinctRows(Matching(records, q)) && pages > 0 && |Matching(records, q)| > from + NormalizedLimit(q)
    ensures var rows, limit := Matching(records, q), NormalizedLimit(q);
            var next := Token(rows[from + limit - 1]);
            next.Some? ==>
              (Prepend(rows[from..from + limit], Chained(records, q, next, pages - 1)) ==
               Complete(Take(rows[from..], Allowed(pages, limit))) <==>
               EndsResume(rows, from, limit, pages))
    ensures Token(Matching(records, q)[from + NormalizedLimit(q) - 1]).None? ==>
              !EndsResume(Matching(records, q), from, NormalizedLimit(q), pages)
    decreases pages, 0
  {
    hide Matching, NormalizedLimit, DistinctRows, Chained, ResumesAt, Token, Take, Prepend, Position;
    var rows, limit := Matching(records, q), NormalizedLimit(q);
    var k := from + limit - 1;
    var next := Token(rows[k]);
    if next.Some? {
      TakeFurther(rows, from, limit, Allowed(pages - 1, limit), Chained(records, q, next, pages - 1));
      if pages == 1 {
        NoPages(records, q, next, rows[k + 1..]);
      } else {
        var at := ResumePoint(rows, k);
        if at == k {
          ChainedFrom(records, q, next, k + 1, pages - 1);
        } else {
          ResumedRow(records, q, next, at + 1, pages - 1);
          ElsewhereDiffers(rows, at + 1, k + 1, Allowed(pages - 1, limit));
        }
      }
    }
  }

  lemma ResumesInside(rows: seq<Record>, cursor: Option<Bytes>, from: nat)
    requires ResumesAt(rows, cursor, from)
    ensures from <= |rows|
  {
  }

  /** Where the token of row `k` resumes: behind row `k` exactly if no earlier row shares it. */
  lemma ResumePoint(rows: seq<Record>, k: nat) returns (at: nat)
    requires k < |rows| && Token(rows[k]).Some?
    ensures at <= k && ResumesAt(rows, Token(rows[k]), at + 1)
    ensures at == k <==> forall j :: 0 <= j < k ==> Token(rows[j]) != Token(rows[k])
  {
    at := Position(rows, Token(rows[k]).value).value;
  }

  lemma ElsewhereDiffers(rows: seq<Record>, at: nat, from: nat, n: nat)
    requires DistinctRows(rows) && at < from < |rows| && n > 0
    ensures Take(rows[from..], n) != [] && Take(rows[from..], n)[0] != rows[at]
  {
  }

  /** If the page `m` after `from` is full and more follows, it ends where a page may end. */
  ghost predicate EndOk(rows: seq<Record>, from: nat, limit: nat, m: nat, pages: nat) {
    0 < Allowed(m, limit) && from + Allowed(m, limit) < |rows| ==>
      PageMayEnd(rows, from + Allowed(m, limit) - 1, m == pages)
  }

  lemma {:induction false} EndsCounted(rows: seq<Record>, from: nat, limit: nat, pages: nat)
    requires limit > 0
    ensures EndsResume(rows, from, limit, pages) <==> forall m :: 0 < m <= pages ==> EndOk(rows, from, limit, m, pages)
    decreases pages
  {
    hide PageMayEnd;
    if pages > 0 && |rows| > from + limit {
      EndsCounted(rows, from + limit, limit, pages - 1);
      assert Allowed(1, limit) == limit;
      assert EndOk(rows, from, limit, 1, pages) <==> PageMayEnd(rows, from + limit - 1, pages == 1);
      forall m | 1 < m <= pages
        ensures EndOk(rows, from, limit, m, pages) <==> EndOk(rows, from + limit, limit, m - 1, pages - 1)
      {
        assert Allowed(m - 1, limit) > 0;
      }
      assert forall m {:trigger EndOk(rows, from + limit, limit, m, pages - 1)} :: 0 < m <= pages - 1 ==>
          (EndOk(rows, from + limit, limit, m, pages - 1) <==> EndOk(rows, from, limit, m + 1, pages));
    }
  }

  /** Page `m` of the given length ends where a page may end, or with the listing. */
  ghost predicate PageEndOk(rows: seq<Record>, limit: nat, m: nat, pages: nat) {
    0 < m * limit < |rows| ==> PageMayEnd(rows, m * limit - 1, m == pages)
  }

  /**
   For any filter, any page limit and pairwise different records, following the cursors yields the sorted
   matching records, each once, up to the pages allowed, exactly if every page that is not the last of
   the listing ends at a row with a token which, if a page is still fetched, no earlier row has.
   */
  lemma PagesExactly(records: seq<Record>, q: Request, pages: nat)
    requires q.cursor.None? && DistinctRows(Filtered(records, q))
    ensures var rows, limit := Matching(records, q), NormalizedLimit(q);
            Chained(records, q, None, pages) == Complete(Take(rows, pages * limit)) <==>
            forall m :: 0 < m <= pages ==> PageEndOk(rows, limit, m, pages)
  {
    hide Matching, NormalizedLimit, Filtered, Chained, Take, PageMayEnd, DistinctRows;
    var rows, limit := Matching(records, q), NormalizedLimit(q);
    SortedDistinct(records, q);
    ChainedFrom(records, q, None, 0, pages);
    assert rows[0..] == rows;
    AllowedIsProduct(pages, limit);
    EndsCounted(rows, 0, limit, pages);
    forall m | 0 < m <= pages ensures EndOk(rows, 0, limit, m, pages) <==> PageEndOk(rows, limit, m, pages) {
      AllowedIsProduct(m, limit);
    }
    hide EndOk, PageEndOk;
  }

  /** Distinct tokens are enough for any filter and any page limit. */
  lemma PagesConcatenate(records: seq<Record>, q: Request, pages: nat)
    requires q.cursor.None? && DistinctTokens(Filtered(records, q))
    ensures Chained(records, q, None, pages) == Complete(Take(Matching(records, q), pages * NormalizedLimit(q)))
  {
    hide Matching, NormalizedLimit, Filtered, Chained, Take, Token;
    MatchingIsFiltered(records, q);
    PagesExactly(records, q, pages);
  }

  // ---- when a fetch fails ----

  /** No two rows that have a token share it. */
  ghost predicate TokensApart(rows: seq<Record>) {
    forall i, j :: 0 <= i < j < |rows| && Token(rows[i]).Some? ==> Token(rows[i]) != Token(rows[j])
  }

  /** Page `m` is not the last of the listing and ends at a row without a token. */
  ghost predicate EndsNameless(rows: seq<Record>, limit: nat, m: nat) {
    0 < m * limit < |rows| && Token(rows[m * limit - 1]).None?
  }

  /** One of the pages from row `from` on ends so. */
  ghost predicate SomeNameless(rows: seq<Record>, from: nat, limit: nat, pages: nat)
    requires limit > 0
    decreases pages
  {
    pages > 0 && |rows| > from + limit
    && (Token(rows[from + limit - 1]).None? || SomeNameless(rows, from + limit, limit, pages - 1))
  }

  lemma {:induction false} FailsFrom(records: seq<Record>, q: Request, cursor: Option<Bytes>, from: nat, pages: nat)
    requires TokensApart(Matching(records, q)) && ResumesAt(Matching(records, q), cursor, from)
    ensures var r := Chained(records, q, cursor, pages);
            if SomeNameless(Matching(records, q), from, NormalizedLimit(q), pages) then r == Failed(BadRequest)
            else r.Complete?
    decreases pages
  {
    hide Matching, NormalizedLimit, TokensApart, Chained, ResumesAt, Token, Position;
    var rows, limit := Matching(records, q), NormalizedLimit(q);
    ResumesInside(rows, cursor, from);
    if pages == 0 {
      NoPages(records, q, cursor, rows[from..]);
    } else {
      OnePage(records, q, cursor, from, pages);
      if |rows| > from + limit && Token(rows[from + limit - 1]).Some? {
        var k := from + limit - 1;
        var at := ResumePoint(rows, k);
        assert at == k by { TokenAlone(rows, k); }
        FailsFrom(records, q, Token(rows[k]), k + 1, pages - 1);
      }
    }
  }

  lemma TokenAlone(rows: seq<Record>, k: nat)
    requires TokensApart(rows) && k < |rows| && Token(rows[k]).Some?
    ensures forall j :: 0 <= j < k ==> Token(rows[j]) != Token(rows[k])
  {
    hide Token;
  }

  lemma {:induction false} NamelessCounted(rows: seq<Record>, before: nat, limit: nat, pages: nat)
    requires limit > 0
    ensures SomeNameless(rows, before * limit, limit, pages) <==>
            exists m :: before < m <= before + pages && EndsNameless(rows, limit, m)
    decreases pages
  {
    hide Token;
    assert (before + 1) * limit == before * limit + limit && before * limit >= 0;
    assert EndsNameless(rows, limit, before + 1) <==>
        |rows| > before * limit + limit && Token(rows[before * limit + limit - 1]).None?;
    if pages > 0 {
      if |rows| > before * limit + limit {
        NamelessCounted(rows, before + 1, limit, pages - 1);
        hide EndsNameless;
        assert (exists m :: before < m <= before + pages && EndsNameless(rows, limit, m)) <==>
            EndsNameless(rows, limit, before + 1)
            || exists m :: before + 1 < m <= before + pages && EndsNameless(rows, limit, m);
      } else {
        forall m | before < m ensures !EndsNameless(rows, limit, m) {
          assert m * limit >= (before + 1) * limit;
        }
      }
    }
  }

  /**
   With no token shared, fetching fails exactly if a page it fetches, not the last of the listing, ends at a record
   without name or version, and then with a bad request; no part of the listing is returned.
   */
  lemma FetchFailsIff(records: seq<Record>, q: Request, pages: nat)
    requires q.cursor.None? && TokensApart(Matching(records, q))
    ensures var rows, limit := Matching(records, q), NormalizedLimit(q);
            var fails := exists m :: 0 < m <= pages && EndsNameless(rows, limit, m);
            && (fails ==> Chained(records, q, None, pages) == Failed(BadRequest))
            && (!fails ==> Chained(records, q, None, pages).Complete?)
  {
    hide Matching, NormalizedLimit, Chained, TokensApart, EndsNameless, SomeNameless;
    FailsFrom(records, q, None, 0, pages);
    NamelessCounted(Matching(records, q), 0, NormalizedLimit(q), pages);
  }

  const A_WITH_BC := Record(Some([97]), Some([98, 58, 99]), false, true, None, None, None)
  const AB_WITH_C := Record(Some([97, 58, 98]), Some([99]), false, true, None, None, None)
  const B_WITH_C := Record(Some([98]), Some([99]), false, true, None, None, None)

  /**
   Names and versions may hold the separator, so different records can share a token. A page that ends at
   the second of them is followed by that record again.
   */
  lemma SharedTokenRepeats(q: Request, pages: nat)
    requires q == Request(None, Some(2), None, None, None, false) && pages >= 2
    ensures var store := [A_WITH_BC, AB_WITH_C, B_WITH_C];
            && Token(A_WITH_BC) == Token(AB_WITH_C) && DistinctRows(store) && Matching(store, q) == store
            && Chained(store, q, None, pages) == Complete([A_WITH_BC, AB_WITH_C, AB_WITH_C, B_WITH_C])
  {
    TokensMeet();
    StoreInOrder(q);
    hide *;
    BackOneRow([A_WITH_BC, AB_WITH_C, B_WITH_C], q, pages);
  }

  /** Three rows in pages of two, the second row's token belonging to the first. */
  lemma BackOneRow(rows: seq<Record>, q: Request, pages: nat)
    requires |rows| == 3 && Matching(rows, q) == rows && NormalizedLimit(q) == 2 && pages >= 2
    requires Token(rows[1]).Some? && ResumesAt(rows, Token(rows[1]), 1)
    ensures Chained(rows, q, None, pages) == Complete([rows[0], rows[1], rows[1], rows[2]])
  {
    hide Matching, Chained, Token, NormalizedLimit, Position;
    OnePage(rows, q, None, 0, pages);
    OnePage(rows, q, Token(rows[1]), 1, pages - 1);
    assert rows[0..2] == [rows[0], rows[1]] && rows[1..] == [rows[1], rows[2]];
  }

  lemma TokensMeet()
    ensures Token(A_WITH_BC) == Token(AB_WITH_C) && Token(AB_WITH_C).Some?
    ensures DistinctRows([A_WITH_BC, AB_WITH_C, B_WITH_C])
    ensures var store := [A_WITH_BC, AB_WITH_C, B_WITH_C]; ResumesAt(store, Token(store[1]), 1) && Token(store[1]).Some?
  {
    assert [97] + [58] + [98, 58, 99] == [97, 58, 98] + [58] + [99];
    assert B_WITH_C.name.value[0] != AB_WITH_C.name.value[0] && |A_WITH_BC.name.value| != |AB_WITH_C.name.value|;
    assert B_WITH_C.name.value[0] != A_WITH_BC.name.value[0];
  }

  lemma StoreInOrder(q: Request)
    requires q == Request(None, Some(2), None, None, None, false)
    ensures var store := [A_WITH_BC, AB_WITH_C, B_WITH_C]; Matching(store, q) == store && NormalizedLimit(q) == 2
  {
    hide Filtered, Sort, EntryLess;
    NothingFiltered(q);
    NamesInOrder();
  }

  lemma NothingFiltered(q: Request)
    requires q == Request(None, Some(2), None, None, None, false)
    ensures var store := [A_WITH_BC, AB_WITH_C, B_WITH_C]; Filtered(store, q) == store
  {
    var store := [A_WITH_BC, AB_WITH_C, B_WITH_C];
    assert store[1..] == [AB_WITH_C, B_WITH_C] && [AB_WITH_C, B_WITH_C][1..] == [B_WITH_C] && [B_WITH_C][1..] == [];
    assert Filtered([B_WITH_C], q) == [B_WITH_C];
    assert Filtered([AB_WITH_C, B_WITH_C], q) == [AB_WITH_C, B_WITH_C];
  }

  lemma NamesInOrder()
    ensures var store := [A_WITH_BC, AB_WITH_C, B_WITH_C]; Sort(EntryLess, Named(store)) == Named(store)
  {
    var rows := Named([A_WITH_BC, AB_WITH_C, B_WITH_C]);
    assert Less(A_WITH_BC.name.value, AB_WITH_C.name.value) && Less(A_WITH_BC.name.value, B_WITH_C.name.value);
    assert Less(AB_WITH_C.name.value, B_WITH_C.name.value);
    assert EntryLess(rows[0].0, rows[1].0) && EntryLess(rows[0].0, rows[2].0) && EntryLess(rows[1].0, rows[2].0);
    hide EntryLess;
    EntryLessIsStrictOrder();
    SortSorted(EntryLess, rows);
  }

  /** The fetch loop returns the first hundred thousand live records, by name and version, and nothing else. */
  lemma FetchIsComplete(records: seq<Record>) returns (places: seq<nat>)
    requires DistinctTokens(Filtered(records, ALL_SERVERS))
    ensures Chained(records, ALL_SERVERS, None, MAX_PAGES_PER_RUN) ==
            Complete(Take(Matching(records, ALL_SERVERS), 100_000))
    ensures ListedInOrder(records, ALL_SERVERS, Matching(records, ALL_SERVERS), places)
    ensures forall i: nat :: i in places <==> i < |records| && !records[i].deleted
  {
    PagesConcatenate(records, ALL_SERVERS, MAX_PAGES_PER_RUN);
    places := MatchingInOrder(records, ALL_SERVERS);
    hide Matching, Chained;
  }
}
