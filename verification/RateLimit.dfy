/** The fixed-window limiter on publisher mutations: isolation between clients, and its bound. */
module RateLimit {
  import opened ByteStrings

  const U32_MAX := 0xFFFF_FFFF

  type u32 = n: int | 0 <= n <= U32_MAX

  datatype Window = Window(startedAt: u64, count: u32)

  type Windows = map<Bytes, Window>

  datatype Limits = Limits(windowMs: u64, max: u32)

  function SaturatingSub(a: u64, b: u64): u64 { if a < b then 0 else a - b }

  function SaturatingIncrement(n: u32): u32 { if n == U32_MAX then n else n + 1 }

  predicate Elapsed(l: Limits, w: Window, now: u64) { SaturatingSub(now, w.startedAt) >= l.windowMs }

  // ---- one check ----

  /** A client's window after one more request; `None` stands for no window. */
  function Bumped(l: Limits, w: Option<Window>, now: u64): Window {
    if w.None? || Elapsed(l, w.value, now) then Window(now, 1)
    else Window(w.value.startedAt, SaturatingIncrement(w.value.count))
  }

  function Held(ws: Windows, client: Bytes): Option<Window> { if client in ws then Some(ws[client]) else None }

  /** `retain`: windows that have fully elapsed go, whoever's they are. */
  function Retained(l: Limits, ws: Windows, now: u64): Windows { map k | k in ws && !Elapsed(l, ws[k], now) :: ws[k] }

  function Step(l: Limits, ws: Windows, r: Request): Windows {
    var kept := Retained(l, ws, r.now);
    kept[r.client := Bumped(l, Held(kept, r.client), r.now)]
  }

  datatype Request = Request(now: u64, client: Bytes)

  class RateLimiter {
    const limits: Limits
    var windows: Windows

    constructor (limits: Limits)
      ensures this.limits == limits && windows == map[]
    {
      this.limits := limits;
      windows := map[];
    }

    /** `check` */
    method Check(now: u64, client: Bytes) returns (ok: bool)
      modifies this
      ensures windows == Step(limits, old(windows), Request(now, client))
      ensures ok <==> windows[client].count <= limits.max
    {
      windows := map k | k in windows && !Elapsed(limits, windows[k], now) :: windows[k];
      var entry := if client in windows then windows[client] else Window(now, 0);
      if Elapsed(limits, entry, now) {
        entry := Window(now, 0);
      }
      entry := entry.(count := SaturatingIncrement(entry.count));
      windows := windows[client := entry];
      ok := entry.count <= limits.max;
    }
  }

  // ---- runs ----

  function After(l: Limits, rs: seq<Request>): Windows {
    if rs == [] then map[] else Step(l, After(l, rs[..|rs| - 1]), rs[|rs| - 1])
  }

  /** Whether request `i` of a run is let through. */
  predicate AcceptedAt(l: Limits, rs: seq<Request>, i: nat)
    requires i < |rs|
  {
    Bumped(l, Held(Retained(l, After(l, rs[..i]), rs[i].now), rs[i].client), rs[i].now).count <= l.max
  }

  method RunAll(l: Limits, rs: seq<Request>) returns (verdicts: seq<bool>)
    ensures |verdicts| == |rs| && forall i :: 0 <= i < |rs| ==> verdicts[i] == AcceptedAt(l, rs, i)
  {
    hide Retained, Bumped;
    var limiter := new RateLimiter(l);
    verdicts := [];
    for i := 0 to |rs|
      invariant fresh(limiter) && limiter.limits == l && limiter.windows == After(l, rs[..i])
      invariant |verdicts| == i && forall k :: 0 <= k < i ==> verdicts[k] == AcceptedAt(l, rs, k)
    {
      assert rs[..i + 1][..i] == rs[..i];
      var ok := limiter.Check(rs[i].now, rs[i].client);
      verdicts := verdicts + [ok];
    }
  }

  ghost predicate ClockRuns(rs: seq<Request>) { forall i, j :: 0 <= i < j < |rs| ==> rs[i].now <= rs[j].now }

  // ---- one client does not feel the others ----

  /** The window of `client` if nobody else had ever asked, and nothing was ever swept. */
  function Alone(l: Limits, rs: seq<Request>, client: Bytes): Option<Window> {
    if rs == [] then None
    else
      var before := Alone(l, rs[..|rs| - 1], client);
      if rs[|rs| - 1].client == client then Some(Bumped(l, before, rs[|rs| - 1].now)) else before
  }

  /** What `client` alone asked. */
  function Own(rs: seq<Request>, client: Bytes): seq<Request> {
    if rs == [] then []
    else Own(rs[..|rs| - 1], client) + if rs[|rs| - 1].client == client then [rs[|rs| - 1]] else []
  }

  lemma {:induction false} AloneOnOwn(l: Limits, rs: seq<Request>, client: Bytes)
    ensures Alone(l, Own(rs, client), client) == Alone(l, rs, client)
  {
    if rs != [] {
      var init, last := rs[..|rs| - 1], rs[|rs| - 1];
      AloneOnOwn(l, init, client);
      if last.client == client {
        assert Own(rs, client)[..|Own(rs, client)| - 1] == Own(init, client);
      } else {
        assert Own(rs, client) == Own(init, client);
      }
    }
  }

  /** The verdict on request `i` if its client were the only one and nothing were ever swept. */
  predicate AcceptedAlone(l: Limits, rs: seq<Request>, i: nat)
    requires i < |rs|
  {
    Bumped(l, Alone(l, Own(rs[..i], rs[i].client), rs[i].client), rs[i].now).count <= l.max
  }

  /** No request of `client` from position `k` on. */
  ghost predicate SilentFrom(rs: seq<Request>, client: Bytes, k: nat) {
    forall m :: k <= m < |rs| ==> rs[m].client != client
  }

  /** Others have swept `w` since the last request of `client`. */
  ghost predicate Swept(l: Limits, rs: seq<Request>, client: Bytes, w: Window) {
    exists k :: 0 <= k < |rs| && SilentFrom(rs, client, k) && Elapsed(l, w, rs[k].now)
  }

  /** Request `i` still falls into its client's window, but others have swept that window. */
  ghost predicate SweptEarly(l: Limits, rs: seq<Request>, i: nat)
    requires i < |rs|
  {
    var w := Alone(l, rs[..i], rs[i].client);
    w.Some? && !Elapsed(l, w.value, rs[i].now) && Swept(l, rs[..i], rs[i].client, w.value)
  }

  /** No request of `client` finds its window swept early. */
  ghost predicate Undisturbed(l: Limits, rs: seq<Request>, client: Bytes) {
    forall i :: 0 <= i < |rs| && rs[i].client == client ==> !SweptEarly(l, rs, i)
  }

  /** The shared, swept table holds a client's own window, unless others have swept it. */
  ghost predicate TableAgrees(l: Limits, rs: seq<Request>, client: Bytes) {
    var ws, alone := After(l, rs), Alone(l, rs, client);
    && (client in ws ==> alone == Some(ws[client]) && !Swept(l, rs, client, ws[client]))
    && (client !in ws && alone.Some? ==> Swept(l, rs, client, alone.value))
  }

  lemma SweptAppend(l: Limits, rs: seq<Request>, r: Request, client: Bytes, w: Window)
    ensures Swept(l, rs + [r], client, w) <==> r.client != client && (Swept(l, rs, client, w) || Elapsed(l, w, r.now))
  {
    var all := rs + [r];
    assert all[|rs|] == r;
    forall k: nat | k < |rs| ensures SilentFrom(all, client, k) <==> SilentFrom(rs, client, k) && r.client != client {
      assert forall m :: 0 <= m < |rs| ==> all[m] == rs[m];
    }
    assert SilentFrom(all, client, |rs|) <==> r.client != client;
    hide SilentFrom, Elapsed;
    if Swept(l, rs, client, w) && r.client != client {
      var k :| 0 <= k < |rs| && SilentFrom(rs, client, k) && Elapsed(l, w, rs[k].now);
      assert all[k] == rs[k];
    }
    if Swept(l, all, client, w) {
      var k :| 0 <= k < |all| && SilentFrom(all, client, k) && Elapsed(l, w, all[k].now);
      assert k < |rs| ==> all[k] == rs[k];
      SilentAtLast(all, client, k);
    }
  }

  lemma SilentAtLast(rs: seq<Request>, client: Bytes, k: nat)
    requires k < |rs| && SilentFrom(rs, client, k)
    ensures rs[|rs| - 1].client != client
  {
  }

  lemma UndisturbedBefore(l: Limits, rs: seq<Request>, client: Bytes, n: nat)
    requires n <= |rs| && forall i :: 0 <= i < n && rs[i].client == client ==> !SweptEarly(l, rs, i)
    ensures Undisturbed(l, rs[..n], client)
  {
    hide Alone, Swept;
    forall i | 0 <= i < n && rs[i].client == client ensures !SweptEarly(l, rs[..n], i) {
      assert rs[..n][..i] == rs[..i];
    }
  }

  /** One more request keeps the table and the lone window in step. */
  lemma StepAgrees(l: Limits, rs: seq<Request>, client: Bytes)
    requires rs != [] && TableAgrees(l, rs[..|rs| - 1], client)
    requires var last := rs[|rs| - 1];
             && (last.client == client ==> !SweptEarly(l, rs, |rs| - 1))
             && forall w: Window :: Swept(l, rs, client, w) <==>
                  last.client != client && (Swept(l, rs[..|rs| - 1], client, w) || Elapsed(l, w, last.now))
    ensures TableAgrees(l, rs, client)
  {
    hide Swept, SaturatingSub;
  }

  lemma {:induction false} TableIsAlone(l: Limits, rs: seq<Request>, client: Bytes)
    requires Undisturbed(l, rs, client)
    ensures TableAgrees(l, rs, client)
  {
    if rs != [] {
      var n := |rs| - 1;
      var init, last := rs[..n], rs[n];
      UndisturbedBefore(l, rs, client, n);
      TableIsAlone(l, init, client);
      assert rs == init + [last];
      assert last.client == client ==> !SweptEarly(l, rs, n);
      forall w: Window
        ensures Swept(l, rs, client, w) <==>
                last.client != client && (Swept(l, init, client, w) || Elapsed(l, w, last.now))
      {
        SweptAppend(l, init, last, client, w);
      }
      hide Swept, Undisturbed;
      StepAgrees(l, rs, client);
    }
  }

  lemma {:induction false} CountsFromOne(l: Limits, rs: seq<Request>, client: Bytes)
    ensures Alone(l, rs, client).Some? ==> Alone(l, rs, client).value.count >= 1
  {
    if rs != [] {
      CountsFromOne(l, rs[..|rs| - 1], client);
    }
  }

  lemma {:induction false} WindowsIgnoreBudget(l: Limits, m: Limits, rs: seq<Request>, client: Bytes)
    requires l.windowMs == m.windowMs
    ensures After(l, rs) == After(m, rs) && Alone(l, rs, client) == Alone(m, rs, client)
  {
    if rs != [] {
      WindowsIgnoreBudget(l, m, rs[..|rs| - 1], client);
    }
  }

  /** An undisturbed client's request is judged as if its client were alone; one swept early starts a new count. */
  lemma JudgedAlone(l: Limits, rs: seq<Request>, i: nat)
    requires i < |rs| && Undisturbed(l, rs[..i], rs[i].client)
    ensures !SweptEarly(l, rs, i) ==> (AcceptedAt(l, rs, i) <==> AcceptedAlone(l, rs, i))
    ensures SweptEarly(l, rs, i) && l.max == 1 ==> AcceptedAt(l, rs, i) && !AcceptedAlone(l, rs, i)
  {
    TableIsAlone(l, rs[..i], rs[i].client);
    AloneOnOwn(l, rs[..i], rs[i].client);
    CountsFromOne(l, rs[..i], rs[i].client);
    hide After, Alone, Swept, Undisturbed;
  }

  ghost predicate IsolatedAt(windowMs: u64, rs: seq<Request>, client: Bytes, max: u32) {
    forall i :: 0 <= i < |rs| && rs[i].client == client ==>
      (AcceptedAt(Limits(windowMs, max), rs, i) <==> AcceptedAlone(Limits(windowMs, max), rs, i))
  }

  lemma {:induction false} FirstSweptEarly(l: Limits, rs: seq<Request>, client: Bytes, n: nat) returns (i: nat)
    requires n < |rs| && rs[n].client == client && SweptEarly(l, rs, n)
    ensures i < |rs| && rs[i].client == client && SweptEarly(l, rs, i) && Undisturbed(l, rs[..i], client)
  {
    if k: nat :| k < n && rs[k].client == client && SweptEarly(l, rs, k) {
      i := FirstSweptEarly(l, rs, client, k);
    } else {
      i := n;
      UndisturbedBefore(l, rs, client, n);
    }
  }

  lemma UndisturbedUnderAll(windowMs: u64, rs: seq<Request>, client: Bytes, max: u32)
    requires Undisturbed(Limits(windowMs, 1), rs, client)
    ensures Undisturbed(Limits(windowMs, max), rs, client)
  {
    hide Alone, Swept;
    forall i | 0 <= i < |rs| && rs[i].client == client ensures !SweptEarly(Limits(windowMs, max), rs, i) {
      assert !SweptEarly(Limits(windowMs, 1), rs, i);
      WindowsIgnoreBudget(Limits(windowMs, 1), Limits(windowMs, max), rs[..i], client);
      SweptIgnoresBudget(windowMs, max, rs[..i], client);
    }
  }

  lemma SweptIgnoresBudget(windowMs: u64, max: u32, rs: seq<Request>, client: Bytes)
    ensures forall w :: Swept(Limits(windowMs, 1), rs, client, w) <==> Swept(Limits(windowMs, max), rs, client, w)
  {
    assert forall w, now ::
      Elapsed(Limits(windowMs, 1), w, now) <==> Elapsed(Limits(windowMs, max), w, now);
  }

  /**
   Under whatever clock, every request of a client is judged as if it were the only one, at every budget, if and
   only if none of them comes while its window still runs after others have swept it.
   */
  lemma IsolatedIff(windowMs: u64, rs: seq<Request>, client: Bytes)
    ensures (forall max: u32 :: IsolatedAt(windowMs, rs, client, max)) <==>
            Undisturbed(Limits(windowMs, 1), rs, client)
  {
    var one := Limits(windowMs, 1);
    hide AcceptedAt, AcceptedAlone, SweptEarly;
    if Undisturbed(one, rs, client) {
      forall max: u32 ensures IsolatedAt(windowMs, rs, client, max) {
        UndisturbedUnderAll(windowMs, rs, client, max);
        var l := Limits(windowMs, max);
        forall i | 0 <= i < |rs| && rs[i].client == client ensures AcceptedAt(l, rs, i) <==> AcceptedAlone(l, rs, i) {
          UndisturbedBefore(l, rs, client, i);
          JudgedAlone(l, rs, i);
        }
      }
    } else {
      var n :| 0 <= n < |rs| && rs[n].client == client && SweptEarly(one, rs, n);
      var i := FirstSweptEarly(one, rs, client, n);
      JudgedAlone(one, rs, i);
      assert !IsolatedAt(windowMs, rs, client, 1);
    }
  }

  lemma NeverSweptEarly(l: Limits, rs: seq<Request>, client: Bytes)
    requires ClockRuns(rs)
    ensures Undisturbed(l, rs, client)
  {
    hide Alone;
    forall i | 0 <= i < |rs| && rs[i].client == client ensures !SweptEarly(l, rs, i) {
      assert forall k :: 0 <= k < i ==> rs[..i][k].now <= rs[i].now;
    }
  }

  /**
   Under a clock that never runs backwards, a request is judged as if its client were the only one and
   nothing were ever swept.
   */
  lemma ClientsAreIsolated(l: Limits, rs: seq<Request>, i: nat)
    requires ClockRuns(rs) && i < |rs|
    ensures AcceptedAt(l, rs, i) <==> AcceptedAlone(l, rs, i)
  {
    NeverSweptEarly(l, rs, rs[i].client);
    UndisturbedBefore(l, rs, rs[i].client, i);
    JudgedAlone(l, rs, i);
    hide AcceptedAt, AcceptedAlone, SweptEarly;
  }

  // ---- a verdict from the requests alone ----

  /** The client's last request that opened a window: its first, or one a whole window after the last opening. */
  function Opening(windowMs: u64, rs: seq<Request>, client: Bytes): (o: Option<nat>)
    ensures o.Some? ==> o.value < |rs| && rs[o.value].client == client
  {
    if rs == [] then None
    else
      var n := |rs| - 1;
      var before := Opening(windowMs, rs[..n], client);
      if rs[n].client != client then before
      else if before.None? || windowMs == 0 || rs[n].now >= rs[before.value].now + windowMs then Some(n)
      else before
  }

  /** How many requests the client made from place `o` on. */
  function MadeSince(rs: seq<Request>, client: Bytes, o: nat): nat {
    if |rs| <= o then 0
    else MadeSince(rs[..|rs| - 1], client, o) + if rs[|rs| - 1].client == client then 1 else 0
  }

  lemma {:induction false} WindowFromRequests(l: Limits, rs: seq<Request>, client: Bytes)
    ensures var o := Opening(l.windowMs, rs, client);
            match Alone(l, rs, client)
            case None => o.None?
            case Some(w) =>
              && o.Some? && w.startedAt == rs[o.value].now && MadeSince(rs, client, o.value) > 0
              && w.count == if MadeSince(rs, client, o.value) < 0xFFFF_FFFF then MadeSince(rs, client, o.value)
                            else 0xFFFF_FFFF
  {
    if rs != [] {
      var n := |rs| - 1;
      WindowFromRequests(l, rs[..n], client);
      assert MadeSince(rs[..n], client, n) == 0;
    }
  }

  /**
   Under a clock that never runs backwards a request passes exactly if no more than the budget have been made since
   its client's window opened, itself and refused ones included, or the budget is the largest.
   */
  lemma VerdictFromRequests(l: Limits, rs: seq<Request>, i: nat)
    requires ClockRuns(rs) && i < |rs|
    ensures var upTo := rs[..i + 1];
            var o := Opening(l.windowMs, upTo, rs[i].client);
            && o.Some?
            && (AcceptedAt(l, rs, i) <==> MadeSince(upTo, rs[i].client, o.value) <= l.max || l.max == 0xFFFF_FFFF)
  {
    ClientsAreIsolated(l, rs, i);
    AloneOnOwn(l, rs[..i], rs[i].client);
    assert rs[..i + 1][..i] == rs[..i];
    WindowFromRequests(l, rs[..i + 1], rs[i].client);
    hide AcceptedAt, Opening, MadeSince;
  }

  /** It happens: with the clock set back, another client's request clears a window at its budget. */
  lemma SweepShowsWhenClockSetBack(a: Bytes, b: Bytes)
    requires a != b
    ensures var rs := [Request(0, a), Request(60_000, b), Request(0, a)];
            AcceptedAt(Limits(60_000, 1), rs, 2) && !AcceptedAlone(Limits(60_000, 1), rs, 2)
  {
    var l := Limits(60_000, 1);
    var rs := [Request(0, a), Request(60_000, b), Request(0, a)];
    var one, two := rs[..1], rs[..2];
    assert one == [Request(0, a)] && one[..0] == [] && two[..1] == one && two == one + [Request(60_000, b)];
    assert Alone(l, one, a) == Some(Window(0, 1));
    assert Alone(l, two, a) == Some(Window(0, 1));
    assert SilentFrom(two, a, 1) && Elapsed(l, Window(0, 1), two[1].now);
    assert Undisturbed(l, two, a) by {
      assert Alone(l, two[..0], a) == None;
    }
    JudgedAlone(l, rs, 2);
    hide AcceptedAt, AcceptedAlone, Alone, Undisturbed;
  }

  // ---- the bound ----

  predicate Within(l: Limits, now: u64, from: int) { from <= now < from + l.windowMs }

  /** Accepted requests of `client` at times in the half-open interval of one window length from `from`. */
  function AcceptedIn(l: Limits, rs: seq<Request>, client: Bytes, from: int): nat {
    if rs == [] then 0
    else
      var last := |rs| - 1;
      AcceptedIn(l, rs[..last], client, from)
      + if rs[last].client == client && Within(l, rs[last].now, from) && AcceptedAt(l, rs, last) then 1 else 0
  }

  function Min(a: int, b: int): int { if a < b then a else b }

  /**
   The most that can pass within one window length: the rest of one window's budget and all of the next,
   and the first request of a window always falls at its start. Windows one tick long cannot overlap.
   */
  function Burst(l: Limits): nat {
    if l.windowMs == 0 || l.max == 0 then 0 else if l.windowMs == 1 then l.max else 2 * l.max - 1
  }

  /** How many accepted requests a client's current window leaves room for in the interval. */
  ghost predicate WithinBudget(l: Limits, w: Option<Window>, accepted: nat, from: int) {
    if w.None? then accepted == 0
    else
      var start, used := w.value.startedAt, Min(w.value.count, l.max);
      var carried := if l.max == 0 || l.windowMs <= 1 then 0 else l.max - 1;
      && w.value.count >= 1
      && (start + l.windowMs <= from ==> accepted == 0)
      && (start < from ==> accepted <= if used == 0 then 0 else used - 1)
      && (from <= start < from + l.windowMs ==> accepted <= carried + used)
      && accepted <= Burst(l)
  }

  lemma BudgetStep(l: Limits, w: Option<Window>, accepted: nat, now: u64, from: int)
    requires l.max < U32_MAX && WithinBudget(l, w, accepted, from)
    requires w.Some? ==> w.value.startedAt <= now
    ensures var next := Bumped(l, w, now);
            var more := if from <= now < from + l.windowMs && next.count <= l.max then 1 else 0;
            next.startedAt <= now && WithinBudget(l, Some(next), accepted + more, from)
  {
  }

  lemma {:induction false} RunWithinBudget(l: Limits, rs: seq<Request>, client: Bytes, from: int, now: u64)
    requires l.max < U32_MAX && ClockRuns(rs) && forall i :: 0 <= i < |rs| ==> rs[i].now <= now
    ensures WithinBudget(l, Alone(l, rs, client), AcceptedIn(l, rs, client, from), from)
    ensures Alone(l, rs, client).Some? ==> Alone(l, rs, client).value.startedAt <= now
  {
    hide AcceptedAt, WithinBudget, Bumped;
    if rs != [] {
      var init, last := rs[..|rs| - 1], rs[|rs| - 1];
      RunWithinBudget(l, init, client, from, last.now);
      if last.client == client {
        ClientsAreIsolated(l, rs, |rs| - 1);
        AloneOnOwn(l, init, client);
        BudgetStep(l, Alone(l, init, client), AcceptedIn(l, init, client, from), last.now, from);
      }
    } else {
      NoWindow(l, from);
    }
  }

  lemma NoWindow(l: Limits, from: int)
    ensures WithinBudget(l, None, 0, from)
  {
  }

  /**
   Over any run with a nondecreasing clock, and below the largest 32-bit budget, no more than the burst
   pass in any half-open interval of one window length: fewer than `2 * max`.
   */
  lemma BurstBound(l: Limits, rs: seq<Request>, client: Bytes, from: int)
    requires l.max < U32_MAX && ClockRuns(rs)
    ensures AcceptedIn(l, rs, client, from) <= Burst(l)
    ensures l.max > 0 ==> Burst(l) < 2 * l.max
  {
    if rs != [] {
      RunWithinBudget(l, rs, client, from, rs[|rs| - 1].now);
    }
    hide Alone, AcceptedIn;
  }

  // ---- the bound is the least ----

  function Repeat(now: u64, client: Bytes, n: nat): (rs: seq<Request>)
    ensures |rs| == n && forall i :: 0 <= i < n ==> rs[i] == Request(now, client)
  {
    seq(n, _ => Request(now, client))
  }

  /** One request at the start of a window, the rest of its budget at its last tick, and the next budget at once. */
  function WorstRun(l: Limits, client: Bytes): seq<Request> {
    if l.windowMs == 0 || l.max == 0 then []
    else if l.windowMs == 1 then [Request(0, client)] + Repeat(0, client, l.max - 1)
    else
      [Request(0, client)] + Repeat(l.windowMs - 1, client, l.max - 1)
      + [Request(l.windowMs, client)] + Repeat(l.windowMs, client, l.max - 1)
  }

  function WorstStart(l: Limits): int { if l.windowMs <= 1 then 0 else l.windowMs - 1 }

  /** After a run of the client's own requests up to `now`: its window, and how many passed in the interval. */
  ghost predicate Reached(l: Limits, rs: seq<Request>, client: Bytes, now: u64, w: Option<Window>, from: int,
                          accepted: nat) {
    && ClockRuns(rs) && (forall i :: 0 <= i < |rs| ==> rs[i].client == client && rs[i].now <= now)
    && Alone(l, rs, client) == w && AcceptedIn(l, rs, client, from) == accepted
  }

  function Counts(l: Limits, next: Window, now: u64, from: int): nat {
    if Within(l, now, from) && next.count <= l.max then 1 else 0
  }

  lemma OneMore(l: Limits, rs: seq<Request>, client: Bytes, was: u64, w: Option<Window>, from: int, n: nat, now: u64)
    requires Reached(l, rs, client, was, w, from, n) && was <= now
    ensures var next := Bumped(l, w, now);
            Reached(l, rs + [Request(now, client)], client, now, Some(next), from, n + Counts(l, next, now, from))
  {
    var more := rs + [Request(now, client)];
    assert more[..|more| - 1] == rs;
    ClientsAreIsolated(l, more, |rs|);
    AloneOnOwn(l, rs, client);
    hide AcceptedAt, Bumped;
  }

  /** Further requests inside a window with room for them are all accepted. */
  lemma {:induction false} Fill(l: Limits, rs: seq<Request>, client: Bytes, was: u64, w: Window, from: int, n: nat,
                                now: u64, k: nat)
    requires Reached(l, rs, client, was, Some(w), from, n) && was <= now && l.max < U32_MAX
    requires w.startedAt <= now < w.startedAt + l.windowMs && w.count + k <= l.max
    ensures Reached(l, rs + Repeat(now, client, k), client, if k == 0 then was else now,
                    Some(Window(w.startedAt, w.count + k)), from, n + if Within(l, now, from) then k else 0)
  {
    hide Reached, Within;
    if k == 0 {
      assert rs + Repeat(now, client, k) == rs;
    } else {
      var passed := n + if Within(l, now, from) then k - 1 else 0;
      Fill(l, rs, client, was, w, from, n, now, k - 1);
      OneMore(l, rs + Repeat(now, client, k - 1), client, if k == 1 then was else now,
              Some(Window(w.startedAt, w.count + k - 1)), from, passed, now);
      assert rs + Repeat(now, client, k) == rs + Repeat(now, client, k - 1) + [Request(now, client)];
    }
  }

  /** The first request of a window, and then the budget used up at one later time of it. */
  lemma OpenAndFill(l: Limits, rs: seq<Request>, client: Bytes, was: u64, w: Option<Window>, from: int, n: nat,
                    start: u64, now: u64)
    requires Reached(l, rs, client, was, w, from, n) && was <= start <= now < start + l.windowMs && 0 < l.max < U32_MAX
    requires w.None? || Elapsed(l, w.value, start)
    ensures Reached(l, rs + [Request(start, client)] + Repeat(now, client, l.max - 1), client, now,
                    Some(Window(start, l.max)), from,
                    n + (if Within(l, start, from) then 1 else 0) + if Within(l, now, from) then l.max - 1 else 0)
  {
    hide Reached, Within;
    OneMore(l, rs, client, was, w, from, n, start);
    var passed := n + if Within(l, start, from) then 1 else 0;
    Fill(l, rs + [Request(start, client)], client, start, Window(start, 1), from, passed, now, l.max - 1);
    if l.max == 1 {
      var all := rs + [Request(start, client)] + Repeat(now, client, 0);
      Later(l, all, client, start, Window(start, 1), from, passed, now);
    }
  }

  lemma Later(l: Limits, rs: seq<Request>, client: Bytes, was: u64, w: Window, from: int, n: nat, now: u64)
    requires Reached(l, rs, client, was, Some(w), from, n) && was <= now
    ensures Reached(l, rs, client, now, Some(w), from, n)
  {
  }

  /** For every window length and every budget below the largest, some run has as many accepted as the bound allows. */
  lemma BurstIsReached(l: Limits, client: Bytes)
    requires l.max < U32_MAX
    ensures ClockRuns(WorstRun(l, client))
    ensures AcceptedIn(l, WorstRun(l, client), client, WorstStart(l)) == Burst(l)
  {
    var from := WorstStart(l);
    if l.windowMs > 0 && l.max > 0 {
      var last := if l.windowMs == 1 then 0 else l.windowMs - 1;
      var first := [Request(0, client)] + Repeat(last, client, l.max - 1);
      OpenAndFill(l, [], client, 0, None, from, 0, 0, last);
      assert [] + [Request(0, client)] + Repeat(last, client, l.max - 1) == first;
      hide AcceptedIn, Alone, ClockRuns;
      if l.windowMs > 1 {
        var w := Some(Window(0, l.max));
        OpenAndFill(l, first, client, last, w, from, l.max - 1, l.windowMs, l.windowMs);
      }
    }
  }

  // ---- the largest budget ----

  /** With the largest budget the counter saturates before it can exceed it: nothing is ever refused. */
  lemma LargestBudgetNeverRefuses(l: Limits, rs: seq<Request>, i: nat)
    requires i < |rs|
    ensures l.max == U32_MAX ==> AcceptedAt(l, rs, i)
  {
  }

  /** So any number of requests pass at one instant. */
  lemma {:induction false} LargestBudgetIsNoBudget(l: Limits, client: Bytes, n: nat)
    requires l.max == U32_MAX && l.windowMs > 0
    ensures ClockRuns(Repeat(0, client, n)) && AcceptedIn(l, Repeat(0, client, n), client, 0) == n
  {
    if n > 0 {
      LargestBudgetIsNoBudget(l, client, n - 1);
      assert Repeat(0, client, n)[..n - 1] == Repeat(0, client, n - 1);
      LargestBudgetNeverRefuses(l, Repeat(0, client, n), n - 1);
      hide AcceptedAt;
    }
  }

  lemma {:induction false} NothingInEmptyInterval(l: Limits, rs: seq<Request>, client: Bytes, from: int)
    requires l.windowMs == 0
    ensures AcceptedIn(l, rs, client, from) == 0
  {
    if rs != [] {
      NothingInEmptyInterval(l, rs[..|rs| - 1], client, from);
    }
  }

  /** No run with a nondecreasing clock has more than `b` accepted requests of the client in one window length. */
  ghost predicate BoundedBy(l: Limits, client: Bytes, b: nat) {
    forall rs, from :: ClockRuns(rs) ==> AcceptedIn(l, rs, client, from) <= b
  }

  /** The limiter limits exactly below the largest budget, and then by the burst and by nothing less. */
  lemma LimitsIff(l: Limits, client: Bytes, b: nat)
    ensures BoundedBy(l, client, b) <==> (l.max < 0xFFFF_FFFF || l.windowMs == 0) && b >= Burst(l)
  {
    if l.windowMs == 0 {
      forall rs, from | ClockRuns(rs) ensures AcceptedIn(l, rs, client, from) <= b {
        NothingInEmptyInterval(l, rs, client, from);
      }
    } else if l.max < U32_MAX {
      BurstIsReached(l, client);
      forall rs, from | ClockRuns(rs) ensures AcceptedIn(l, rs, client, from) <= Burst(l) {
        BurstBound(l, rs, client, from);
      }
      hide AcceptedIn, ClockRuns, Burst, WorstRun;
    } else {
      LargestBudgetIsNoBudget(l, client, b + 1);
      hide AcceptedIn, ClockRuns;
    }
  }
}
