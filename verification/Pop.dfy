/** Proof of possession: single-use challenge tickets, and the octets a challenge is signed over. */
module Pop {
  import opened ByteStrings

  /** `saturating_add` on 64 bits. */
  function SaturatingAdd(a: u64, b: u64): u64 { if a + b < U64 then a + b else U64 - 1 }

  datatype Ticket<B> = Ticket(binding: B, expiresAt: u64)

  type Tickets<B> = map<Bytes, Ticket<B>>

  datatype Spend = Spent | UnknownTicket | BindingMismatch

  // ---- the operations, on values ----

  /** `retain`: tickets that have expired by `now` go. */
  function Swept<B>(t: Tickets<B>, now: u64): Tickets<B> { map id | id in t && now <= t[id].expiresAt :: t[id] }

  function Consumed<B(==)>(t: Tickets<B>, now: u64, id: Bytes, expected: B): Spend {
    if id !in t || now > t[id].expiresAt then UnknownTicket
    else if t[id].binding != expected then BindingMismatch
    else Spent
  }

  datatype Op<B> = Issue(now: u64, id: Bytes, binding: B) | Consume(now: u64, id: Bytes, binding: B)

  /** One operation on the table, with or without the sweep that `issue` makes. */
  function Step<B>(t: Tickets<B>, ttl: u64, sweeps: bool, op: Op<B>): Tickets<B> {
    match op
    case Issue(now, id, binding) =>
      (if sweeps then Swept(t, now) else t)[id := Ticket(binding, SaturatingAdd(now, ttl))]
    case Consume(_, id, _) => t - {id}
  }

  function After<B>(ttl: u64, sweeps: bool, ops: seq<Op<B>>): Tickets<B> {
    if ops == [] then map[] else Step(After(ttl, sweeps, ops[..|ops| - 1]), ttl, sweeps, ops[|ops| - 1])
  }

  /** What operation `i` of a run answers, if it is a consumption. */
  function AnswerAt<B(==)>(ttl: u64, sweeps: bool, ops: seq<Op<B>>, i: nat): Spend
    requires i < |ops|
  {
    if ops[i].Issue? then UnknownTicket
    else Consumed(After(ttl, sweeps, ops[..i]), ops[i].now, ops[i].id, ops[i].binding)
  }

  // ---- the store ----

  /**
   `NonceStore` and `OAuthStateStore`: one algorithm over two kinds of binding, three texts each.
   */
  class TicketStore<B(==)> {
    const ttl: u64
    var entries: Tickets<B>

    constructor (ttl: u64)
      ensures this.ttl == ttl && entries == map[]
    {
      this.ttl := ttl;
      entries := map[];
    }

    method Issue(now: u64, id: Bytes, binding: B) returns (expiresAt: u64)
      modifies this
      ensures expiresAt == SaturatingAdd(now, ttl)
      ensures entries == Step(old(entries), ttl, true, Op.Issue(now, id, binding))
    {
      expiresAt := SaturatingAdd(now, ttl);
      entries := map k | k in entries && now <= entries[k].expiresAt :: entries[k];
      entries := entries[id := Ticket(binding, expiresAt)];
    }

    /** The ticket is removed before it is looked at, so a wrong attempt burns it. */
    method Consume(now: u64, id: Bytes, expected: B) returns (r: Spend)
      modifies this
      ensures r == Consumed(old(entries), now, id, expected)
      ensures entries == Step(old(entries), ttl, true, Op.Consume(now, id, expected))
    {
      if id !in entries {
        assert entries - {id} == entries;
        return UnknownTicket;
      }
      var ticket := entries[id];
      entries := entries - {id};
      if now > ticket.expiresAt {
        return UnknownTicket;
      }
      if ticket.binding != expected {
        return BindingMismatch;
      }
      r := Spent;
    }
  }

  /** A whole run against one store, with the answers to its consumptions. */
  method RunAll<B(==)>(ttl: u64, ops: seq<Op<B>>) returns (answers: seq<Spend>)
    ensures |answers| == |ops| && forall i :: 0 <= i < |ops| ==> answers[i] == AnswerAt(ttl, true, ops, i)
  {
    var store := new TicketStore<B>(ttl);
    answers := [];
    for i := 0 to |ops|
      invariant fresh(store) && store.ttl == ttl && store.entries == After(ttl, true, ops[..i])
      invariant |answers| == i && forall k :: 0 <= k < i ==> answers[k] == AnswerAt(ttl, true, ops, k)
    {
      assert ops[..i + 1][..i] == ops[..i];
      match ops[i] {
        case Issue(now, id, binding) =>
          var expiresAt := store.Issue(now, id, binding);
          answers := answers + [UnknownTicket];
        case Consume(now, id, binding) =>
          var r := store.Consume(now, id, binding);
          answers := answers + [r];
      }
    }
  }

  // ---- what a run answers, told from its history alone ----

  ghost predicate ClockRuns<B(!new)>(ops: seq<Op<B>>) {
    forall i, j :: 0 <= i < j < |ops| ==> ops[i].now <= ops[j].now
  }

  /** The last operation on `id`. */
  function LastTouch<B>(ops: seq<Op<B>>, id: Bytes): (j: Option<nat>)
    ensures j.Some? ==> j.value < |ops| && ops[j.value].id == id && forall k :: j.value < k < |ops| ==> ops[k].id != id
    ensures j.None? ==> forall k :: 0 <= k < |ops| ==> ops[k].id != id
  {
    if ops == [] then None
    else if ops[|ops| - 1].id == id then Some(|ops| - 1)
    else LastTouch(ops[..|ops| - 1], id)
  }

  /** The answer a history of operations calls for. */
  function Due<B(==)>(ttl: u64, before: seq<Op<B>>, now: u64, id: Bytes, expected: B): Spend {
    var j := LastTouch(before, id);
    if j.None? || before[j.value].Consume? || now > before[j.value].now + ttl then UnknownTicket
    else if before[j.value].binding != expected then BindingMismatch
    else Spent
  }

  /** Without sweeping, the table is the history. */
  lemma {:induction false} UnsweptIsHistory<B(!new)>(ttl: u64, ops: seq<Op<B>>, id: Bytes)
    ensures var t, j := After(ttl, false, ops), LastTouch(ops, id);
            && (id in t <==> j.Some? && ops[j.value].Issue?)
            && (id in t ==> t[id] == Ticket(ops[j.value].binding, SaturatingAdd(ops[j.value].now, ttl)))
  {
    if ops != [] {
      UnsweptIsHistory(ttl, ops[..|ops| - 1], id);
    }
  }

  /** Some issue after operation `j` came too late for the ticket that `j` issued. */
  ghost predicate SweptSince<B(!new)>(ttl: u64, ops: seq<Op<B>>, j: nat)
    requires j < |ops|
  {
    exists k :: j < k < |ops| && ops[k].Issue? && ops[k].now > ops[j].now + ttl
  }

  /** With sweeping, the table is the history less what an issue has swept since. */
  lemma {:induction false} SweptIsHistory<B(!new)>(ttl: u64, ops: seq<Op<B>>, id: Bytes)
    ensures var t, j := After(ttl, true, ops), LastTouch(ops, id);
            && (id in t <==> j.Some? && ops[j.value].Issue? && !SweptSince(ttl, ops, j.value))
            && (id in t ==> t[id] == Ticket(ops[j.value].binding, SaturatingAdd(ops[j.value].now, ttl)))
  {
    if ops != [] {
      var init, last := ops[..|ops| - 1], ops[|ops| - 1];
      SweptIsHistory(ttl, init, id);
      var j := LastTouch(init, id);
      if j.Some? && last.id != id {
        assert SweptSince(ttl, ops, j.value) <==>
               SweptSince(ttl, init, j.value) || (last.Issue? && last.now > ops[j.value].now + ttl) by {
          assert forall k :: j.value < k < |init| ==> ops[k] == init[k];
        }
      }
    }
  }

  /** The last operation on the ticket issued it, and a later issue swept it although it is still good at `now`. */
  ghost predicate SweptEarly<B(!new)>(ttl: u64, before: seq<Op<B>>, now: u64, id: Bytes) {
    var j := LastTouch(before, id);
    && j.Some? && before[j.value].Issue? && SweptSince(ttl, before, j.value)
    && now <= before[j.value].now + ttl
  }

  /**
   On every run, under whatever clock, the sweeping store answers a consumption otherwise than a store that
   never sweeps exactly if the last operation on the ticket issued it, an issue since then came after its
   expiry, and the consumption does not. The unswept answer is the one the history calls for.
   */
  lemma SweepingShowsIff<B(!new)>(ttl: u64, ops: seq<Op<B>>, i: nat)
    requires i < |ops| && ops[i].Consume?
    ensures AnswerAt(ttl, true, ops, i) != AnswerAt(ttl, false, ops, i) <==>
            SweptEarly(ttl, ops[..i], ops[i].now, ops[i].id)
    ensures AnswerAt(ttl, false, ops, i) == Due(ttl, ops[..i], ops[i].now, ops[i].id, ops[i].binding)
  {
    SweptIsHistory(ttl, ops[..i], ops[i].id);
    UnsweptIsHistory(ttl, ops[..i], ops[i].id);
    hide After, SweptSince;
  }

  /**
   Under a clock that never runs backwards, the sweeping store answers every consumption as a store that
   never sweeps, and that answer can be told from the history: success exactly when the last operation
   on the ticket issued it, for the same binding, no longer ago than the lifetime.
   */
  lemma SweepingIsInvisible<B(!new)>(ttl: u64, ops: seq<Op<B>>, i: nat)
    requires ClockRuns(ops) && i < |ops| && ops[i].Consume?
    ensures AnswerAt(ttl, true, ops, i) == AnswerAt(ttl, false, ops, i)
    ensures AnswerAt(ttl, true, ops, i) == Due(ttl, ops[..i], ops[i].now, ops[i].id, ops[i].binding)
  {
    SweepingShowsIff(ttl, ops, i);
    hide AnswerAt, Due;
    assert forall k :: 0 <= k < i ==> ops[..i][k].now <= ops[i].now;
  }

  /** A success has an issue to show for it: same binding, within the lifetime, nothing in between. */
  lemma SuccessHasIssue<B(!new)>(ttl: u64, ops: seq<Op<B>>, i: nat) returns (j: nat)
    requires ClockRuns(ops) && i < |ops| && ops[i].Consume? && AnswerAt(ttl, true, ops, i) == Spent
    ensures j < i && ops[j].Issue? && ops[j].id == ops[i].id && ops[j].binding == ops[i].binding
    ensures ops[i].now - ops[j].now <= ttl
    ensures forall k :: j < k < i ==> ops[k].id != ops[i].id
  {
    SweepingIsInvisible(ttl, ops, i);
    hide AnswerAt;
    j := LastTouch(ops[..i], ops[i].id).value;
    assert ops[j] == ops[..i][j];
    assert forall k :: j < k < i ==> ops[k] == ops[..i][k];
  }

  function Issues<B>(ops: seq<Op<B>>, id: Bytes): nat {
    if ops == [] then 0
    else Issues(ops[..|ops| - 1], id) + if ops[|ops| - 1].Issue? && ops[|ops| - 1].id == id then 1 else 0
  }

  function Successes<B(==)>(ttl: u64, ops: seq<Op<B>>, id: Bytes): nat {
    if ops == [] then 0
    else
      var last := |ops| - 1;
      Successes(ttl, ops[..last], id)
      + if ops[last].Consume? && ops[last].id == id && AnswerAt(ttl, true, ops, last) == Spent then 1 else 0
  }

  /** However a run goes, a ticket is never spent more often than it was issued, live ones included. */
  lemma {:induction false} NeverOverspent<B(!new)>(ttl: u64, ops: seq<Op<B>>, id: Bytes)
    ensures Successes(ttl, ops, id) + (if id in After(ttl, true, ops) then 1 else 0) <= Issues(ops, id)
  {
    if ops != [] {
      NeverOverspent(ttl, ops[..|ops| - 1], id);
    }
  }

  /** A clock set back makes the sweep visible: the swept ticket was still good at the earlier time. */
  lemma SweepShowsWhenClockSetBack()
    ensures var ops := [Op.Issue(0, [97], true), Op.Issue(900_001, [98], true), Op.Consume(0, [97], true)];
            AnswerAt(900_000, true, ops, 2) == UnknownTicket && AnswerAt(900_000, false, ops, 2) == Spent
  {
    var a: Bytes, b: Bytes := [97], [98];
    var ops := [Op.Issue(0, a, true), Op.Issue(900_001, b, true), Op.Consume(0, a, true)];
    var before := ops[..2];
    assert a[0] != b[0] && before[0] == ops[0] && before[1] == ops[1];
    assert LastTouch(before, a) == Some(0);
    assert before[1].now > before[0].now + 900_000;
    SweepingShowsIff(900_000, ops, 2);
    SweptIsHistory(900_000, before, a);
    hide After, LastTouch;
  }

  // ---- the octets a caller signs ----

  const POP_DOMAIN := Ascii("rcx-pop-v1")

  /** Length as four octets, cut to 32 bits, then the text. */
  function LengthPrefixed(field: Bytes): Bytes { BigEndian(|field|, 4) + field }

  function PrefixedFields(fields: seq<Bytes>): Bytes {
    if fields == [] then [] else LengthPrefixed(fields[0]) + PrefixedFields(fields[1..])
  }

  function ChallengeBytes(nonce: Bytes, server: Bytes, passport: Bytes): Bytes {
    POP_DOMAIN + [0] + PrefixedFields([nonce, server, passport])
  }

  /** `challenge_signing_bytes` */
  method ChallengeSigningBytes(nonce: Bytes, server: Bytes, passport: Bytes) returns (out: Bytes)
    ensures out == ChallengeBytes(nonce, server, passport)
  {
    hide LengthPrefixed;
    var fields := [nonce, server, passport];
    out := POP_DOMAIN;
    out := out + [0];
    for i := 0 to |fields|
      invariant out + PrefixedFields(fields[i..]) == ChallengeBytes(nonce, server, passport)
    {
      assert fields[i..][1..] == fields[i + 1..];
      out := out + LengthPrefixed(fields[i]);
    }
    assert out + [] == out;
  }

  const U32 := 0x1_0000_0000

  ghost predicate Short(fields: seq<Bytes>) { forall i :: 0 <= i < |fields| ==> |fields[i]| < U32 }

  lemma PrefixSplits(a: Bytes, x: Bytes, b: Bytes, y: Bytes)
    requires |a| < U32 && |b| < U32 && LengthPrefixed(a) + x == LengthPrefixed(b) + y
    ensures a == b && x == y
  {
    Pow256Values();
    FromToBigEndian(|a|, 4);
    FromToBigEndian(|b|, 4);
    var m, n := LengthPrefixed(a) + x, LengthPrefixed(b) + y;
    assert m[..4] == BigEndian(|a|, 4) && n[..4] == BigEndian(|b|, 4);
    assert a == m[4..4 + |a|] && b == n[4..4 + |b|];
    assert x == m[4 + |a|..] && y == n[4 + |b|..];
  }

  lemma {:induction false} FieldsInjective(a: seq<Bytes>, b: seq<Bytes>)
    requires |a| == |b| && Short(a) && Short(b) && PrefixedFields(a) == PrefixedFields(b)
    ensures a == b
  {
    hide LengthPrefixed;
    if a != [] {
      PrefixSplits(a[0], PrefixedFields(a[1..]), b[0], PrefixedFields(b[1..]));
      FieldsInjective(a[1..], b[1..]);
      assert a == [a[0]] + a[1..] && b == [b[0]] + b[1..];
    }
  }

  /** The three texts under 4 GiB can be told from the octets. */
  lemma ChallengesDiffer(nonce: Bytes, server: Bytes, passport: Bytes, nonce': Bytes, server': Bytes, passport': Bytes)
    requires Short([nonce, server, passport]) && Short([nonce', server', passport'])
    requires ChallengeBytes(nonce, server, passport) == ChallengeBytes(nonce', server', passport')
    ensures nonce == nonce' && server == server' && passport == passport'
  {
    hide PrefixedFields;
    var a, b := [nonce, server, passport], [nonce', server', passport'];
    var n := |POP_DOMAIN| + 1;
    assert ChallengeBytes(nonce, server, passport)[n..] == PrefixedFields(a);
    assert ChallengeBytes(nonce', server', passport')[n..] == PrefixedFields(b);
    FieldsInjective(a, b);
    assert a[0] == b[0] && a[1] == b[1] && a[2] == b[2];
  }

  /** At 4 GiB the length prefix wraps to zero and two different challenges meet. */
  lemma LongChallengesMeet()
    ensures ChallengeBytes(Zeros(U32), [], []) == ChallengeBytes([], [], Zeros(U32))
  {
    var zeros := Zeros(U32);
    WrappedLength();
    assert LengthPrefixed([]) == Zeros(4);
    ThreeFields(zeros, [], []);
    ThreeFields([], [], zeros);
    assert LengthPrefixed(zeros) + LengthPrefixed([]) + LengthPrefixed([]) == Zeros(U32 + 12);
    assert LengthPrefixed([]) + LengthPrefixed([]) + LengthPrefixed(zeros) == Zeros(U32 + 12);
  }

  /** Challenges whose texts are all shorter than `n` octets are told apart by the octets signed. */
  ghost predicate ToldApart(n: nat) {
    forall a, b, c, x, y, z ::
      ShorterThan(a, b, c, n) && ShorterThan(x, y, z, n) && ChallengeBytes(a, b, c) == ChallengeBytes(x, y, z) ==>
        a == x && b == y && c == z
  }

  ghost predicate ShorterThan(a: Bytes, b: Bytes, c: Bytes, n: nat) { |a| < n && |b| < n && |c| < n }

  /** The octets tell challenges apart exactly up to the length four octets can hold. */
  lemma ToldApartIff(n: nat)
    ensures ToldApart(n) <==> n <= U32
  {
    if n <= U32 {
      forall a, b, c, x, y, z | ShorterThan(a, b, c, n) && ShorterThan(x, y, z, n)
                                && ChallengeBytes(a, b, c) == ChallengeBytes(x, y, z)
        ensures a == x && b == y && c == z
      {
        ChallengesDiffer(a, b, c, x, y, z);
      }
    } else {
      LongChallengesMeet();
      hide ChallengeBytes;
      assert ShorterThan(Zeros(U32), [], [], n) && ShorterThan([], [], Zeros(U32), n);
    }
  }

  lemma ThreeFields(a: Bytes, b: Bytes, c: Bytes)
    ensures PrefixedFields([a, b, c]) == LengthPrefixed(a) + LengthPrefixed(b) + LengthPrefixed(c)
  {
    hide LengthPrefixed;
    assert [a, b, c][1..] == [b, c] && [b, c][1..] == [c] && [c][1..] == [];
    assert PrefixedFields([c]) == LengthPrefixed(c) + [];
    assert PrefixedFields([b, c]) == LengthPrefixed(b) + PrefixedFields([c]);
    assert PrefixedFields([a, b, c]) == LengthPrefixed(a) + PrefixedFields([b, c]);
  }

  lemma WrappedLength()
    ensures BigEndian(U32, 4) == Zeros(4) && BigEndian(0, 4) == Zeros(4)
  {
  }

  /** The length as four octets, the highest first, cut to 32 bits. */
  function LengthOctets(n: nat): Bytes { [n / 0x100_0000 % 0x100, n / 0x1_0000 % 0x100, n / 0x100 % 0x100, n % 0x100] }

  lemma LengthInOctets(n: nat)
    ensures BigEndian(n, 4) == LengthOctets(n)
  {
    assert n / 0x100 / 0x100 == n / 0x1_0000 && n / 0x1_0000 / 0x100 == n / 0x100_0000;
    assert BigEndian(n / 0x100_0000, 1) == [n / 0x100_0000 % 0x100];
    assert BigEndian(n / 0x1_0000, 2) == [n / 0x100_0000 % 0x100, n / 0x1_0000 % 0x100];
    assert BigEndian(n / 0x100, 3) == [n / 0x100_0000 % 0x100, n / 0x1_0000 % 0x100, n / 0x100 % 0x100];
  }

  /** The domain, a zero octet, then nonce, server name and passport, each behind its length. */
  lemma ChallengeLaidOut(nonce: Bytes, server: Bytes, passport: Bytes)
    ensures ChallengeBytes(nonce, server, passport) ==
            Ascii("rcx-pop-v1") + [0] + LengthOctets(|nonce|) + nonce + LengthOctets(|server|) + server
            + LengthOctets(|passport|) + passport
  {
    ThreeFields(nonce, server, passport);
    LengthInOctets(|nonce|);
    LengthInOctets(|server|);
    LengthInOctets(|passport|);
    hide LengthOctets, BigEndian, Ascii, PrefixedFields;
  }
}
