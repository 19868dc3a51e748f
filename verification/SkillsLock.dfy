/** Skills lockfiles: the root over a lockfile, signing a receipt for it, and checking one. */
module SkillsLock {
  import opened ByteStrings
  import opened StableSort
  import opened Receipts
  import opened Verify
  import opened Chains
  import opened SnapshotDigest
  import opened Decimals
  import opened Hex
  import opened CanonicalJson

  type u32 = n: int | 0 <= n < 0x1_0000_0000

  datatype LockEntry = LockEntry(source: Str, sourceType: Str, skillPath: Str, gitRef: Str, computedHash: Str)

  /** A lockfile; `skills` lists the map's entries in the order a B-tree map iterates. */
  datatype SkillLock = SkillLock(version: u32, skills: seq<(Str, LockEntry)>)

  ghost predicate InKeyOrder(lock: SkillLock) {
    forall i, j :: 0 <= i < j < |lock.skills| ==> Less(lock.skills[i].0, lock.skills[j].0)
  }

  const MIN_SIGNABLE_LOCK_VERSION := 2
  const GIT_SHA_LEN := 40

  // ---- may it be signed ----

  datatype Refusal =
    | OldVersion
    | NoSkills
    | BadRef(name: Bytes)
    | ReceiptRejected(error: CrownError)
    | RootMismatch
    | VersionMismatch
    | CountMismatch

  predicate HasCommit(entry: LockEntry) { IsLowerHex(entry.gitRef, GIT_SHA_LEN) }

  /** The first entry without a full commit id. */
  function FirstBadRef(skills: seq<(Str, LockEntry)>): (r: Option<Refusal>)
    ensures r.None? <==> forall i :: 0 <= i < |skills| ==> HasCommit(skills[i].1)
  {
    if skills == [] then None
    else if !HasCommit(skills[0].1) then Some(BadRef(skills[0].0))
    else
      assert forall i :: 0 < i < |skills| ==> skills[i] == skills[1..][i - 1];
      FirstBadRef(skills[1..])
  }

  /** `signable` */
  function Signable(lock: SkillLock): Option<Refusal> {
    if lock.version < MIN_SIGNABLE_LOCK_VERSION then Some(OldVersion)
    else if lock.skills == [] then Some(NoSkills)
    else FirstBadRef(lock.skills)
  }

  /** A full commit id: forty lower-case hexadecimal digits. */
  predicate FullCommit(t: Bytes) {
    |t| == 40 && forall i :: 0 <= i < |t| ==> (48 <= t[i] <= 57 || 97 <= t[i] <= 102)
  }

  /** Which lockfiles may be signed, and what is said of the others: version, then emptiness, then the first bad ref. */
  lemma SignableIff(lock: SkillLock)
    ensures match Signable(lock)
            case None =>
              lock.version >= 2 && lock.skills != [] && forall s :: s in lock.skills ==> FullCommit(s.1.gitRef)
            case Some(OldVersion) => lock.version < 2
            case Some(NoSkills) => lock.version >= 2 && lock.skills == []
            case Some(BadRef(name)) => lock.version >= 2 && BadFirst(lock.skills, name)
            case _ => false
  {
    FirstBadIs(lock.skills);
  }

  /** The first entry without a full commit id has this name. */
  ghost predicate BadFirst(skills: seq<(Str, LockEntry)>, name: Bytes) {
    exists i :: 0 <= i < |skills| && skills[i].0 == name && !FullCommit(skills[i].1.gitRef)
                && forall j :: 0 <= j < i ==> FullCommit(skills[j].1.gitRef)
  }

  lemma {:induction false} FirstBadIs(skills: seq<(Str, LockEntry)>)
    ensures FirstBadRef(skills).Some? ==>
              FirstBadRef(skills).value.BadRef? && BadFirst(skills, FirstBadRef(skills).value.name)
    ensures FirstBadRef(skills).None? ==> forall s :: s in skills ==> FullCommit(s.1.gitRef)
  {
    hide FullCommit, BadFirst, HasCommit;
    if skills != [] {
      CommitIsFull(skills[0].1);
      FirstBadIs(skills[1..]);
      BadLater(skills);
      assert skills == [skills[0]] + skills[1..];
    } else {
      assert FirstBadRef(skills).None?;
    }
  }

  /** The first bad entry is the first of the list, or else that of the others. */
  lemma BadLater(skills: seq<(Str, LockEntry)>)
    requires skills != []
    ensures !FullCommit(skills[0].1.gitRef) ==> BadFirst(skills, skills[0].0)
    ensures FullCommit(skills[0].1.gitRef) ==> forall name :: BadFirst(skills[1..], name) ==> BadFirst(skills, name)
  {
    hide FullCommit;
    forall name | FullCommit(skills[0].1.gitRef) && BadFirst(skills[1..], name) ensures BadFirst(skills, name) {
      var i :| 0 <= i < |skills[1..]| && skills[1..][i].0 == name && !FullCommit(skills[1..][i].1.gitRef)
               && forall j :: 0 <= j < i ==> FullCommit(skills[1..][j].1.gitRef);
      assert skills[i + 1] == skills[1..][i];
      assert forall j :: 0 < j < i + 1 ==> skills[j] == skills[1..][j - 1];
    }
  }

  lemma CommitIsFull(entry: LockEntry)
    ensures HasCommit(entry) <==> FullCommit(entry.gitRef)
  {
  }

  // ---- the root ----

  /** The members in the order the JSON literal lists them. */
  function EntryJson(e: LockEntry): Json {
    JObject([ (Ascii("source"), JString(e.source)),
              (Ascii("sourceType"), JString(e.sourceType)),
              (Ascii("skillPath"), JString(e.skillPath)),
              (Ascii("ref"), JString(e.gitRef)),
              (Ascii("computedHash"), JString(e.computedHash)) ])
  }

  /** `digest_entries`: the commit takes the place of a version. */
  function DigestEntries(ryu: Ryu, lock: SkillLock): (r: seq<Entry>)
    ensures |r| == |lock.skills|
    ensures forall i :: 0 <= i < |r| ==>
              r[i] == Entry(lock.skills[i].0, lock.skills[i].1.gitRef, JsonText(ryu, EntryJson(lock.skills[i].1)))
  {
    seq(|lock.skills|, i requires 0 <= i < |lock.skills| =>
      Entry(lock.skills[i].0, lock.skills[i].1.gitRef, JsonText(ryu, EntryJson(lock.skills[i].1))))
  }

  datatype Rooted = Root(root: Digest) | NotSignable(refusal: Refusal)

  /** `lock_merkle_root` */
  function LockRoot(c: Crypto, ryu: Ryu, lock: SkillLock): Rooted {
    var refusal := Signable(lock);
    if refusal.Some? then NotSignable(refusal.value) else Root(SnapshotRoot(c, DigestEntries(ryu, lock)))
  }

  // ---- receipts ----

  datatype ReceiptDraft = ReceiptDraft(eventId: Ulid, snapshotId: Ulid, signedAtMs: u64, previous: Option<Digest>,
                                       kid: Str)

  /** `len() as u64` */
  function SkillCount(lock: SkillLock): u64 { |lock.skills| % U64 }

  function LockBody(lock: SkillLock, draft: ReceiptDraft, root: Digest): Body {
    SkillSnapshot(draft.eventId, draft.snapshotId, draft.signedAtMs, SkillCount(lock), lock.version, root,
                  draft.previous)
  }

  datatype Prepared = Ready(receipt: Receipt) | Refused(refusal: Refusal)

  /** `prepare_receipt` */
  function PrepareReceipt(c: Crypto, ryu: Ryu, lock: SkillLock, draft: ReceiptDraft): Prepared {
    match LockRoot(c, ryu, lock)
    case NotSignable(refusal) => Refused(refusal)
    case Root(root) =>
      var receipt := Receipt(LockBody(lock, draft, root), Zeros(HASH_LEN), Zeros(SIGNATURE_LEN), draft.kid);
      Ready(receipt.(hash := ComputeHash(c, receipt)))
  }

  /** `signing_preimage`: whatever the receipt holds, its signature is zeroed first. */
  function ReceiptSigningPreimage(r: Receipt): Bytes { ToCanonicalCbor(r.(signature := Zeros(SIGNATURE_LEN))) }

  /** The receipt after `sign_receipt`; a failing signer leaves the recomputed hash behind. */
  function SignedReceipt(c: Crypto, r: Receipt, sign: Bytes -> Option<Signature>): Receipt {
    var hashed := r.(hash := ComputeHash(c, r));
    var signature := sign(ReceiptSigningPreimage(hashed));
    if signature.None? then hashed else hashed.(signature := signature.value)
  }

  /** A receipt signed in place. */
  class OpenReceipt {
    var receipt: Receipt

    constructor (r: Receipt)
      ensures receipt == r
    {
      receipt := r;
    }

    /** `sign_receipt` */
    method Sign(c: Crypto, sign: Bytes -> Option<Signature>) returns (ok: bool)
      modifies this
      ensures receipt == SignedReceipt(c, old(receipt), sign)
      ensures ok <==> sign(ReceiptSigningPreimage(old(receipt).(hash := ComputeHash(c, old(receipt))))).Some?
    {
      hide ComputeHash, ToCanonicalCbor;
      receipt := receipt.(hash := ComputeHash(c, receipt));
      var signature := sign(ReceiptSigningPreimage(receipt));
      if signature.None? {
        return false;
      }
      receipt := receipt.(signature := signature.value);
      ok := true;
    }
  }

  /** `verify_lock_receipt`; `None` is acceptance. */
  function VerifyLockReceipt(c: Crypto, ryu: Ryu, lock: SkillLock, r: Receipt, key: Bytes): Option<Refusal>
    requires r.body.SkillSnapshot?
  {
    match VerifyReceiptSignature(c, r, key)
    case Invalid(error) => Some(ReceiptRejected(error))
    case Valid =>
      match LockRoot(c, ryu, lock)
      case NotSignable(refusal) => Some(refusal)
      case Root(root) =>
        if root != r.body.lockRoot then Some(RootMismatch)
        else if lock.version != r.body.lockVersion then Some(VersionMismatch)
        else if SkillCount(lock) != r.body.skillCount then Some(CountMismatch)
        else None
  }

  /** What each answer of the check means: the signature first, then the lockfile, then the three numbers. */
  lemma LockVerdict(c: Crypto, ryu: Ryu, lock: SkillLock, r: Receipt, key: Bytes)
    requires r.body.SkillSnapshot?
    ensures var valid := VerifyReceiptSignature(c, r, key) == Valid;
            var root := c.hash(SetPreimage(DigestEntries(ryu, lock)));
            var signable := Signable(lock).None?;
            match VerifyLockReceipt(c, ryu, lock, r, key)
            case Some(ReceiptRejected(e)) => VerifyReceiptSignature(c, r, key) == Invalid(e)
            case Some(RootMismatch) => valid && signable && r.body.lockRoot != root
            case Some(VersionMismatch) =>
              valid && signable && r.body.lockRoot == root && r.body.lockVersion != lock.version
            case Some(CountMismatch) =>
              && valid && signable && r.body.lockRoot == root && r.body.lockVersion == lock.version
              && r.body.skillCount != |lock.skills| % 0x1_0000_0000_0000_0000
            case Some(refusal) => valid && Signable(lock) == Some(refusal)
            case None =>
              && valid && signable && r.body.lockRoot == root && r.body.lockVersion == lock.version
              && r.body.skillCount == |lock.skills| % 0x1_0000_0000_0000_0000
  {
    SignableIff(lock);
    hide VerifyReceiptSignature, SetPreimage, DigestEntries, Signable;
  }

  // ---- prepare, sign, verify ----

  /** Signing makes any receipt verify, whatever hash and signature it held before. */
  lemma SigningRepairs(c: Crypto, r: Receipt, sign: Bytes -> Option<Signature>, key: Bytes, held: Bytes -> Signature)
    requires Signs(c, key, held) && forall m :: sign(m) == Some(held(m))
    ensures VerifyReceiptSignature(c, SignedReceipt(c, r, sign), key) == Valid
  {
    MintedVerifies(c, r.body, r.kid, held, key);
    ZeroFormIgnoresEnvelope(r, Receipt(r.body, Zeros(HASH_LEN), Zeros(SIGNATURE_LEN), r.kid));
    hide Fields, VerifyReceiptSignature, VerifyReceipt, Signs;
    assert SignedReceipt(c, r, sign) == Mint(c, r.body, r.kid, held);
  }

  /** A receipt can be prepared exactly for the signable lockfiles, and once signed it verifies for them. */
  lemma PrepareSignVerify(c: Crypto, ryu: Ryu, lock: SkillLock, draft: ReceiptDraft, sign: Bytes -> Option<Signature>,
                          key: Bytes, held: Bytes -> Signature)
    requires Signs(c, key, held) && forall m :: sign(m) == Some(held(m))
    ensures PrepareReceipt(c, ryu, lock, draft).Ready? <==> Signable(lock).None?
    ensures Signable(lock).None? ==>
              var signed := SignedReceipt(c, PrepareReceipt(c, ryu, lock, draft).receipt, sign);
              signed.body.SkillSnapshot? && VerifyLockReceipt(c, ryu, lock, signed, key) == None
  {
    hide Signs, VerifyReceiptSignature, ComputeHash, ToCanonicalCbor, SnapshotRoot, Signable;
    if PrepareReceipt(c, ryu, lock, draft).Ready? {
      SigningRepairs(c, PrepareReceipt(c, ryu, lock, draft).receipt, sign, key, held);
    }
  }

  // ---- one receipt, one lockfile ----

  /** What a frame of a signable lockfile is made of; the name may hold any text at all. */
  ghost predicate LockRow(row: (Key, Bytes)) {
    0xFF !in row.0.0 && |row.0.1| == GIT_SHA_LEN && 0xFF !in row.0.1 && AllPlain(row.1)
  }

  /** The last zero octet of a frame ends the commit, so equal frames have equal parts. */
  lemma FrameParts(a: (Key, Bytes), b: (Key, Bytes))
    requires LockRow(a) && LockRow(b) && ServerFrame(a) == ServerFrame(b)
    ensures a == b
  {
    var f, g := ServerFrame(a), ServerFrame(b);
    SameTail(a, b);
    SameTail(b, a);
    var at := |f| - |a.1| - 1;
    assert a.1 == f[at + 1..] && b.1 == g[at + 1..];
    assert a.0.1 == f[at - GIT_SHA_LEN..at] && b.0.1 == g[at - GIT_SHA_LEN..at];
    assert a.0.0 == f[..at - GIT_SHA_LEN - 1] && b.0.0 == g[..at - GIT_SHA_LEN - 1];
  }

  lemma SameTail(a: (Key, Bytes), b: (Key, Bytes))
    requires LockRow(a) && LockRow(b) && ServerFrame(a) == ServerFrame(b)
    ensures |a.1| >= |b.1|
  {
    var f, g := ServerFrame(a), ServerFrame(b);
    var at := |f| - |a.1| - 1;
    assert f[at] == 0 && g[at] == 0;
  }

  lemma LockFrameSplits(a: (Key, Bytes), x: Bytes, b: (Key, Bytes), y: Bytes)
    requires LockRow(a) && LockRow(b)
    requires ServerFrame(a) + [0xFF] + x == ServerFrame(b) + [0xFF] + y
    ensures a == b && x == y
  {
    SnapshotDigest.Delimited(ServerFrame(a), x, ServerFrame(b), y, 0xFF);
    FrameParts(a, b);
  }

  ghost predicate AllLockRows(rows: seq<(Key, Bytes)>) { forall i :: 0 <= i < |rows| ==> LockRow(rows[i]) }

  lemma {:induction false} LockFramesInjective(a: seq<(Key, Bytes)>, b: seq<(Key, Bytes)>)
    requires AllLockRows(a) && AllLockRows(b) && Frames(a) == Frames(b)
    ensures a == b
  {
    hide LockRow, ServerFrame;
    if a != [] && b != [] {
      LockFrameSplits(a[0], Frames(a[1..]), b[0], Frames(b[1..]));
      LockFramesInjective(a[1..], b[1..]);
      assert a == [a[0]] + a[1..] && b == [b[0]] + b[1..];
    } else {
      assert a != [] ==> |Frames(a)| > 0;
      assert b != [] ==> |Frames(b)| > 0;
    }
  }

  lemma EntryJsonLegible(ryu: Ryu, e: LockEntry)
    ensures Legible(ryu, EntryJson(e))
  {
    hide ValidUtf8;
    var members := EntryJson(e).members;
    assert |members| == 5 && forall i :: 0 <= i < |members| ==> Proper(members[i].1) && FloatFree(members[i].1);
    assert DistinctKeys(members);
  }

  lemma EntryJsonFree(e: LockEntry)
    ensures FreeOfFF(EntryJson(e))
  {
    Utf8HasNoFF(e.source);
    Utf8HasNoFF(e.sourceType);
    Utf8HasNoFF(e.skillPath);
    Utf8HasNoFF(e.gitRef);
    Utf8HasNoFF(e.computedHash);
    hide ValidUtf8;
    var members := EntryJson(e).members;
    assert |members| == 5 && forall i :: 0 <= i < |members| ==> FreeOfFF(members[i].1) && 0xFF !in members[i].0;
  }

  /** The canonical text of an entry determines all five of its fields. */
  lemma EntryTextDetermines(ryu: Ryu, a: LockEntry, b: LockEntry)
    requires JsonText(ryu, EntryJson(a)) == JsonText(ryu, EntryJson(b))
    ensures a == b
  {
    EntryJsonLegible(ryu, a);
    EntryJsonLegible(ryu, b);
    TextDetermines(ryu, EntryJson(a), EntryJson(b));
    hide JsonText, Legible, FreeOfFF;
    EntryFields(a, b);
  }

  lemma EntryFields(a: LockEntry, b: LockEntry)
    requires NormalJson(EntryJson(a)) == NormalJson(EntryJson(b))
    ensures a == b
  {
    LessIsStrictOrder();
    hide Less, Sort;
    var x, y := EntryJson(a).members, EntryJson(b).members;
    assert NormalMembers(x) == x && NormalMembers(y) == y;
    SortSameKeys(Less, x, y);
    forall i | 0 <= i < 5 ensures x[i] == y[i] {
      SameAt(x, y, i);
    }
    assert x[0].1 == JString(a.source) && x[1].1 == JString(a.sourceType) && x[2].1 == JString(a.skillPath);
    assert x[3].1 == JString(a.gitRef) && x[4].1 == JString(a.computedHash);
  }

  /** Equal after sorting under the same keys is equal before. */
  lemma SameAt(x: seq<Member>, y: seq<Member>, i: nat)
    requires i < |x| && Keys(x) == Keys(y) && Sort(Less, x) == Sort(Less, y)
    ensures x[i] == y[i]
  {
    LessIsStrictOrder();
    OrderIsStable(Less, Keys(x));
    var idx := Order(Less, Keys(x));
    assert i in idx;
    var p :| 0 <= p < |idx| && idx[p] == i;
    assert Sort(Less, x)[p] == x[i] && Sort(Less, y)[p] == y[i];
  }

  lemma LockRows(ryu: Ryu, lock: SkillLock)
    requires InKeyOrder(lock) && Signable(lock).None?
    ensures SetPreimage(DigestEntries(ryu, lock)) == Frames(Keyed(DigestEntries(ryu, lock)))
    ensures AllLockRows(Keyed(DigestEntries(ryu, lock)))
  {
    hide Less, JsonText, EntryJson, ValidUtf8;
    var rows := Keyed(DigestEntries(ryu, lock));
    EntryLessIsStrictOrder();
    LessIsStrictOrder();
    forall i | 0 <= i < |rows| ensures LockRow(rows[i]) {
      var entry := lock.skills[i].1;
      EntryJsonFree(entry);
      TextIsPlain(ryu, EntryJson(entry));
      Utf8HasNoFF(lock.skills[i].0);
      Utf8HasNoFF(entry.gitRef);
    }
    SortSorted(EntryLess, rows);
  }

  lemma PreimageDeterminesLock(ryu: Ryu, a: SkillLock, b: SkillLock)
    requires InKeyOrder(a) && Signable(a).None? && InKeyOrder(b) && Signable(b).None?
    requires SetPreimage(DigestEntries(ryu, a)) == SetPreimage(DigestEntries(ryu, b))
    ensures a.skills == b.skills
  {
    LockRows(ryu, a);
    LockRows(ryu, b);
    hide SetPreimage, JsonText, EntryJson, AllLockRows, Frames, Signable, InKeyOrder;
    var x, y := Keyed(DigestEntries(ryu, a)), Keyed(DigestEntries(ryu, b));
    LockFramesInjective(x, y);
    forall i | 0 <= i < |a.skills| ensures a.skills[i] == b.skills[i] {
      assert x[i] == y[i];
      EntryTextDetermines(ryu, a.skills[i].1, b.skills[i].1);
    }
  }

  /**
   One accepted receipt determines the whole lockfile: version, names, and all five fields of every
   entry, provided the hash does not collide on the two preimages. Names may hold any text.
   */
  lemma OneReceiptOneLock(c: Crypto, ryu: Ryu, r: Receipt, a: SkillLock, aKey: Bytes, b: SkillLock, bKey: Bytes)
    requires r.body.SkillSnapshot? && InKeyOrder(a) && InKeyOrder(b)
    requires VerifyLockReceipt(c, ryu, a, r, aKey).None? && VerifyLockReceipt(c, ryu, b, r, bKey).None?
    requires NoCollision(c, SetPreimage(DigestEntries(ryu, a)), SetPreimage(DigestEntries(ryu, b)))
    ensures a == b
  {
    hide SetPreimage, VerifyReceiptSignature, Signable, InKeyOrder, DigestEntries;
    PreimageDeterminesLock(ryu, a, b);
  }
}
