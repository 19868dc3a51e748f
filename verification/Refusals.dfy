/** Which error each verifier answers with: that of the first check that fails, and no other. */
module Refusals {
  import opened ByteStrings
  import opened StableSort
  import opened Cbor
  import opened RustReader
  import opened Gates
  import opened Receipts
  import opened Verify
  import opened Chains
  import opened GoVerify
  import opened WireFormat

  // ---- the gates ----

  lemma Admitted(d: Decoder, bs: Bytes)
    ensures Decode(d, bs).Some? ==> Admits(d, bs, Decode(d, bs).value)
    ensures forall v :: Admits(d, bs, v) ==> Decode(d, bs) == Some(v)
  {
    forall v ensures Decode(d, bs) == Some(v) <==> Admits(d, bs, v) { DecodesIffAdmitted(d, bs, v); }
    hide Decode, Admits;
  }

  /** Octets the Rust gate refuses either are no value at all or are a finite value in another than its own encoding. */
  lemma RustGateRefusals(bs: Bytes)
    requires !Stops(AMPLE, |bs|, bs)
    ensures RustGate(bs) == Undecodable <==> forall v :: !Admits(Rust, bs, v)
    ensures RustGate(bs) == NotCanonical <==> exists v :: Admits(Rust, bs, v) && AllFinite(v) && Encode(v) != bs
  {
    HaltsIff(AMPLE, |bs|, bs);
    RunsLikeDecode(AMPLE, bs);
    assert RunDecode(AMPLE, bs) != Halted by { hide RunValue; }
    Admitted(Rust, bs);
    hide Decode, Encode, Admits, Stops, RunDecode, AllFinite;
  }

  /** A string head panics if its end lies beyond the last 64-bit offset, an array or map head if there is no room. */
  lemma HeadPanics(bs: Bytes, room: Room)
    requires bs != [] && HeadLength(bs) <= |bs| && Shortest(bs)
    ensures 0x40 <= bs[0] <= 0x5B || 0x60 <= bs[0] <= 0x7B ==>
              (RustGate(bs, room) == Panics <==>
               && Announced(bs) > |bs| - HeadLength(bs)
               && HeadLength(bs) + Announced(bs) >= 0x1_0000_0000_0000_0000)
    ensures 0x80 <= bs[0] <= 0x9B && Announced(bs) > room.items ==> RustGate(bs, room) == Panics
    ensures 0xA0 <= bs[0] <= 0xBB && Announced(bs) > room.pairs ==> RustGate(bs, room) == Panics
  {
    ArgumentRead(Rust, bs);
    hide ReadArg, Announced, Shortest, Encode, ValidUtf8;
    var body := bs[HeadLength(bs)..];
    if 0x40 <= bs[0] <= 0xBB && bs[0] % 32 < 28 {
      assert RunValue(room, |bs|, bs) == RunBody(room, |bs|, bs[0] / 32, Announced(bs), body);
      hide RunValue, RunItems, RunPairs;
    }
  }

  /** The Go gate answers a value it decodes with an infinity or a NaN in it as if it had not decoded it. */
  lemma GoGateRefusals(bs: Bytes)
    ensures GoGate(bs) == Undecodable <==> forall v :: Admits(Go, bs, v) ==> !AllFinite(v)
    ensures GoGate(bs) == NotCanonical <==> exists v :: Admits(Go, bs, v) && AllFinite(v) && Encode(v) != bs
    ensures GoGate(bs) != Panics
  {
    Admitted(Go, bs);
    hide Decode, Encode, GoEncode, Admits, AllFinite;
    if Decode(Go, bs).Some? && AllFinite(Decode(Go, bs).value) {
      EncodersAgree(Decode(Go, bs).value);
    }
  }

  // ---- the fields ----

  /** The three fields every receipt ends with, in the order they are looked at. */
  function CheckedName(i: nat): Bytes {
    Ascii(if i == 0 then "receipt_hash" else if i == 1 then "receipt_signature" else "signer_kid")
  }

  /** What the field has to hold: 32 octets, 64 octets, text. */
  predicate HoldsItsKind(fields: seq<Pair>, i: nat) {
    var found: Option<CborValue> := Lookup(fields, CheckedName(i));
    found.Some?
    && if i == 0 then found.value.ByteString? && |found.value.bytes| == 32
       else if i == 1 then found.value.ByteString? && |found.value.bytes| == 64
       else found.value.Text?
  }

  /** Field `i` is the first of the three that does not hold what it has to. */
  predicate FirstBad(fields: seq<Pair>, i: nat) {
    i < 3 && !HoldsItsKind(fields, i) && forall j :: 0 <= j < i ==> HoldsItsKind(fields, j)
  }

  predicate AllHold(fields: seq<Pair>) {
    HoldsItsKind(fields, 0) && HoldsItsKind(fields, 1) && HoldsItsKind(fields, 2)
  }

  function HashOf(fields: seq<Pair>): Bytes
    requires AllHold(fields)
  {
    Lookup(fields, CheckedName(0)).value.bytes
  }

  function SignatureOf(fields: seq<Pair>): Bytes
    requires AllHold(fields)
  {
    Lookup(fields, CheckedName(1)).value.bytes
  }

  /** The root is reported if it is 32 octets and otherwise left out. */
  predicate ReportsRoot(fields: seq<Pair>, root: Option<Bytes>) {
    var found: Option<CborValue> := Lookup(fields, Ascii("snapshot_merkle_root"));
    match root
    case Some(b) => |b| == 32 && found == Some(ByteString(b))
    case None => found.None? || !found.value.ByteString? || |found.value.bytes| != 32
  }

  /** The first field that is not as it has to be is missing altogether. */
  ghost predicate MissingFirst(fields: seq<Pair>, name: Bytes) {
    exists i :: FirstBad(fields, i) && name == CheckedName(i) && Lookup(fields, CheckedName(i)).None?
  }

  /** The first field that is not as it has to be is there, but holds something else. */
  ghost predicate WrongKindFirst(fields: seq<Pair>) {
    exists i :: FirstBad(fields, i) && Lookup(fields, CheckedName(i)).Some?
  }

  /** The stored hash is that of the given octets. */
  predicate HashFits(c: Crypto, fields: seq<Pair>, hashed: Bytes) {
    AllHold(fields) && c.hash(hashed) == HashOf(fields)
  }

  predicate Reports(fields: seq<Pair>, facts: ReceiptFacts) {
    && AllHold(fields) && facts.receiptHash == HashOf(fields)
    && Lookup(fields, CheckedName(2)) == Some(Text(facts.signerKid))
    && ReportsRoot(fields, facts.snapshotRoot)
  }

  /** Missing fields, fields of another kind, the hash, the key, the signature: the first that fails decides. */
  lemma FieldVerdict(c: Crypto, fields: seq<Pair>, key: Bytes)
    ensures var signed := SigningPreimage(fields);
            var fits := HashFits(c, fields, HashPreimage(fields));
            match VerifyFields(c, fields, key)
            case Passed(facts) =>
              fits && c.keyOk(key) && c.verify(key, signed, SignatureOf(fields)) && Reports(fields, facts)
            case Failed(MissingField(name)) => MissingFirst(fields, name)
            case Failed(DecodeError) => WrongKindFirst(fields)
            case Failed(HashMismatch) => AllHold(fields) && !fits
            case Failed(BadPublicKeyBytes) => fits && !c.keyOk(key)
            case Failed(BadSignatureBytes) => fits && c.keyOk(key) && !c.verify(key, signed, SignatureOf(fields))
            case _ => false
  {
    hide Ascii, Lookup, HashPreimage, SigningPreimage;
    KindsTaken(fields);
  }

  /** The Go verifier alike, except that a key it cannot read is a bad signature to it. */
  lemma GoFieldVerdict(c: Crypto, fields: seq<Pair>, key: Bytes)
    ensures var signed := GoSigningPreimage(fields);
            var fits := HashFits(c, fields, GoHashPreimage(fields));
            match GoVerifyFields(c, fields, key)
            case Passed(facts) =>
              fits && c.keyOk(key) && c.verify(key, signed, SignatureOf(fields)) && Reports(fields, facts)
            case Failed(MissingField(name)) => MissingFirst(fields, name)
            case Failed(DecodeError) => WrongKindFirst(fields)
            case Failed(HashMismatch) => AllHold(fields) && !fits
            case Failed(BadSignatureBytes) => fits && !(c.keyOk(key) && c.verify(key, signed, SignatureOf(fields)))
            case _ => false
  {
    hide Ascii, Lookup, GoHashPreimage, GoSigningPreimage;
    KindsTaken(fields);
  }

  lemma KindsTaken(fields: seq<Pair>)
    ensures HoldsItsKind(fields, 0) <==> TakeBytes(fields, RECEIPT_HASH, HASH_LEN).Passed?
    ensures HoldsItsKind(fields, 1) <==> TakeBytes(fields, RECEIPT_SIGNATURE, SIGNATURE_LEN).Passed?
    ensures HoldsItsKind(fields, 2) <==> TakeKid(fields).Passed?
    ensures forall i :: 0 <= i < 3 ==> (FirstBad(fields, i) <==>
              !HoldsItsKind(fields, i) && (i > 0 ==> HoldsItsKind(fields, 0)) && (i > 1 ==> HoldsItsKind(fields, 1)))
    ensures ReportsRoot(fields, RootOf(fields))
    ensures CheckedName(0) == RECEIPT_HASH && CheckedName(1) == RECEIPT_SIGNATURE && CheckedName(2) == SIGNER_KID
  {
    hide Ascii, Lookup;
  }

  // ---- one receipt ----

  /** What a verifier says before it looks at any field. */
  lemma ReceiptVerdict(c: Crypto, bs: Bytes, key: Bytes)
    ensures |key| != 32 ==> VerifyReceipt(c, bs, key) == Failed(BadPublicKeyBytes) == GoVerifyReceipt(c, bs, key)
    ensures |key| == 32 && !Stops(AMPLE, |bs|, bs) ==>
              && ((forall v :: !Admits(Rust, bs, v)) ==> VerifyReceipt(c, bs, key) == Failed(DecodeError))
              && (VerifyReceipt(c, bs, key) == Failed(NotCanonicalInput) <==>
                  exists v :: Admits(Rust, bs, v) && AllFinite(v) && Encode(v) != bs)
    ensures |key| == 32 ==>
              && ((forall v :: Admits(Go, bs, v) ==> !AllFinite(v)) ==>
                  GoVerifyReceipt(c, bs, key) == Failed(DecodeError))
              && (GoVerifyReceipt(c, bs, key) == Failed(NotCanonicalInput) <==>
                  exists v :: Admits(Go, bs, v) && AllFinite(v) && Encode(v) != bs)
    ensures |key| == 32 ==> forall v :: IsEncodingOf(bs, v) ==>
              if v.Map? then
                && VerifyReceipt(c, bs, key) == VerifyFields(c, v.pairs, key)
                && GoVerifyReceipt(c, bs, key) == GoVerifyFields(c, v.pairs, key)
              else VerifyReceipt(c, bs, key) == Failed(DecodeError) == GoVerifyReceipt(c, bs, key)
  {
    hide Stops, RustGate, GoGate, Admits, AllFinite, Encode, IsEncodingOf, VerifyFields, GoVerifyFields;
    GoGateRefusals(bs);
    if !Stops(AMPLE, |bs|, bs) { RustGateRefusals(bs); }
    forall v | IsEncodingOf(bs, v) ensures RustGate(bs) == Accepted(v) && GoGate(bs) == Accepted(v) {
      RustGateAcceptsEncodings(bs, v);
      GoGateAcceptsEncodings(bs, v);
    }
    NeverNotCanonical(c, bs, key);
  }

  /** The field checks never answer with the error of the gate. */
  lemma NeverNotCanonical(c: Crypto, bs: Bytes, key: Bytes)
    ensures forall fields :: VerifyFields(c, fields, key) != Failed(NotCanonicalInput)
    ensures forall fields :: GoVerifyFields(c, fields, key) != Failed(NotCanonicalInput)
  {
    hide Ascii, Lookup, HashPreimage, SigningPreimage, GoHashPreimage, GoSigningPreimage;
  }

  // ---- chains ----

  /** What `verify_history` says of a link that passes itself but does not refer back. */
  function LinkError(kind: ChainKind, prior: ReceiptFacts, index: nat): VerifyError {
    if kind == Snapshots && prior.snapshotRoot.None? then MissingField(Ascii("snapshot_merkle_root"))
    else ChainBroken(index)
  }

  /** The first link that fails to verify or to refer back decides what is said of the chain. */
  lemma HistoryStopsAt(c: Crypto, links: seq<Bytes>, key: Bytes, kind: ChainKind, i: nat)
    requires i < |links| && ChainHolds(c, links[..i], key, kind)
    ensures !VerifyReceipt(c, links[i], key).Passed? ==>
              match VerifyReceipt(c, links[i], key)
              case Failed(e) => VerifyHistory(c, links, key, kind) == Failed(e)
              case _ => VerifyHistory(c, links, key, kind) == Panicked
    ensures VerifyReceipt(c, links[i], key).Passed? && i > 0 && !Follows(c, kind, links[i - 1], links[i], key) ==>
              && VerifyReceipt(c, links[i - 1], key).Passed?
              && VerifyHistory(c, links, key, kind) ==
                 Failed(LinkError(kind, VerifyReceipt(c, links[i - 1], key).value, i))
  {
    hide VerifyReceipt, Follows, CheckAgainst, Ascii;
    HistoryReaches(c, links, key, kind, i);
    if i > 0 {
      assert links[..i][i - 1] == links[i - 1];
      if VerifyReceipt(c, links[i], key).Passed? && !Follows(c, kind, links[i - 1], links[i], key) {
        BrokenLink(c, kind, links[i - 1], links[i], key, i);
      }
    }
  }

  /** A chain that holds up to link `i` is read up to there. */
  lemma {:induction false} HistoryReaches(c: Crypto, links: seq<Bytes>, key: Bytes, kind: ChainKind, i: nat)
    requires i < |links| && ChainHolds(c, links[..i], key, kind)
    ensures i > 0 ==> VerifyReceipt(c, links[i - 1], key).Passed?
    ensures VerifyHistory(c, links, key, kind) ==
            HistoryFrom(c, links, key, kind, i,
                        if i == 0 then None else Some(VerifyReceipt(c, links[i - 1], key).value))
  {
    hide VerifyReceipt, Follows, CheckAgainst;
    if i > 0 {
      var front := links[..i - 1];
      assert forall j :: 0 <= j < i ==> links[..i][j] == links[j];
      forall j | 0 <= j < |front| ensures VerifyReceipt(c, front[j], key).Passed? {
        assert front[j] == links[..i][j];
      }
      forall j | 0 < j < |front| ensures FollowsAt(c, front, key, kind, j) {
        assert FollowsAt(c, links[..i], key, kind, j);
      }
      HistoryReaches(c, links, key, kind, i - 1);
      assert VerifyReceipt(c, links[..i][i - 1], key).Passed?;
      if i > 1 {
        assert FollowsAt(c, links[..i], key, kind, i - 1);
        CheckAgainstFollows(c, kind, links[i - 2], links[i - 1], key, i - 1);
        assert CheckAgainst(kind, VerifyReceipt(c, links[i - 2], key).value, links[i - 1], i - 1).Passed?;
      }
    }
  }

  lemma BrokenLink(c: Crypto, kind: ChainKind, prior: Bytes, next: Bytes, key: Bytes, index: nat)
    requires VerifyReceipt(c, prior, key).Passed? && VerifyReceipt(c, next, key).Passed?
    requires !Follows(c, kind, prior, next, key)
    ensures CheckAgainst(kind, VerifyReceipt(c, prior, key).value, next, index) ==
            Failed(LinkError(kind, VerifyReceipt(c, prior, key).value, index))
  {
    hide VerifyReceipt, Lookup, Decode, FieldsOf, Ascii;
    CheckAgainstFollows(c, kind, prior, next, key, index);
    VerifiedDecodes(c, next, key);
  }
}
