/** Offline verification of one receipt from its octets. */
module Verify {
  import opened ByteStrings
  import opened StableSort
  import opened Cbor
  import opened CborLaws
  import opened RustReader
  import opened Gates
  import opened Receipts

  datatype VerifyError =
    | DecodeError
    | NotCanonicalInput
    | MissingField(name: Bytes)
    | HashMismatch
    | BadSignatureBytes
    | BadPublicKeyBytes
    | ChainBroken(link: nat)

  /** A verdict, or the panic of the encoder on a value it cannot write. */
  datatype Verdict<+T> = Passed(value: T) | Failed(error: VerifyError) | Panicked

  datatype ReceiptFacts = ReceiptFacts(receiptHash: Bytes, signerKid: Bytes, snapshotRoot: Option<Bytes>)

  function TakeBytes(fields: seq<Pair>, name: Bytes, length: nat): (r: Verdict<Bytes>)
    ensures r.Passed? <==> Lookup(fields, name).Some? && Lookup(fields, name).value.ByteString?
                           && |Lookup(fields, name).value.bytes| == length
    ensures r.Passed? ==> r.value == Lookup(fields, name).value.bytes
    ensures !r.Panicked?
  {
    var found: Option<CborValue> := Lookup(fields, name);
    match found
    case Some(ByteString(b)) => if |b| == length then Passed(b) else Failed(DecodeError)
    case Some(_) => Failed(DecodeError)
    case None => Failed(MissingField(name))
  }

  /** `signer_kid` must be present, and text. */
  function TakeKid(fields: seq<Pair>): (r: Verdict<Bytes>)
    ensures r.Passed? <==> Lookup(fields, SIGNER_KID).Some? && Lookup(fields, SIGNER_KID).value.Text?
    ensures r.Passed? ==> r.value == Lookup(fields, SIGNER_KID).value.text
    ensures !r.Panicked?
  {
    var found: Option<CborValue> := Lookup(fields, SIGNER_KID);
    match found
    case Some(Text(kid)) => Passed(kid)
    case Some(_) => Failed(DecodeError)
    case None => Failed(MissingField(SIGNER_KID))
  }

  function RootOf(fields: seq<Pair>): Option<Bytes> {
    var found: Option<CborValue> := Lookup(fields, SNAPSHOT_ROOT);
    match found
    case Some(ByteString(b)) => if |b| == HASH_LEN then Some(b) else None
    case _ => None
  }

  function HashPreimage(fields: seq<Pair>): Bytes { Encode(Map(ZeroFields(fields, HASHED_NEUTRAL))) }

  function SigningPreimage(fields: seq<Pair>): Bytes { Encode(Map(ZeroFields(fields, SIGNED_NEUTRAL))) }

  /** The field, hash and signature checks, on a map the gate has let through. */
  function VerifyFields(c: Crypto, fields: seq<Pair>, key: Bytes): (r: Verdict<ReceiptFacts>)
    ensures !r.Panicked?
  {
    var hash := TakeBytes(fields, RECEIPT_HASH, HASH_LEN);
    if hash.Failed? then Failed(hash.error)
    else
      var signature := TakeBytes(fields, RECEIPT_SIGNATURE, SIGNATURE_LEN);
      if signature.Failed? then Failed(signature.error)
      else
        var kid := TakeKid(fields);
        if kid.Failed? then Failed(kid.error)
        else if c.hash(HashPreimage(fields)) != hash.value then Failed(HashMismatch)
        else if !c.keyOk(key) then Failed(BadPublicKeyBytes)
        else if !c.verify(key, SigningPreimage(fields), signature.value) then Failed(BadSignatureBytes)
        else Passed(ReceiptFacts(hash.value, kid.value, RootOf(fields)))
  }

  /** `verify_receipt` */
  function VerifyReceipt(c: Crypto, bs: Bytes, key: Bytes, room: Room := AMPLE): Verdict<ReceiptFacts> {
    if |key| != PUBLIC_KEY_LEN then Failed(BadPublicKeyBytes)
    else
      match RustGate(bs, room)
      case Undecodable => Failed(DecodeError)
      case Panics => Panicked
      case NotCanonical => Failed(NotCanonicalInput)
      case Accepted(v) => if !v.Map? then Failed(DecodeError) else VerifyFields(c, v.pairs, key)
  }

  /**
   When verifying panics, on octets of any origin: a key of the right length, and a fatal head where a value is due
   or a half float that is no number. Less room brings more panics and changes no verdict.
   */
  lemma VerifierPanicsIff(c: Crypto, bs: Bytes, key: Bytes, room: Room)
    ensures VerifyReceipt(c, bs, key, room) == Panicked <==>
            |key| == PUBLIC_KEY_LEN
            && (Stops(room, |bs|, bs) || (Decode(Rust, bs).Some? && Decode(RustChecked, bs).None?))
    ensures VerifyReceipt(c, bs, key, room) == Panicked || VerifyReceipt(c, bs, key, room) == VerifyReceipt(c, bs, key)
  {
    GatePanics(bs, room);
    RoomOnlyPanics(bs, room);
    hide RustGate, Stops, Decode, VerifyFields;
  }

  /** `fields` are what an accepted receipt decodes to, and they pass every check. */
  ghost predicate Accepts(c: Crypto, bs: Bytes, key: Bytes, fields: seq<Pair>) {
    && |key| == PUBLIC_KEY_LEN && c.keyOk(key)
    && IsEncodingOf(bs, Map(fields))
    && TakeBytes(fields, RECEIPT_HASH, HASH_LEN) == Passed(c.hash(HashPreimage(fields)))
    && TakeBytes(fields, RECEIPT_SIGNATURE, SIGNATURE_LEN).Passed?
    && TakeKid(fields).Passed?
    && c.verify(key, SigningPreimage(fields), TakeBytes(fields, RECEIPT_SIGNATURE, SIGNATURE_LEN).value)
  }

  /** What acceptance means, and which facts it reports. */
  lemma AcceptedReceipt(c: Crypto, bs: Bytes, key: Bytes, fields: seq<Pair>)
    ensures Accepts(c, bs, key, fields) ==>
              RustGate(bs) == Accepted(Map(fields)) && VerifyReceipt(c, bs, key) ==
              Passed(ReceiptFacts(TakeBytes(fields, RECEIPT_HASH, HASH_LEN).value, TakeKid(fields).value,
                                  RootOf(fields)))
    ensures RustGate(bs) == Accepted(Map(fields)) && VerifyReceipt(c, bs, key).Passed? ==> Accepts(c, bs, key, fields)
    ensures VerifyReceipt(c, bs, key).Passed? ==> RustGate(bs).Accepted? && RustGate(bs).value.Map?
  {
    RustGateAcceptsEncodings(bs, Map(fields));
    hide RustGate, IsEncodingOf, HashPreimage, SigningPreimage, TakeBytes, TakeKid, RootOf;
  }

  // ---- zeroing after decoding and before encoding ----

  lemma ZeroNormalPairs(fields: seq<Pair>, names: set<Bytes>)
    ensures ZeroFields(NormalPairs(fields), names) == NormalPairs(ZeroFields(fields, names))
  {
  }

  /** Neutralising fields of the decoded, re-sorted map gives the octets of neutralising the original. */
  lemma ZeroingCommutes(fields: seq<Pair>, names: set<Bytes>)
    ensures Encode(Map(ZeroFields(Sort(KeyLess, NormalPairs(fields)), names))) == Encode(Map(ZeroFields(fields, names)))
  {
    hide Encode, Sort, Normalise, Neutral, KeyLess;
    ZeroNormalPairs(fields, names);
    SortedZeroFields(NormalPairs(fields), names);
    EncodeNormalise(Map(ZeroFields(fields, names)));
    NormaliseMap(ZeroFields(fields, names));
  }

  lemma NormaliseMap(fields: seq<Pair>)
    ensures Normalise(Map(fields)) == Map(Sort(KeyLess, NormalPairs(fields)))
  {
  }

  lemma SortedZeroFields(fields: seq<Pair>, names: set<Bytes>)
    ensures ZeroFields(Sort(KeyLess, fields), names) == Sort(KeyLess, ZeroFields(fields, names))
  {
    SortSameKeys(KeyLess, fields, ZeroFields(fields, names));
    hide Neutral, KeyLess, Order;
  }

  lemma {:induction false} LookupNormal(fields: seq<Pair>, name: Bytes)
    ensures Lookup(NormalPairs(fields), name) ==
            if Lookup(fields, name).None? then None else Some(Normalise(Lookup(fields, name).value))
  {
    hide Normalise;
    if fields != [] {
      assert NormalPairs(fields)[1..] == NormalPairs(fields[1..]);
      LookupNormal(fields[1..], name);
    }
  }

  /** A field is found in the decoded map as it was in the map that was encoded. */
  lemma LookupDecoded(fields: seq<Pair>, name: Bytes)
    ensures Lookup(Sort(KeyLess, NormalPairs(fields)), name) ==
            if Lookup(fields, name).None? then None else Some(Normalise(Lookup(fields, name).value))
  {
    hide Normalise, KeyLess, Lookup;
    KeyLessIsStrictOrder();
    LookupAfterSort(KeyLess, NormalPairs(fields), name);
    LookupNormal(fields, name);
  }

  lemma SameTakes(a: seq<Pair>, b: seq<Pair>, name: Bytes, length: nat)
    requires Lookup(a, name) == if Lookup(b, name).None? then None else Some(Normalise(Lookup(b, name).value))
    ensures TakeBytes(a, name, length) == TakeBytes(b, name, length)
    ensures name == SIGNER_KID ==> TakeKid(a) == TakeKid(b)
    ensures name == SNAPSHOT_ROOT ==> RootOf(a) == RootOf(b)
  {
  }

  /** Verification of an encoded map comes down to the map itself, in whatever order it was written. */
  lemma VerifyEncoded(c: Crypto, fields: seq<Pair>, key: Bytes)
    requires Encodable(Map(fields)) && |key| == PUBLIC_KEY_LEN
    ensures VerifyReceipt(c, Encode(Map(fields)), key) == VerifyFields(c, fields, key)
  {
    hide Encode, Normalise, Sort, KeyLess, Lookup, TakeBytes, TakeKid, RootOf, Encodable, Ascii, RustGate;
    var sorted := Sort(KeyLess, NormalPairs(fields));
    IsNormalForm(Map(fields));
    NormaliseMap(fields);
    RustGateAcceptsEncodings(Encode(Map(fields)), Map(sorted));
    ZeroingCommutes(fields, HASHED_NEUTRAL);
    ZeroingCommutes(fields, SIGNED_NEUTRAL);
    LookupDecoded(fields, RECEIPT_HASH);
    LookupDecoded(fields, RECEIPT_SIGNATURE);
    LookupDecoded(fields, SIGNER_KID);
    LookupDecoded(fields, SNAPSHOT_ROOT);
    SameTakes(sorted, fields, RECEIPT_HASH, HASH_LEN);
    SameTakes(sorted, fields, RECEIPT_SIGNATURE, SIGNATURE_LEN);
    SameTakes(sorted, fields, SIGNER_KID, 0);
    SameTakes(sorted, fields, SNAPSHOT_ROOT, 0);
  }

  // ---- typed and map-level verification ----

  function FactsOf(r: Receipt): ReceiptFacts {
    ReceiptFacts(r.hash, r.kid, if r.body.RegistrySnapshot? then Some(r.body.snapshotRoot) else None)
  }

  /** Only registry snapshots carry the field a snapshot chain links through. */
  lemma RootOfReceipt(r: Receipt)
    ensures RootOf(Fields(r, false)) == FactsOf(r).snapshotRoot
  {
    hide Lookup, Ascii, EnvelopeFields, BodyFields;
    if r.body.RegistrySnapshot? {
      FindRoot(r.body, EnvelopeFields(r, false));
    } else {
      FindNoRoot(r);
    }
  }

  lemma FindRoot(b: Body, more: seq<Pair>)
    requires b.RegistrySnapshot?
    ensures Lookup(BodyFields(b) + more, SNAPSHOT_ROOT) == Some(ByteString(b.snapshotRoot))
  {
    RegistrySnapshotFieldsOk(b);
    var body := BodyFields(b);
    hide Lookup, Ascii, RegistrySnapshotFields, Encodable, WellFormedText, Free;
    assert |body| == 9 && body[4] == (SNAPSHOT_ROOT, ByteString(b.snapshotRoot));
    assert forall i :: 0 <= i < 4 ==> body[i].0 != SNAPSHOT_ROOT;
    hide *;
    assert forall i :: 0 <= i < |body| ==> (body + more)[i] == body[i];
    LookupFirst(body + more, SNAPSHOT_ROOT, 4);
  }

  lemma FindNoRoot(r: Receipt)
    requires !r.body.RegistrySnapshot?
    ensures Lookup(Fields(r, false), SNAPSHOT_ROOT) == None
  {
    hide Lookup, Ascii, BodyFields, Encodable, WellFormedText, Free;
    BodyOk(r.body);
    NamesRootless();
    var body, envelope := BodyFields(r.body), EnvelopeFields(r, false);
    LookupSkips(body, envelope, SNAPSHOT_ROOT);
    LookupSkips(envelope, [], SNAPSHOT_ROOT);
    assert envelope + [] == envelope;
    NothingFound(SNAPSHOT_ROOT);
  }

  lemma NothingFound(name: Bytes)
    ensures Lookup<Bytes, CborValue>([], name) == None
  {
  }

  /**
   The typed check of a receipt and the map-level check of its octets agree on every receipt of every
   type, whatever its fields hold.
   */
  lemma TypedAndMapLevelAgree(c: Crypto, r: Receipt, key: Bytes)
    ensures VerifyReceiptSignature(c, r, key) == Valid <==> VerifyReceipt(c, ToCanonicalCbor(r), key).Passed?
    ensures VerifyReceiptSignature(c, r, key) == Valid ==>
            VerifyReceipt(c, ToCanonicalCbor(r), key) == Passed(FactsOf(r))
  {
    hide Encode, Fields, Lookup, RootOf, Ascii, Encodable, Overwrite, RustGate;
    ReceiptEncodable(r, false);
    LookupEnvelope(r);
    RootOfReceipt(r);
    TypedZeroingForHash(r);
    TypedZeroingForSignature(r);
    if |key| == PUBLIC_KEY_LEN {
      VerifyEncoded(c, Fields(r, false), key);
    }
  }

  /** Everything the producer mints verifies, and reports the facts it was minted with. */
  lemma MintedVerifies(c: Crypto, body: Body, kid: Str, sign: Bytes -> Signature, key: Bytes)
    requires Signs(c, key, sign)
    ensures var r := Mint(c, body, kid, sign);
            && r.body == body && r.kid == kid
            && VerifyReceiptSignature(c, r, key) == Valid
            && VerifyReceipt(c, ToCanonicalCbor(r), key) == Passed(FactsOf(r))
  {
    var r := Mint(c, body, kid, sign);
    TypedZeroingForSignature(r);
    TypedAndMapLevelAgree(c, r, key);
    ZeroFormIgnoresEnvelope(r, Receipt(body, Zeros(HASH_LEN), Zeros(SIGNATURE_LEN), kid));
    hide Encode, Fields, Overwrite, VerifyReceipt;
  }

  lemma ZeroFormIgnoresEnvelope(r: Receipt, s: Receipt)
    requires r.body == s.body
    ensures Fields(r, true) == Fields(s, true)
  {
  }
}
