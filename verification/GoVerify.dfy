/** The Go verifier, and when it and the Rust verifier accept the same receipts and chains. */
module GoVerify {
  import opened ByteStrings
  import opened StableSort
  import opened Cbor
  import opened CborLaws
  import opened Gates
  import opened Receipts
  import opened Verify
  import opened Chains

  type Replacements = map<Bytes, CborValue>

  /** `CborMap.Replace`: every pair under a listed name takes the listed value, whatever it held. */
  function Replace(fields: seq<Pair>, values: Replacements): (r: seq<Pair>)
    ensures |r| == |fields|
    ensures forall i :: 0 <= i < |fields| ==>
              r[i] == if fields[i].0 in values then (fields[i].0, values[fields[i].0]) else fields[i]
  {
    seq(|fields|, i requires 0 <= i < |fields| =>
      if fields[i].0 in values then (fields[i].0, values[fields[i].0]) else fields[i])
  }

  const HASH_REPLACEMENTS: Replacements := map[
    RECEIPT_HASH := ByteString(Zeros(HASH_LEN)),
    RECEIPT_SIGNATURE := ByteString(Zeros(SIGNATURE_LEN)),
    SIGNER_KID := Null]

  const SIGNATURE_REPLACEMENTS: Replacements := map[RECEIPT_SIGNATURE := ByteString(Zeros(SIGNATURE_LEN))]

  function GoHashPreimage(fields: seq<Pair>): Bytes { GoEncode(Map(Replace(fields, HASH_REPLACEMENTS))) }

  function GoSigningPreimage(fields: seq<Pair>): Bytes { GoEncode(Map(Replace(fields, SIGNATURE_REPLACEMENTS))) }

  /** The checks after the gate; a key that does not decode fails as a signature does. */
  function GoVerifyFields(c: Crypto, fields: seq<Pair>, key: Bytes): Verdict<ReceiptFacts> {
    var hash := TakeBytes(fields, RECEIPT_HASH, HASH_LEN);
    if hash.Failed? then Failed(hash.error)
    else
      var signature := TakeBytes(fields, RECEIPT_SIGNATURE, SIGNATURE_LEN);
      if signature.Failed? then Failed(signature.error)
      else
        var kid := TakeKid(fields);
        if kid.Failed? then Failed(kid.error)
        else if c.hash(GoHashPreimage(fields)) != hash.value then Failed(HashMismatch)
        else if !c.keyOk(key) || !c.verify(key, GoSigningPreimage(fields), signature.value) then
          Failed(BadSignatureBytes)
        else Passed(ReceiptFacts(hash.value, kid.value, RootOf(fields)))
  }

  /** `VerifyReceipt` of the Go SDK */
  function GoVerifyReceipt(c: Crypto, bs: Bytes, key: Bytes): Verdict<ReceiptFacts> {
    if |key| != PUBLIC_KEY_LEN then Failed(BadPublicKeyBytes)
    else
      match GoGate(bs)
      case NotCanonical => Failed(NotCanonicalInput)
      case Accepted(v) => if !v.Map? then Failed(DecodeError) else GoVerifyFields(c, v.pairs, key)
      case _ => Failed(DecodeError)
  }

  // ---- replacing and zeroing ----

  /** What a pair must hold for the two ways of neutralising it to come to the same. */
  predicate Shaped(p: Pair) {
    if p.0 == RECEIPT_HASH then p.1.ByteString? && |p.1.bytes| == HASH_LEN
    else if p.0 == RECEIPT_SIGNATURE then p.1.ByteString? && |p.1.bytes| == SIGNATURE_LEN
    else p.0 == SIGNER_KID ==> p.1.Text? || p.1.Null?
  }

  ghost predicate AllShaped(fields: seq<Pair>) { forall i :: 0 <= i < |fields| ==> Shaped(fields[i]) }

  /** The preimage maps coincide exactly when every envelope pair, duplicates included, has its shape. */
  lemma ReplacingIsZeroing(fields: seq<Pair>)
    ensures Replace(fields, HASH_REPLACEMENTS) == ZeroFields(fields, HASHED_NEUTRAL) <==> AllShaped(fields)
    ensures AllShaped(fields) ==> Replace(fields, SIGNATURE_REPLACEMENTS) == ZeroFields(fields, SIGNED_NEUTRAL)
  {
  }

  /** Without duplicate keys, the field checks already force the shapes. */
  lemma TakenIsShaped(fields: seq<Pair>)
    requires DistinctKeys(fields)
    requires TakeBytes(fields, RECEIPT_HASH, HASH_LEN).Passed?
            && TakeBytes(fields, RECEIPT_SIGNATURE, SIGNATURE_LEN).Passed?
    requires TakeKid(fields).Passed?
    ensures AllShaped(fields)
  {
  }

  lemma GoPreimages(fields: seq<Pair>)
    requires AllFinite(Map(fields))
    ensures GoHashPreimage(fields) == Encode(Map(Replace(fields, HASH_REPLACEMENTS)))
    ensures GoSigningPreimage(fields) == Encode(Map(Replace(fields, SIGNATURE_REPLACEMENTS)))
  {
    ReplacedFinite(fields, HASH_REPLACEMENTS);
    ReplacedFinite(fields, SIGNATURE_REPLACEMENTS);
    EncodersAgree(Map(Replace(fields, HASH_REPLACEMENTS)));
    EncodersAgree(Map(Replace(fields, SIGNATURE_REPLACEMENTS)));
    hide Encode, GoEncode, AllFinite;
  }

  lemma ReplacedFinite(fields: seq<Pair>, values: Replacements)
    requires AllFinite(Map(fields)) && (values == HASH_REPLACEMENTS || values == SIGNATURE_REPLACEMENTS)
    ensures AllFinite(Map(Replace(fields, values)))
  {
  }

  // ---- the two verifiers ----

  lemma ShapedPreimages(fields: seq<Pair>)
    requires AllFinite(Map(fields)) && AllShaped(fields)
    ensures GoHashPreimage(fields) == HashPreimage(fields) && GoSigningPreimage(fields) == SigningPreimage(fields)
  {
    ReplacingIsZeroing(fields);
    GoPreimages(fields);
    hide Encode, GoEncode, AllFinite, ZeroFields, Replace, AllShaped, Ascii;
  }

  /** Equal preimages, equal verdicts. */
  lemma ShapedAgrees(c: Crypto, fields: seq<Pair>, key: Bytes)
    requires AllFinite(Map(fields)) && AllShaped(fields)
    ensures GoVerifyFields(c, fields, key).Passed? <==> VerifyFields(c, fields, key).Passed?
    ensures VerifyFields(c, fields, key).Passed? ==> GoVerifyFields(c, fields, key) == VerifyFields(c, fields, key)
  {
    hide TakeBytes, TakeKid, RootOf, GoHashPreimage, GoSigningPreimage, HashPreimage, SigningPreimage, Ascii,
         AllFinite, AllShaped;
    ShapedPreimages(fields);
  }

  /**
   On every byte string whose map holds each key once, the Go and Rust verifiers accept alike and report
   the same facts.
   */
  lemma VerifiersAgree(c: Crypto, bs: Bytes, key: Bytes)
    requires DistinctKeys(FieldsOf(bs))
    ensures GoVerifyReceipt(c, bs, key).Passed? <==> VerifyReceipt(c, bs, key).Passed?
    ensures VerifyReceipt(c, bs, key).Passed? ==> GoVerifyReceipt(c, bs, key) == VerifyReceipt(c, bs, key)
  {
    GatesAgree(bs);
    hide Decode, Encode, GoEncode, NoDuplicates, IsEncodingOf;
    if RustGate(bs).Accepted? && RustGate(bs).value.Map? {
      FieldVerifiersAgree(c, FieldsOf(bs), key);
    }
    hide VerifyFields, GoVerifyFields, AllFinite;
  }

  lemma FieldVerifiersAgree(c: Crypto, fields: seq<Pair>, key: Bytes)
    requires AllFinite(Map(fields)) && DistinctKeys(fields)
    ensures GoVerifyFields(c, fields, key).Passed? <==> VerifyFields(c, fields, key).Passed?
    ensures VerifyFields(c, fields, key).Passed? ==> GoVerifyFields(c, fields, key) == VerifyFields(c, fields, key)
  {
    hide AllFinite, TakeBytes, TakeKid, RootOf, AllShaped, HashPreimage, SigningPreimage, GoHashPreimage,
         GoSigningPreimage, Ascii;
    if TakeBytes(fields, RECEIPT_HASH, HASH_LEN).Passed? && TakeBytes(fields, RECEIPT_SIGNATURE, SIGNATURE_LEN).Passed?
       && TakeKid(fields).Passed? {
      TakenIsShaped(fields);
      ShapedAgrees(c, fields, key);
    }
  }

  lemma ReplacedNormal(fields: seq<Pair>)
    requires Encodable(Map(fields)) && Normalise(Map(fields)) == Map(fields)
    ensures Encodable(Map(Replace(fields, HASH_REPLACEMENTS)))
    ensures Normalise(Map(Replace(fields, HASH_REPLACEMENTS))) == Map(Replace(fields, HASH_REPLACEMENTS))
  {
    var r := Replace(fields, HASH_REPLACEMENTS);
    NormaliseMap(fields);
    NormaliseMap(r);
    ReplacedPairs(fields);
    SortSameKeys(KeyLess, NormalPairs(fields), NormalPairs(r));
    SortedReplaced(NormalPairs(fields));
    hide Encode, Encodable, Normalise, Sort, Ascii;
  }

  lemma ReplacedPairs(fields: seq<Pair>)
    ensures NormalPairs(Replace(fields, HASH_REPLACEMENTS)) == Replace(NormalPairs(fields), HASH_REPLACEMENTS)
    ensures Encodable(Map(fields)) ==> Encodable(Map(Replace(fields, HASH_REPLACEMENTS)))
  {
  }

  lemma SortedReplaced(fields: seq<Pair>)
    ensures Sort(KeyLess, Replace(fields, HASH_REPLACEMENTS)) == Replace(Sort(KeyLess, fields), HASH_REPLACEMENTS)
  {
    SortSameKeys(KeyLess, fields, Replace(fields, HASH_REPLACEMENTS));
    hide KeyLess, Order, Ascii;
  }

  /**
   A byte string that either verifier accepts is accepted by both exactly when its envelope pairs,
   duplicates included, have the fixed shapes: only a duplicate of another type or length parts the two,
   through different hash preimages.
   */
  lemma AcceptedByBothIff(c: Crypto, bs: Bytes, key: Bytes)
    requires VerifyReceipt(c, bs, key).Passed? || GoVerifyReceipt(c, bs, key).Passed?
    requires NoCollision(c, HashPreimage(FieldsOf(bs)), GoHashPreimage(FieldsOf(bs)))
    ensures VerifyReceipt(c, bs, key).Passed? && GoVerifyReceipt(c, bs, key).Passed? <==> AllShaped(FieldsOf(bs))
  {
    hide *;
    var fields := FieldsOf(bs);
    GateFields(c, bs, key);
    PreimagesMeetIff(fields);
    FieldHashes(c, fields, key);
    if AllShaped(fields) {
      ShapedAgrees(c, fields, key);
    }
  }

  lemma GoAccepts(c: Crypto, bs: Bytes, key: Bytes)
    requires RustGate(bs).Accepted? && RustGate(bs).value.Map? && |key| == PUBLIC_KEY_LEN
    ensures GoVerifyReceipt(c, bs, key) == GoVerifyFields(c, FieldsOf(bs), key)
    ensures VerifyReceipt(c, bs, key) == VerifyFields(c, FieldsOf(bs), key)
  {
    GatesAgree(bs);
    hide Decode, Encode, GoEncode, VerifyFields, GoVerifyFields, NoDuplicates, RustGate, GoGate;
  }

  /** Both verifiers compare the stored hash with the hash of their preimage. */
  lemma FieldHashes(c: Crypto, fields: seq<Pair>, key: Bytes)
    requires NoCollision(c, HashPreimage(fields), GoHashPreimage(fields))
    ensures VerifyFields(c, fields, key).Passed? && GoVerifyFields(c, fields, key).Passed? ==>
              HashPreimage(fields) == GoHashPreimage(fields)
  {
  }

  /** On a decoded map the two hash preimages are the same octets exactly when the shapes hold. */
  lemma PreimagesMeetIff(fields: seq<Pair>)
    requires Encodable(Map(fields)) && Normalise(Map(fields)) == Map(fields) && AllFinite(Map(fields))
    ensures GoHashPreimage(fields) == HashPreimage(fields) <==> AllShaped(fields)
  {
    ReplacedNormal(fields);
    ZeroedNormal(fields, HASHED_NEUTRAL);
    GoPreimages(fields);
    ReplacingIsZeroing(fields);
    EncodeInjective(Map(Replace(fields, HASH_REPLACEMENTS)), Map(ZeroFields(fields, HASHED_NEUTRAL)));
    hide Encode, GoEncode, Normalise, Encodable, AllFinite, Ascii, AllShaped, Replace, ZeroFields;
  }

  /** Past the gates both verifiers judge one map. */
  lemma GateFields(c: Crypto, bs: Bytes, key: Bytes)
    requires VerifyReceipt(c, bs, key).Passed? || GoVerifyReceipt(c, bs, key).Passed?
    ensures RustGate(bs) == Accepted(Map(FieldsOf(bs))) && |key| == PUBLIC_KEY_LEN
    ensures VerifyReceipt(c, bs, key) == VerifyFields(c, FieldsOf(bs), key)
    ensures GoVerifyReceipt(c, bs, key) == GoVerifyFields(c, FieldsOf(bs), key)
    ensures var v := Map(FieldsOf(bs)); Encodable(v) && Normalise(v) == v && AllFinite(v)
  {
    GatesAgree(bs);
    hide Decode, Encode, Normalise, VerifyFields, GoVerifyFields, GoEncode, NoDuplicates;
    GoAccepts(c, bs, key);
    RustGateAcceptsEncodings(bs, RustGate(bs).value);
  }

  // ---- receipts that part the verifiers ----

  /** A receipt whose key id occurs twice, the second time as a number. */
  function TwoKids(hash: Digest, signature: Signature): seq<Pair> {
    [ (SIGNER_KID, Text([])), (SIGNER_KID, Uint(0)), (RECEIPT_HASH, ByteString(hash)),
      (RECEIPT_SIGNATURE, ByteString(signature)) ]
  }

  /** Hashed and signed over the preimages the Rust verifier forms. */
  function RustTwin(c: Crypto, sign: Bytes -> Signature): seq<Pair> {
    var hash := c.hash(HashPreimage(TwoKids(Zeros(HASH_LEN), Zeros(SIGNATURE_LEN))));
    TwoKids(hash, sign(SigningPreimage(TwoKids(hash, Zeros(SIGNATURE_LEN)))))
  }

  /** Hashed and signed over the preimages the Go verifier forms. */
  function GoTwin(c: Crypto, sign: Bytes -> Signature): seq<Pair> {
    var hash := c.hash(GoHashPreimage(TwoKids(Zeros(HASH_LEN), Zeros(SIGNATURE_LEN))));
    TwoKids(hash, sign(GoSigningPreimage(TwoKids(hash, Zeros(SIGNATURE_LEN)))))
  }

  lemma TwoKidsNormal(hash: Digest, signature: Signature)
    ensures var v := Map(TwoKids(hash, signature)); Encodable(v) && Normalise(v) == v
  {
    TwoKidsEncodable(hash, signature);
    KidsInOrder(hash, signature);
    hide KeyLess, Sort, Ascii, Encodable;
    var fields := TwoKids(hash, signature);
    assert NormalPairs(fields) == fields;
    NormaliseMap(fields);
  }

  lemma TwoKidsEncodable(hash: Digest, signature: Signature)
    ensures Encodable(Map(TwoKids(hash, signature)))
  {
    KidFields([], hash, signature);
    hide WellFormedText, Encodable, Ascii;
    EncodablePairs(TwoKids(hash, signature));
  }

  lemma KidFields(kid: Str, hash: Digest, signature: Signature)
    ensures kid == [] ==> forall i :: 0 <= i < 4 ==> EncodableField(TwoKids(hash, signature)[i])
  {
    hide WellFormedText, Encodable, Ascii, EncodableField;
    var fields := [TextField("signer_kid", kid), UintField("signer_kid", 0), BytesField("receipt_hash", hash),
                   BytesField("receipt_signature", signature)];
    assert forall i :: 0 <= i < 4 ==> EncodableField(fields[i]);
    assert kid == [] ==> fields == TwoKids(hash, signature);
  }

  lemma KidsInOrder(hash: Digest, signature: Signature)
    ensures Sort(KeyLess, TwoKids(hash, signature)) == TwoKids(hash, signature)
  {
    KeyOrder(SIGNER_KID, RECEIPT_HASH);
    KeyOrder(SIGNER_KID, RECEIPT_SIGNATURE);
    KeyOrder(RECEIPT_HASH, RECEIPT_SIGNATURE);
    KeyLessIsStrictOrder();
    hide KeyLess;
    SortSorted(KeyLess, TwoKids(hash, signature));
  }

  /** The preimages look neither at the hash nor, the signing ones, at the signature. */
  lemma TwinPreimages(hash: Digest, signature: Signature)
    ensures var fields, blank := TwoKids(hash, signature), TwoKids(Zeros(HASH_LEN), Zeros(SIGNATURE_LEN));
            && HashPreimage(fields) == HashPreimage(blank) && GoHashPreimage(fields) == GoHashPreimage(blank)
            && SigningPreimage(fields) == SigningPreimage(TwoKids(hash, Zeros(SIGNATURE_LEN)))
            && GoSigningPreimage(fields) == GoSigningPreimage(TwoKids(hash, Zeros(SIGNATURE_LEN)))
  {
    hide Encode, GoEncode, Ascii;
    EnvelopeNamesDiffer();
    var fields, blank := TwoKids(hash, signature), TwoKids(Zeros(HASH_LEN), Zeros(SIGNATURE_LEN));
    var unsigned := TwoKids(hash, Zeros(SIGNATURE_LEN));
    assert ZeroFields(fields, HASHED_NEUTRAL) == ZeroFields(blank, HASHED_NEUTRAL);
    assert Replace(fields, HASH_REPLACEMENTS) == Replace(blank, HASH_REPLACEMENTS);
    assert ZeroFields(fields, SIGNED_NEUTRAL) == ZeroFields(unsigned, SIGNED_NEUTRAL);
    assert Replace(fields, SIGNATURE_REPLACEMENTS) == Replace(unsigned, SIGNATURE_REPLACEMENTS);
  }

  lemma TwoKidsFields(hash: Digest, signature: Signature)
    ensures var fields := TwoKids(hash, signature);
            && TakeBytes(fields, RECEIPT_HASH, HASH_LEN) == Passed(hash)
            && TakeBytes(fields, RECEIPT_SIGNATURE, SIGNATURE_LEN) == Passed(signature)
            && TakeKid(fields).Passed? && !AllShaped(fields)
  {
    hide Ascii, Lookup, Shaped;
    EnvelopeNamesDiffer();
    var fields := TwoKids(hash, signature);
    LookupFirst(fields, SIGNER_KID, 0);
    LookupFirst(fields, RECEIPT_HASH, 2);
    LookupFirst(fields, RECEIPT_SIGNATURE, 3);
    assert !Shaped(fields[1]) by {
      KidIsNoNumber();
    }
  }

  lemma KidIsNoNumber()
    ensures !Shaped((SIGNER_KID, Uint(0)))
  {
  }

  lemma EncodedFields(bs: Bytes, fields: seq<Pair>)
    requires Encodable(Map(fields)) && Normalise(Map(fields)) == Map(fields) && Encode(Map(fields)) == bs
    ensures RustGate(bs) == Accepted(Map(fields)) && FieldsOf(bs) == fields
  {
    RustGateAcceptsEncodings(bs, Map(fields));
    hide RustGate, Encode, Normalise, Encodable;
  }

  /**
   The verifiers do part: of a receipt with a second key id that is a number, each accepts the one made
   over its own preimages and, unless the two hash preimages collide, not the other.
   */
  lemma VerifiersPart(c: Crypto, sign: Bytes -> Signature, key: Bytes)
    requires Signs(c, key, sign)
    requires var blank := TwoKids(Zeros(HASH_LEN), Zeros(SIGNATURE_LEN));
             NoCollision(c, HashPreimage(blank), GoHashPreimage(blank))
    ensures var rust, go := Encode(Map(RustTwin(c, sign))), Encode(Map(GoTwin(c, sign)));
            && VerifyReceipt(c, rust, key).Passed? && !GoVerifyReceipt(c, rust, key).Passed?
            && GoVerifyReceipt(c, go, key).Passed? && !VerifyReceipt(c, go, key).Passed?
  {
    TwinVerdicts(c, sign, key);
    hide TwoKids, Encode, VerifyReceipt, GoVerifyReceipt, HashPreimage, GoHashPreimage, FieldsOf, Signs;
    TwinParts(c, sign, key, RustTwin(c, sign));
    TwinParts(c, sign, key, GoTwin(c, sign));
  }

  lemma TwinVerdicts(c: Crypto, sign: Bytes -> Signature, key: Bytes)
    requires Signs(c, key, sign)
    ensures VerifyReceipt(c, Encode(Map(RustTwin(c, sign))), key).Passed?
    ensures GoVerifyReceipt(c, Encode(Map(GoTwin(c, sign))), key).Passed?
  {
    var rust, go := RustTwin(c, sign), GoTwin(c, sign);
    hide TwoKids, Encode, HashPreimage, GoHashPreimage, SigningPreimage, GoSigningPreimage, TakeBytes, TakeKid, RootOf;
    hide VerifyReceipt, GoVerifyReceipt, FieldsOf, AllShaped, Encodable, Normalise, Ascii, RustGate;
    var blank := TwoKids(Zeros(HASH_LEN), Zeros(SIGNATURE_LEN));
    var hash, goHash := c.hash(HashPreimage(blank)), c.hash(GoHashPreimage(blank));
    var signature := sign(SigningPreimage(TwoKids(hash, Zeros(SIGNATURE_LEN))));
    var goSignature := sign(GoSigningPreimage(TwoKids(goHash, Zeros(SIGNATURE_LEN))));
    TwinPreimages(hash, signature);
    TwinPreimages(goHash, goSignature);
    TwoKidsFields(hash, signature);
    TwoKidsFields(goHash, goSignature);
    TwoKidsNormal(hash, signature);
    TwoKidsNormal(goHash, goSignature);
    EncodedFields(Encode(Map(rust)), rust);
    EncodedFields(Encode(Map(go)), go);
    GoAccepts(c, Encode(Map(rust)), key);
    GoAccepts(c, Encode(Map(go)), key);
  }

  /** No receipt with two such key ids is accepted by both. */
  lemma TwinParts(c: Crypto, sign: Bytes -> Signature, key: Bytes, fields: seq<Pair>)
    requires fields == RustTwin(c, sign) || fields == GoTwin(c, sign)
    requires var blank := TwoKids(Zeros(HASH_LEN), Zeros(SIGNATURE_LEN));
             NoCollision(c, HashPreimage(blank), GoHashPreimage(blank))
    ensures var bs := Encode(Map(fields)); !(VerifyReceipt(c, bs, key).Passed? && GoVerifyReceipt(c, bs, key).Passed?)
  {
    hide TwoKids, Encode, HashPreimage, GoHashPreimage, SigningPreimage, GoSigningPreimage, VerifyReceipt,
         GoVerifyReceipt;
    hide FieldsOf, AllShaped, Encodable, Normalise, Ascii, RustGate, NoCollision;
    var hash: Digest, signature: Signature :| fields == TwoKids(hash, signature);
    TwinPreimages(hash, signature);
    TwoKidsFields(hash, signature);
    TwoKidsNormal(hash, signature);
    EncodedFields(Encode(Map(fields)), fields);
    if VerifyReceipt(c, Encode(Map(fields)), key).Passed? {
      AcceptedByBothIff(c, Encode(Map(fields)), key);
    }
  }

  // ---- chains ----

  function GoCheckLink(kind: ChainKind, prior: ReceiptFacts, bs: Bytes, index: nat): Verdict<()> {
    var value := Decode(Go, bs);
    var target := LinkTarget(kind, prior);
    if value.None? || !value.value.Map? then Failed(DecodeError)
    else if target.None? then Failed(MissingField(SNAPSHOT_ROOT))
    else
      var actual: Option<CborValue> := Lookup(value.value.pairs, LinkField(kind));
      match actual
      case Some(ByteString(b)) => if b == target.value then Passed(()) else Failed(ChainBroken(index))
      case _ => Failed(ChainBroken(index))
  }

  function GoHistoryFrom(c: Crypto, links: seq<Bytes>, key: Bytes, kind: ChainKind, index: nat,
                         previous: Option<ReceiptFacts>)
    : Verdict<()>
    requires index <= |links|
    decreases |links| - index
  {
    if index == |links| then Passed(())
    else
      match GoVerifyReceipt(c, links[index], key)
      case Failed(error) => Failed(error)
      case Panicked => Panicked
      case Passed(facts) =>
        var linked := if previous.None? then Passed(()) else GoCheckLink(kind, previous.value, links[index], index);
        if linked.Passed? then GoHistoryFrom(c, links, key, kind, index + 1, Some(facts)) else linked
  }

  /** `VerifyHistory` of the Go SDK, on its two chain kinds. */
  method GoCheckHistory(c: Crypto, links: seq<Bytes>, key: Bytes, kind: ChainKind) returns (r: Verdict<()>)
    ensures r == GoHistoryFrom(c, links, key, kind, 0, None)
  {
    hide GoVerifyReceipt, GoCheckLink;
    var previous := None;
    for index := 0 to |links|
      invariant GoHistoryFrom(c, links, key, kind, 0, None) == GoHistoryFrom(c, links, key, kind, index, previous)
    {
      var facts := GoVerifyReceipt(c, links[index], key);
      if facts.Failed? {
        return Failed(facts.error);
      }
      if facts.Panicked? {
        return Panicked;
      }
      if previous.Some? {
        var linked := GoCheckLink(kind, previous.value, links[index], index);
        if !linked.Passed? {
          return linked;
        }
      }
      previous := Some(facts.value);
    }
    r := Passed(());
  }

  lemma LinkChecksAgree(c: Crypto, kind: ChainKind, prior: Bytes, next: Bytes, key: Bytes, index: nat)
    requires VerifyReceipt(c, prior, key).Passed? && VerifyReceipt(c, next, key).Passed?
    ensures var facts := VerifyReceipt(c, prior, key).value;
            GoCheckLink(kind, facts, next, index) == CheckAgainst(kind, facts, next, index)
  {
    TargetLength(c, kind, prior, key);
    VerifiedDecodes(c, next, key);
    GateFields(c, next, key);
    GatesAgree(next);
    GoDecodes(next);
    hide VerifyReceipt, Decode, Lookup, RustGate, FieldsOf, Ascii, Encodable, Normalise, AllFinite, VerifyFields;
  }

  lemma GoDecodes(bs: Bytes)
    ensures GoGate(bs).Accepted? ==> Decode(Go, bs) == Some(GoGate(bs).value)
  {
  }

  lemma {:induction false} HistoriesFromAgree(c: Crypto, links: seq<Bytes>, key: Bytes, kind: ChainKind, index: nat,
                                              previous: Option<ReceiptFacts>)
    requires PlainChain(links) && index <= |links|
    requires if index == 0 then previous.None?
             else
               var prior := VerifyReceipt(c, links[index - 1], key);
               prior.Passed? && previous == Some(prior.value)
    ensures GoHistoryFrom(c, links, key, kind, index, previous).Passed? <==>
            HistoryFrom(c, links, key, kind, index, previous).Passed?
    ensures (forall i :: index <= i < |links| ==> VerifyReceipt(c, links[i], key).Passed?) ==>
              GoHistoryFrom(c, links, key, kind, index, previous) == HistoryFrom(c, links, key, kind, index, previous)
    decreases |links| - index
  {
    hide VerifyReceipt, GoVerifyReceipt, CheckAgainst, GoCheckLink, FieldsOf, DistinctKeys;
    if index < |links| {
      VerifiersAgree(c, links[index], key);
      if VerifyReceipt(c, links[index], key).Passed? {
        if index > 0 {
          LinkChecksAgree(c, kind, links[index - 1], links[index], key, index);
        }
        HistoriesFromAgree(c, links, key, kind, index + 1, Some(VerifyReceipt(c, links[index], key).value));
      }
    }
  }

  /**
   Chains of duplicate-free receipts are accepted by both verifiers or by neither, and if every receipt verifies
   both name the same broken link.
   */
  lemma HistoriesAgree(c: Crypto, links: seq<Bytes>, key: Bytes, kind: ChainKind)
    requires PlainChain(links)
    ensures GoHistoryFrom(c, links, key, kind, 0, None).Passed? <==> VerifyHistory(c, links, key, kind).Passed?
    ensures (forall i :: 0 <= i < |links| ==> VerifyReceipt(c, links[i], key).Passed?) ==>
              GoHistoryFrom(c, links, key, kind, 0, None) == VerifyHistory(c, links, key, kind)
  {
    HistoriesFromAgree(c, links, key, kind, 0, None);
    hide GoHistoryFrom, HistoryFrom;
  }
}
