# Verification of the RCX registry

A model of the registry's canonical encodings, of the receipt verifiers built on them, and of the loops and
stores that produce receipts, with proofs of the properties a third party relies on. `dafny verify
dfyconfig.toml` checks the whole project.

## What is modelled

- **Canonical CBOR.** `Floats` holds binary16, binary32 and binary64 as bit patterns, with magnitudes as whole
  multiples of 2^-1074, and both the Rust and the Go conversions. `Cbor` holds the value model, the encoder and one
  reader with the points where the Rust, Go and Python decoders differ; `RustReader` adds to the Rust decoder the
  readings that end the program; `Canonical` is the Rust encoder and decoder in their imperative form, proved to
  compute those functions. The formats are those of sections 3 and 4.2 of
  RFC 8949.
- **Gates and receipts.** `Gates` characterises what decode-and-re-encode accepts. `Receipts` has the seven receipt
  types and their typed check, `Verify` and `Chains` the Rust verifier of octets and of chains, `GoVerify` the Go
  one, `PythonVerify` and `StrictChains` the Python ones; `Refusals` says which error each answers with. `Minted`,
  `ReceiptOctets` and `PayloadOctets` say what follows for everything minted, `ReceiptFields`, `Published` and
  `Declared` what the octets of receipts and payloads say, name by name.
- **Canonical JSON and digests.** `Decimals` and `CanonicalJson` have number text, escaping, the canonical form and a
  reader of it, `JsonFormat` its grammar in literals; `Embedding` the way of a JSON graph through CBOR;
  `SnapshotDigest` the set digest and the per-server hash; `SkillsLock` the lockfile receipt.
- **Run-level behaviour.** `Mirror` and `Sync` are the sync tick over its two tables, `Enrichment` the refresh loop,
  `Declarations` the handler that writes the enrichment table beside it,
  `Pop` the nonce and OAuth-state stores, `RateLimit` the fixed-window limiter, `Pagination` the listing and the
  fetch loop. Classes carry the tables; each method is tied to a function of the old state, and the theorems about
  whole runs are about those functions.

BLAKE3 and Ed25519 are functions given from outside. The only assumption about signatures is that a signature made
with a key's private half verifies under the key; about hashing, where needed, that two named preimages do not
collide. Shortest decimal digits of a float come from a given algorithm whose output reads back. Clocks, entropy,
signer availability and store failures are inputs.

## Where code and description part

- Verifying octets can panic. A half float is decoded without the finiteness check made on the wider widths
  (canonical.rs:255-258), although the format admits finite floats only, and re-encoding such a value panics. A string
  head whose end lies at 2^64 or beyond overflows the position (canonical.rs:139), and an array or map head announcing
  more than can be reserved overflows the capacity (canonical.rs:183 and 190). The model keeps all three;
  `Gates.GatePanics` states exactly when they happen, `Gates.ShortInputsPanic` has inputs of nine and three octets.
- The schema lets no mirrored server be deleted that an enrichment refers to (migrations/0003_rcx_enrichment.sql:2), so
  the eviction of an enriched name fails the tick, and every later one until upstream lists the name again.
  `Sync.TickCompletesIff` says exactly when a tick completes, `Sync.BlockedNameStopsPublishing` what it costs.
- Publishers may also submit declarations, and those are stored with a receipt that is hashed and never signed; the
  loop's next receipt then refers to it. `Declarations.IssuedChainIff` has the exact condition under which the issued
  receipts still are a chain.
- On duplicate keys under an envelope name, Rust zeroes by the type found and Go replaces by a fixed value, so the
  two verifiers can disagree, either way round: `GoVerify.VerifiersPart` has the receipts,
  `GoVerify.AcceptedByBothIff` the exact condition.
- The Python reimplementation has no shape for skill snapshots and refuses an all-zero signature;
  `PythonVerify.PythonAcceptsIff` says that this is all that parts it from the Rust verifier past the gate.
- The limiter does not limit at its largest budget. Below it the least bound is `2 * max - 1` requests in one window
  length, or `max` when a window is one tick long; `RateLimit.LimitsIff` states all of it.
- The sweeps of the ticket stores and of the limiter show when a clock is set back; `Pop.SweepingShowsIff` and
  `RateLimit.IsolatedIff` say exactly when.
- Cursor tokens join name and version with a separator both may contain. `Pagination.SharedTokenRepeats` is a store
  whose pages repeat a record, `Pagination.PagesExactly` the exact condition under which they do not.

## Model

| member | source | states |
|---|---|---|
| `StableSort.SortIndices` | crates/rcx-registry-crown/src/canonical.rs:54-72 | sorting the entry positions returns the one index list that is in stable ascending key order |
| `StableSort.StableOrderUnique` | crates/rcx-registry-crown/src/canonical.rs:54-72 | any index list meeting the description of a stable ascending sort is the one computed |
| `StableSort.SortKeepsDuplicates` | crates/rcx-registry-crown/src/canonical.rs:54-72 | rows with equal keys come out in input order |
| `CborLaws.KeyOrder` | crates/rcx-registry-crown/src/canonical.rs:54-97 | ordering by encoded key is exactly shorter first, then bytewise, across all five head widths |
| `CborLaws.EncodePermutation` | crates/rcx-registry-crown/src/canonical.rs:54-72 | with distinct keys every permutation of a map's pairs has the same encoding |
| `Floats.RoundTripsIffRepresentable` | crates/rcx-registry-crown/src/canonical.rs:99-118 | narrowing and widening gives a value back exactly when the width represents it, sign of zero and subnormals included |
| `Floats.NearestIsNearest` | crates/rcx-registry-crown/src/canonical.rs:99-118 | narrowing takes a pattern no other is nearer than, infinity counting as the next one, and of two as near the even one |
| `Floats.GoHalfTest` | sdks/go/canonical.go:326-373 | the Go shift-and-truncate conversion with its check succeeds exactly on binary16 values, and then yields the rounded pattern |
| `Floats.GoToFloat64Exact` | sdks/go/canonical.go:375-396 | the Go widening of a half float is exact, and refuses exactly infinities and NaNs |
| `Floats.GoWriteFloatAgrees` | sdks/go/canonical.go:326-350 | both encoders choose the same width and octets for every finite binary64 |
| `CborLaws.ReadFloatBack` | crates/rcx-registry-crown/src/canonical.rs:253-301 | every decoder reads a written float back to the identical bits and leaves what follows |
| `CborLaws.ReadEncode` | crates/rcx-registry-crown/src/canonical.rs:153-251 | for every value and trailing octets, each decoder consumes exactly the encoding and returns the value with every map stably key-sorted |
| `CborLaws.PrefixFree` | crates/rcx-registry-crown/src/canonical.rs:36-78 | no encoding is a proper prefix of another |
| `CborLaws.EncodeInjective` | crates/rcx-registry-crown/src/canonical.rs:28-78 | equal encodings if and only if equal normal forms |
| `CborLaws.EncodeNormalise` | crates/rcx-registry-crown/src/canonical.rs:36-78 | sorting every map first does not change the encoding |
| `WireFormat.DecodesIffAdmitted` | crates/rcx-registry-crown/src/canonical.rs:120-301 | each of the four decoders answers a value exactly on the octets a grammar in literals has for it: first octet ranges, lengths, float widths, key order, and where the decoders differ |
| `WireFormat.EncodingAdmitted` | crates/rcx-registry-crown/src/canonical.rs:28-118 | every encoding is written in that grammar, for the normal form of the value, as each decoder reads it |
| `WireFormat.EncodedHead` | crates/rcx-registry-crown/src/canonical.rs:5-118 | the first octet of every encoding by kind (integers 0x00-0x1B, octets 0x40-0x5B, text 0x60-0x7B, arrays 0x80-0x9B, maps 0xA0-0xBB, floats 0xF9-0xFB), with the number or length in its low bits or the octets after it, no more of them than needed |
| `WireFormat.NormalOrder` | crates/rcx-registry-crown/src/canonical.rs:54-72 | map entries come shorter keys first, keys of one length by octets, repeated keys as listed |
| `WireFormat.ArgumentRead` | sdks/go/canonical.go:515-542 | every decoder takes a head for the number it states, and only Go takes one longer than the number needs |
| `Utf8.ValidIffWritten` | crates/rcx-registry-crown/src/canonical.rs:176-180 | text is accepted exactly if it is the UTF-8 octets of Unicode scalar values one after the other |
| `Canonical.Buffer.WriteValue` | crates/rcx-registry-crown/src/canonical.rs:36-78 | pushes exactly the encoding onto the output vector |
| `Canonical.Buffer.WriteHead` | crates/rcx-registry-crown/src/canonical.rs:80-97 | pushes the shortest head |
| `Canonical.Buffer.PushFloat` | crates/rcx-registry-crown/src/canonical.rs:99-118 | pushes the shortest float form by trying half, then single, then double |
| `Canonical.Buffer.WriteEntries` | crates/rcx-registry-crown/src/canonical.rs:54-72 | pushes the entries in sorted key order through an index permutation |
| `Canonical.EncodeValue` | crates/rcx-registry-crown/src/canonical.rs:28-34 | the imperative encoder computes the encoding function; `WireFormat` says in literals which octets that are |
| `Canonical.Cursor.ReadNext` | crates/rcx-registry-crown/src/canonical.rs:153-174 | the cursor reads what the reading function reads and stops where it stops, refuses what it refuses and panics where it halts |
| `Canonical.Cursor.ReadContents` | crates/rcx-registry-crown/src/canonical.rs:172-209 | past a head, strings are taken, and arrays and maps read after reserving room for the announced count, or the reading panics |
| `Canonical.Cursor.TakeOctets` | crates/rcx-registry-crown/src/canonical.rs:138-146 | takes the octets and moves past them, or refuses for want of octets, or panics because the end is beyond any 64-bit offset |
| `Canonical.Cursor.ReadArgument` | crates/rcx-registry-crown/src/canonical.rs:211-251 | refuses arguments that fit a shorter head |
| `Canonical.Cursor.ReadFloatValue` | crates/rcx-registry-crown/src/canonical.rs:253-301 | refuses floats that fit a shorter width, and non-finite ones except half floats |
| `Canonical.DecodeBytes` | crates/rcx-registry-crown/src/canonical.rs:120-135 | on every slice the imperative decoder computes the decoding function, trailing octets refused, or panics exactly at a fatal head |
| `RustReader.RunAgrees` | crates/rcx-registry-crown/src/canonical.rs:153-209 | a reading that does not panic is the plain reading, and readable octets panic only for want of room for their own arrays or maps |
| `RustReader.RunLocal` | crates/rcx-registry-crown/src/canonical.rs:153-209 | what a reading yields depends on the octets it consumes alone, not on the offset nor on what follows |
| `RustReader.HaltsIff` | crates/rcx-registry-crown/src/canonical.rs:138-204 | a reading panics if and only if the octets are a row of arrays and maps still open, everything in them readable, followed by a fatal head |
| `Gates.EncodersAgree` | sdks/go/canonical.go:231-324 | the Go and the Python encoder write the octets of the Rust encoder for every finite value |
| `Gates.RustGateAcceptsEncodings` | crates/rcx-verify/src/lib.rs:122-139 | strict decoding plus re-encoding accepts exactly the encodings, as their normal forms |
| `Gates.GoGateAcceptsEncodings` | sdks/go/verify.go:94-115 | lenient decoding plus re-encoding accepts exactly the encodings |
| `Gates.StrictPassAcceptsEncodings` | spec/v1/reimpl/reimpl.py:221-342 | the one-pass strict decoder accepts exactly the encodings of duplicate-free values |
| `Gates.GatesAgree` | crates/rcx-verify/src/lib.rs:130-139 | on every byte string the Rust and Go gates accept alike with the same value, acceptance means being somebody's encoding, and the one-pass decoder differs exactly on duplicate keys |
| `Gates.GatePanics` | crates/rcx-registry-crown/src/canonical.rs:138-264 | the Rust gate panics if and only if reading stops at a fatal head or the finiteness check missing on half floats lets a value through |
| `Gates.RoomOnlyPanics` | crates/rcx-registry-crown/src/canonical.rs:182-191 | less room for arrays and maps turns verdicts into panics and changes no other, and none on an encoding no longer than the room |
| `Gates.ShortInputsPanic` | crates/rcx-registry-crown/src/canonical.rs:138-145 | nine octets announcing 2^64 - 1 octets of a string panic everywhere, as many array items where they cannot be reserved, three octets of an infinite half float when re-encoded |
| `Gates.HalfFloatsAreTheOnlyGap` | crates/rcx-registry-crown/src/canonical.rs:253-301 | the half-float branch is the only one through which a non-finite value can be decoded |
| `Refusals.RustGateRefusals` | crates/rcx-verify/src/lib.rs:122-139 | short of a fatal head the gate calls octets undecodable exactly if the grammar has no value for them, and not canonical exactly if it has a finite one with another encoding |
| `Refusals.GoGateRefusals` | sdks/go/verify.go:94-115 | the Go gate likewise, with a value that holds an infinity or a NaN counted as undecodable |
| `Refusals.HeadPanics` | crates/rcx-registry-crown/src/canonical.rs:138-204 | a string head panics exactly if what it announces is not there and ends at 2^64 or beyond, an array or map head if it announces more than can be reserved |
| `Receipts.TypedZeroingForHash` | crates/rcx-registry-crown/src/receipt.rs:11-30 | for all seven types, zeroing three fields of the map is what the constructor does when asked to zero |
| `Receipts.TypedZeroingForSignature` | crates/rcx-registry-crown/src/receipt.rs:32-71 | overwriting the signature field is zeroing it, for all seven types |
| `Receipts.ReceiptEncodable` | crates/rcx-registry-crown/src/skill_receipt.rs:65-112 | every receipt of every type is a value the encoder can write |
| `ReceiptFields.ReceiptSays` | crates/rcx-registry-crown/src/receipt.rs:93-515 | what the octets of a receipt decode to: for each of the seven types, under every name of its format, the value the receipt holds, in the size the format gives it, and nothing else |
| `ReceiptFields.PreimagesBlanked` | crates/rcx-verify/src/lib.rs:153-180 | the hash is taken over the encoding with 32 and 64 zero octets and null for hash, signature and key id, the signature over the one with 64 zero octets for itself alone |
| `ReceiptFields.MintedOver` | crates/rcx-registry-crown/src/receipt.rs:11-71 | what is minted carries the hash and the signature of exactly those octets |
| `Verify.ZeroingCommutes` | crates/rcx-verify/src/lib.rs:367-388 | zeroing fields of the decoded, re-sorted map encodes to the octets of zeroing the original |
| `Verify.VerifyEncoded` | crates/rcx-verify/src/lib.rs:122-199 | verifying octets comes down to the checks on the map they encode |
| `Verify.VerifierPanicsIff` | crates/rcx-verify/src/lib.rs:122-139 | on octets of any origin the verifier panics if and only if the key has its length and the octets make the gate panic; otherwise its verdict does not depend on the room |
| `Refusals.FieldVerdict` | crates/rcx-verify/src/lib.rs:141-199 | which error the field checks answer with: the first of receipt_hash, receipt_signature, signer_kid that is missing or of another kind, then hash, key, signature; on acceptance the facts are the stored ones |
| `Refusals.ReceiptVerdict` | crates/rcx-verify/src/lib.rs:122-139 | what both verifiers say before they look at any field: a key that has not 32 octets, octets that do not decode, octets that are not canonical |
| `Verify.TypedAndMapLevelAgree` | crates/rcx-registry-crown/src/receipt.rs:32-71 | the typed signature check and the map-level verifier agree on every receipt of every type |
| `Verify.MintedVerifies` | crates/rcx-verify/src/lib.rs:122-199 | everything hashed, signed and filled in by the producer is accepted with the facts it was minted with |
| `ReceiptOctets.OctetsDetermineReceipt` | crates/rcx-registry-crown/src/receipt.rs:93-515 | equal octets mean the same receipt type and the same value in every field |
| `Chains.CheckHistory` | crates/rcx-verify/src/lib.rs:284-323 | the loop computes the chain verdict function |
| `Chains.HistoryIff` | crates/rcx-verify/src/lib.rs:284-323 | a chain is accepted exactly when every link verifies and refers back to the one before, by root or by hash |
| `Refusals.HistoryStopsAt` | crates/rcx-verify/src/lib.rs:284-323 | the first link that fails decides: its own error if it does not verify, a missing root of the link before, or a broken chain at its index |
| `Chains.HashBindsContent` | crates/rcx-verify/src/lib.rs:141-180 | equal receipt hashes force agreement on every field but signature and key id, given no collision on the two preimages |
| `Chains.PreimageBindsContent` | crates/rcx-verify/src/lib.rs:166-180 | equal signing preimages leave only the signature open |
| `Chains.PreimagesAreSeparate` | crates/rcx-verify/src/lib.rs:153-180 | no receipt's hash preimage is any receipt's signing preimage |
| `Chains.TipDeterminesEnrichments` | crates/rcx-verify/src/lib.rs:294-316 | two accepted enrichment chains of one length ending alike agree at every link on all fields but signature and key id |
| `Chains.TipDoesNotDetermineSnapshots` | crates/rcx-verify/src/lib.rs:294-316 | for snapshot chains this fails: two different accepted chains end in the same octets |
| `Chains.TypedChainAccepted` | crates/rcx-verify/src/lib.rs:284-323 | validly signed receipts that refer back one by one encode to an accepted chain |
| `GoVerify.ReplacingIsZeroing` | sdks/go/canonical.go:217-228 | Go's replacement and Rust's zeroing give the same map exactly when every envelope pair, duplicates included, has its fixed shape |
| `GoVerify.VerifiersAgree` | sdks/go/verify.go:94-174 | on every byte string whose map holds each key once the Go and Rust verifiers accept alike and report the same facts |
| `Refusals.GoFieldVerdict` | sdks/go/verify.go:117-174 | which error the Go field checks answer with; a key that cannot be read counts as a bad signature |
| `GoVerify.AcceptedByBothIff` | sdks/go/verify.go:138-163 | what either verifier accepts both accept if and only if the envelope pairs have their shapes, given no collision on the two preimages |
| `GoVerify.VerifiersPart` | sdks/go/verify.go:138-163 | two receipts with a second key id, one accepted by Rust only and one by Go only |
| `GoVerify.GoCheckHistory` | sdks/go/verify.go:309-357 | the Go loop computes the Go chain verdict |
| `GoVerify.HistoriesAgree` | sdks/go/verify.go:309-357 | chains of duplicate-free receipts are accepted by both verifiers or by neither, and if every receipt verifies both name the same broken link |
| `Minted.ReceiptDecodesPlain` | crates/rcx-registry-crown/src/receipt.rs:93-515 | a receipt of any type decodes to a map without duplicate keys |
| `Minted.MintedAcceptedEverywhere` | sdks/go/verify.go:94-174 | everything minted is accepted by the Rust and the Go verifier with its facts, and by the one-pass strict decoder |
| `Minted.IssuedChainsFixedByTip` | crates/rcx-registry-server/src/loops/enrich.rs:155-204 | two runs of the enrichment loop alone that issue equally many receipts for a server and end alike agree at every link |
| `PythonVerify.TypedValidates` | spec/v1/reimpl/reimpl.py:793-871 | every receipt of six types is validated under its own type, and no skill snapshot is |
| `PythonVerify.ValidatedIffTyped` | spec/v1/reimpl/reimpl.py:793-871 | octets past the gate are validated under a type if and only if some receipt of that type has them |
| `PythonVerify.PythonAcceptsIff` | spec/v1/reimpl/reimpl.py:895-933 | past the gate the reimplementation accepts what Rust accepts, except unknown shapes and an all-zero signature |
| `StrictChains.CheckSnapshotChain` | spec/v1/reimpl/reimpl.py:948-974 | fails exactly if some receipt is no valid snapshot, and else gives every link its verdict, whose meaning is `SnapshotVerdict` |
| `StrictChains.CheckEnrichmentChain` | spec/v1/reimpl/reimpl.py:977-991 | fails exactly if some receipt is no valid enrichment, and else gives every link its verdict, whose meaning is `EnrichmentVerdict` |
| `StrictChains.SnapshotVerdict` | spec/v1/reimpl/reimpl.py:948-974 | a verdict on a chain of valid snapshots is yes exactly if the first names no predecessor and a later one names the root of the link before and was scraped no earlier |
| `StrictChains.SnapshotCheckIff` | spec/v1/reimpl/reimpl.py:948-974 | on verified snapshots every verdict is yes if and only if the history verifier accepts, the first back reference is null and the times of scraping never run backwards |
| `StrictChains.EnrichmentVerdict` | spec/v1/reimpl/reimpl.py:977-991 | a verdict on a chain of valid enrichments is yes exactly if the first supersedes nothing and a later one the receipt hash of the link before |
| `StrictChains.EnrichmentCheckIff` | spec/v1/reimpl/reimpl.py:977-991 | on verified enrichments every verdict is yes if and only if the history verifier accepts and the first link supersedes nothing |
| `StrictChains.SnapshotRunsPass` | spec/v1/reimpl/reimpl.py:948-974 | after any run of ticks the published chain is valid and passes the stricter check at every link |
| `StrictChains.EnrichmentRunsPass` | spec/v1/reimpl/reimpl.py:977-991 | after any run of refreshes, with no other writer, the receipts issued for a server are valid and pass the stricter check at every link |
| `Decimals.LayoutDenotes` | spec/v1/reimpl/reimpl.py:444-491 | float text denotes exactly digits * 10^k in every positional and scientific layout |
| `Decimals.FloatTextReads` | spec/v1/reimpl/reimpl.py:444-491 | float text reads back to the very bits, signed zeros included |
| `JsonFormat.ExponentIff` | spec/v1/reimpl/reimpl.py:473-491 | a float is written with an exponent exactly from 10^16 up and below 10^-5 |
| `CanonicalJson.ReadEscaped` | spec/v1/reimpl/reimpl.py:415-441 | unescaping an escaped string gives every octet back and stops at its closing quote; which escapes they are is `TextIffSpelled` |
| `JsonFormat.EscapedShortest` | spec/v1/reimpl/reimpl.py:415-441 | no text that unescapes to a string is shorter than its canonical escape |
| `CanonicalJson.ReadText` | crates/rcx-registry-crown/src/hashing.rs:108-138 | a reader recovers every value, sorted by key, from its canonical text, whatever follows |
| `CanonicalJson.TextDetermines` | crates/rcx-registry-crown/src/hashing.rs:108-138 | equal canonical texts if and only if the values differ in member order at most |
| `CanonicalJson.MemberOrderIgnored` | crates/rcx-registry-crown/src/hashing.rs:120-136 | the insertion order of members leaves no trace |
| `CanonicalJson.TextIsPlain` | crates/rcx-registry-crown/src/hashing.rs:108-138 | canonical text holds no control octet and no 0xff |
| `JsonFormat.TextIffSpelled` | crates/rcx-registry-crown/src/hashing.rs:108-138 | a text is the canonical one of a value if and only if it meets a grammar in literals: which octets stay, which seven take two characters and which six, digits without superfluous zeros, where the point falls, members by key, no spaces |
| `Embedding.RefusedIffNegative` | crates/rcx-registry-enrich/src/lib.rs:522-556 | exactly the values holding a negative integer somewhere cannot be embedded |
| `Embedding.EmbeddingKeepsMeaning` | crates/rcx-registry-crown/src/canonical.rs:308-332 | JSON to CBOR to octets to CBOR to JSON keeps the canonical text |
| `Embedding.RenderedKinds` | crates/rcx-registry-crown/src/canonical.rs:308-332 | octets are rendered as lower-case hexadecimal, members ascend by key, and a repeated key takes the value of its last pair |
| `Enrichment.GraphSurvives` | crates/rcx-registry-enrich/src/lib.rs:94-149 | the capability graph read back from enrichment bytes has its declared canonical text |
| `Declared.PayloadSays` | crates/rcx-registry-enrich/src/lib.rs:94-149 | what enrichment bytes decode to: ten names, each with the declared value, the publisher's rights always verified, the hash as "blake3:" and its digits |
| `PayloadOctets.BytesDeterminePayload` | crates/rcx-registry-enrich/src/lib.rs:94-149 | equal enrichment bytes come from payloads equal in every field, the graphs in canonical text |
| `SnapshotDigest.SnapshotMerkleRoot` | crates/rcx-registry-crown/src/hashing.rs:150-168 | sorting a copy and feeding the hasher field by field digests the set preimage, which `SetPreimageLaidOut` lays out |
| `SnapshotDigest.SetPreimageLaidOut` | crates/rcx-registry-crown/src/hashing.rs:150-168 | the set digest is taken over name, 0x00, version, 0x00, document, 0xff of every entry, by name, then by version, then as given |
| `SnapshotDigest.ServerPreimageLaidOut` | crates/rcx-registry-crown/src/hashing.rs:170-184 | the per-server hash is taken over name, 0x00, version, 0x00, document |
| `SnapshotDigest.SetPreimageDetermines` | spec/v1/reimpl/reimpl.py:642-676 | two lists with distinct (name, version) keys have one preimage exactly when they are permutations of each other |
| `SnapshotDigest.SetAndServerPreimagesDiffer` | crates/rcx-registry-crown/src/hashing.rs:150-184 | no set preimage is a per-server preimage |
| `SnapshotDigest.CanonicalEntryFramable` | crates/rcx-registry-crown/src/hashing.rs:108-168 | canonical JSON meets what the framing asks of an entry's document |
| `SkillsLock.OpenReceipt.Sign` | crates/rcx-registry-skills/src/sign.rs:126-137 | signs in place; a failing signer leaves the recomputed hash and the old signature |
| `SkillsLock.SigningRepairs` | crates/rcx-registry-skills/src/sign.rs:115-137 | signing makes any receipt verify, whatever hash and signature it held |
| `SkillsLock.PrepareSignVerify` | crates/rcx-registry-skills/src/sign.rs:82-186 | a receipt can be prepared exactly for signable lockfiles, and signed it is accepted for them |
| `SkillsLock.EntryTextDetermines` | crates/rcx-registry-skills/src/sign.rs:35-53 | the canonical text of an entry determines all five fields |
| `SkillsLock.OneReceiptOneLock` | crates/rcx-registry-skills/src/sign.rs:145-186 | one accepted receipt determines the whole lockfile, whatever its names hold, given no collision on the preimages |
| `SkillsLock.FirstBadRef` | crates/rcx-registry-skills/src/lock.rs:106-132 | there is no refusal exactly when every entry has a full commit id |
| `SkillsLock.SignableIff` | crates/rcx-registry-skills/src/lock.rs:106-132 | a lockfile may be signed exactly from version 2 on, with at least one skill, and forty lower-case hexadecimal digits as every ref; otherwise the first of the three decides the refusal |
| `SkillsLock.LockVerdict` | crates/rcx-registry-skills/src/sign.rs:145-186 | what each answer of the check means: signature, lockfile, root, version, count, in this order |
| `Published.EntryText` | crates/rcx-registry-skills/src/sign.rs:35-53 | the canonical text of an entry is its five quoted texts behind computedHash, ref, skillPath, source, sourceType, in this order |
| `Published.LockReceiptSays` | crates/rcx-registry-skills/src/sign.rs:82-137 | what the octets of a prepared and signed receipt say of the lockfile: its version, the number of its skills, the digest of its entries |
| `Mirror.MirrorStore.UpsertServer` | crates/rcx-registry-server/src/db/mirror.rs:39-74 | inserts a live row, or overwrites one keeping its first observation |
| `Mirror.MirrorStore.MarkDeleted` | crates/rcx-registry-server/src/db/mirror.rs:78-86 | stamps a live row once |
| `Mirror.MirrorStore.Evict` | crates/rcx-registry-server/src/db/mirror.rs:89-93 | removes the row and nothing else, or is refused because an enrichment refers to the row |
| `Mirror.MirrorStore.CachedStates` | crates/rcx-registry-server/src/db/mirror.rs:97-109 | lists every row once, with its stamp |
| `Mirror.MirrorStore.PersistChanges` | crates/rcx-registry-server/src/loops/sync.rs:237-267 | upserts the listed servers one after the other |
| `Mirror.MirrorStore.ReconcileInPlace` | crates/rcx-registry-server/src/loops/sync.rs:298-328 | marks and evicts absent names as one simultaneous update would, of all names, or of those listed before the first refused eviction |
| `Mirror.ReconcileSoftDeletes` | crates/rcx-registry-ingest/src/lib.rs:471-505 | the loop fills the three lists of the plan |
| `Mirror.PlanIs` | crates/rcx-registry-ingest/src/lib.rs:471-505 | the three lists are the absent names that are unstamped, within and past the window, a stamp in the future counting as just made, each in cached order |
| `Mirror.PlanMatchesLoop` | crates/rcx-registry-ingest/src/lib.rs:471-505 | applying the plan does what the in-place loop does, except exactly when the retention is zero and an absent row is stamped in the future |
| `Mirror.SoftDeleteHistory` | crates/rcx-registry-server/src/loops/sync.rs:298-328 | over any run, under any clock, a listed name has a live row, an absent one is stamped by the first tick that reconciles it and goes with the first one that does so after its retention |
| `Mirror.UnblockedHistory` | crates/rcx-registry-server/src/loops/sync.rs:298-328 | if no eviction is refused and the clock never runs back, an absent name has a row stamped at its first absence exactly while its retention of thirty days lasts |
| `Mirror.RowRepeats` | crates/rcx-registry-server/src/db/mirror.rs:39-74 | over any run a row repeats the last mention of its name in the last tick that listed it, first observed in the tick that opened the row and last observed in that one |
| `Mirror.BlockedUntilListed` | migrations/0003_rcx_enrichment.sql:1-2 | a name that blocks one tick blocks every later one until upstream lists it again |
| `Mirror.EnrichedNameBlocks` | migrations/0003_rcx_enrichment.sql:1-2 | an enriched name listed once and then absent for the retention does block a tick |
| `Sync.SnapshotStore.Record` | crates/rcx-registry-server/src/db/snapshots.rs:74-95 | inserts unless the id is taken, then prunes |
| `Sync.SnapshotStore.PruneEntrySets` | crates/rcx-registry-server/src/db/snapshots.rs:103-118 | keeps the newest entry sets and every row |
| `Sync.PruningKeepsNewest` | crates/rcx-registry-server/src/db/snapshots.rs:103-118 | on any table, equal times included, at most the allowed number of entry sets stay, and none newer than a kept one is dropped |
| `Sync.SnapshotStore.Latest` | crates/rcx-registry-server/src/db/snapshots.rs:198-205 | returns the root of the newest row |
| `Sync.SyncLoop.RunTick` | crates/rcx-registry-server/src/loops/sync.rs:127-205 | one tick takes both tables to the specified next state, and completes exactly when no eviction is refused and the signer answers |
| `Sync.SyncLoop.PersistSnapshot` | crates/rcx-registry-server/src/loops/sync.rs:330-385 | stores the signed octets, or nothing when signing fails |
| `Sync.EveryRunPublishesAChain` | crates/rcx-registry-server/src/loops/sync.rs:157-189 | after any run, some ticks failing at a refused eviction or at signing, the stored receipts in time order are an accepted snapshot chain |
| `Sync.EveryRunKeepsVerifiableEntries` | crates/rcx-registry-server/src/db/snapshots.rs:74-118 | after any run exactly the newest entry sets remain, and each digests to the root of its row |
| `Published.EveryRowSays` | crates/rcx-registry-server/src/loops/sync.rs:330-385 | after any run every stored row is that of one completed tick, in the order of the ticks, none with a new id missing: its octets give the number of servers, every name as added, the root, the root before, and its columns repeat them |
| `Sync.RunMirror` | crates/rcx-registry-server/src/loops/sync.rs:127-205 | the mirror table of a run of the loop is the one the soft-delete laws are about, whatever signing does |
| `Sync.EveryRunKeepsSoftDeletes` | crates/rcx-registry-server/src/loops/sync.rs:298-328 | over any run of the loop, refused evictions included, a name's row follows from when it was last listed and which ticks reconciled it since |
| `Sync.TickCompletesIff` | crates/rcx-registry-server/src/loops/sync.rs:157-189 | a tick of a run completes if and only if its signer answers and no absent name past its retention is enriched |
| `Sync.BlockedNameStopsPublishing` | crates/rcx-registry-server/src/loops/sync.rs:298-328 | from a tick blocked by a name until upstream lists it again no snapshot is stored, whatever else is observed |
| `Hex.PrefixedRoundTrip` | crates/rcx-registry-server/src/loops/enrich.rs:211-220 | the prefixed hex text of a hash parses back to the hash |
| `Hex.PrefixedIs` | crates/rcx-registry-server/src/db/publisher_enrichment.rs:166-168 | a stored hash is "blake3:" and two lower-case digits for each octet, the high half first |
| `Hex.ParsedIff` | crates/rcx-registry-server/src/db/publisher_enrichment.rs:161-164 | a text is read as a hash exactly if it is sixty-four hexadecimal digits of either case, with or without "blake3:" before them |
| `Enrichment.EnrichmentStore.Upsert` | crates/rcx-registry-server/src/db/publisher_enrichment.rs:22-94 | stores both hashes unless a text does not parse or the first insert fails; a failing second insert leaves them stored |
| `Enrichment.EnrichLoop.RefreshOne` | crates/rcx-registry-server/src/loops/enrich.rs:132-205 | takes the tables to the specified next state and issues a receipt exactly when its hash is stored |
| `Declared.RefreshMeans` | crates/rcx-registry-server/src/loops/enrich.rs:132-205 | when a refresh issues a receipt, what its octets say of the document found and the receipt superseded, and what both tables hold afterwards |
| `Enrichment.EveryRunIssuesAChain` | crates/rcx-registry-server/src/loops/enrich.rs:155-204 | after any run of refreshes, with no other writer of the table, the receipts issued for one server are an accepted chain, neighbours declaring different documents |
| `Declarations.DeclarationApi.Declare` | crates/rcx-registry-api/src/lib.rs:1085-1122 | a checked submission stores its hashed, unsigned receipt over the prior one it read |
| `Declared.SubmissionMeans` | crates/rcx-registry-api/src/lib.rs:1085-1122 | what the unsigned receipt of a submission says, under which key id, and what both tables hold afterwards |
| `Declarations.IssuedChainIff` | crates/rcx-registry-api/src/lib.rs:1085-1122 | over any run of refreshes and submissions the receipts the loop issued for a server are an accepted chain if and only if what was stored last before each has the hash of the one issued before |
| `Declarations.OneSubmissionBreaks` | crates/rcx-registry-api/src/lib.rs:1093-1121 | one submission between two issued receipts breaks the chain, given no collision on their hash preimages and no receipt that refers to its own hash |
| `Declarations.RefreshesAlone` | crates/rcx-registry-server/src/loops/enrich.rs:132-205 | without submissions a run of both writers is the run of the loop, and uninterrupted |
| `Pop.TicketStore.Issue` | crates/rcx-registry-admin/src/pop.rs:168-185 | sweeps, stores the ticket and returns its saturated expiry |
| `Pop.TicketStore.Consume` | crates/rcx-registry-admin/src/pop.rs:188-203 | removes the ticket before judging it |
| `Pop.SweepingShowsIff` | crates/rcx-registry-admin/src/pop.rs:168-203 | on every run under any clock the sweep changes an answer if and only if the ticket's last operation issued it, a later issue came after its expiry, and the consumption does not |
| `Pop.SweepingIsInvisible` | crates/rcx-registry-admin/src/pop.rs:168-203 | under a clock that never runs back the sweeping store answers like an unswept one, and the answer follows from the last operation on the ticket, good until its issue plus the lifetime although the stored expiry saturates |
| `Pop.SuccessHasIssue` | crates/rcx-registry-admin/src/pop.rs:249-284 | every success has an issue with the same binding, within the lifetime, with no attempt in between |
| `Pop.NeverOverspent` | crates/rcx-registry-admin/src/pop.rs:168-203 | on every run successes plus live tickets never exceed issues |
| `Pop.SweepShowsWhenClockSetBack` | crates/rcx-registry-admin/src/pop.rs:176-177 | a clock set back makes the sweep visible, on a concrete run |
| `Pop.ChallengeSigningBytes` | crates/rcx-registry-admin/src/pop.rs:93-102 | the loop builds the length-prefixed challenge |
| `Pop.ChallengeLaidOut` | crates/rcx-registry-admin/src/pop.rs:93-102 | the signed octets are the domain, a zero, then nonce, server and passport, each behind its length in four octets |
| `Pop.ChallengesDiffer` | crates/rcx-registry-admin/src/pop.rs:93-102 | equal challenge octets mean equal nonce, server and passport, for texts under 4 GiB |
| `Pop.LongChallengesMeet` | crates/rcx-registry-admin/src/pop.rs:97-100 | at 4 GiB the 32-bit length wraps and two different challenges have the same octets |
| `Pop.ToldApartIff` | crates/rcx-registry-admin/src/pop.rs:93-102 | challenges whose texts are shorter than a given length are told apart by their octets if and only if that length is at most 2^32 |
| `RateLimit.RateLimiter.Check` | crates/rcx-registry-api/src/lib.rs:1265-1286 | one check takes the windows to the specified next state and judges the new count |
| `RateLimit.ClientsAreIsolated` | crates/rcx-registry-api/src/lib.rs:1265-1286 | under a clock that never runs back a request is judged as if its client were the only one and nothing were swept |
| `RateLimit.VerdictFromRequests` | crates/rcx-registry-api/src/lib.rs:1265-1286 | under such a clock a request passes exactly if no more than the budget, refused ones included, have been made since the client's window opened, or the budget is the largest |
| `RateLimit.IsolatedIff` | crates/rcx-registry-api/src/lib.rs:1265-1286 | under any clock every request of a client is judged as if it were alone, at every budget, if and only if none comes within its window after others have swept that window |
| `RateLimit.SweepShowsWhenClockSetBack` | crates/rcx-registry-api/src/lib.rs:1271-1272 | on a concrete run with the clock set back another client's request clears a spent window |
| `RateLimit.BurstBound` | crates/rcx-registry-api/src/lib.rs:1265-1286 | below the largest budget no more than the burst, fewer than 2 * max, passes in any half-open interval of one window |
| `RateLimit.BurstIsReached` | crates/rcx-registry-api/src/lib.rs:1265-1286 | for every window length and budget some run attains the burst: 2 * max - 1, or max for windows of one tick |
| `RateLimit.LimitsIff` | crates/rcx-registry-api/src/lib.rs:1265-1286 | a number bounds every run if and only if the budget is not the largest (or the window is empty) and the number is at least the burst |
| `RateLimit.LargestBudgetIsNoBudget` | crates/rcx-registry-api/src/lib.rs:1281-1284 | at the largest budget any number of requests passes at one instant |
| `RateLimit.LargestBudgetNeverRefuses` | crates/rcx-registry-api/src/lib.rs:1281-1284 | at the largest 32-bit budget the saturating counter never refuses |
| `Pagination.FetchAllPages` | crates/rcx-registry-server/src/loops/sync.rs:207-235 | the bounded loop returns the chained pages |
| `Pagination.MatchingIsFiltered` | crates/rcx-registry-api/src/lib.rs:1368-1428 | the listing has exactly the matching records, as many as the filter leaves; `MatchingInOrder` has their order |
| `Pagination.MatchingInOrder` | crates/rcx-registry-api/src/lib.rs:1368-1417 | for every store and request the listing is every matching record by name, then version, missing parts as empty, and otherwise in stored order |
| `Pagination.MatchesIff` | crates/rcx-registry-api/src/lib.rs:1372-1406 | what deletion, search (case ignored), version or latest, and the first of three time stamps ask of a record |
| `Pagination.ListServersAnswers` | crates/rcx-registry-api/src/lib.rs:1416-1465 | which rows a request gets: those after the first that bears its cursor, 30 unless said and 1 to 100, with the next cursor exactly if more follow; which requests are errors |
| `Pagination.PagesExactly` | crates/rcx-registry-api/src/lib.rs:1416-1465 | for pairwise different records the chained pages are the listing, up to the pages allowed, if and only if every page end before the last of the listing has a token which, if a page is still fetched, no earlier row has |
| `Pagination.FetchFailsIff` | crates/rcx-registry-api/src/lib.rs:1431-1465 | with no token shared, fetching fails exactly if a page, not the last, ends at a record without name or version, and then returns no part of the listing |
| `Pagination.SharedTokenRepeats` | crates/rcx-registry-api/src/lib.rs:1337-1339 | a store of three records, two sharing a token, whose pages of two show one record twice |
| `Pagination.PagesConcatenate` | crates/rcx-registry-api/src/lib.rs:1431-1465 | for any filter and limit the chained pages concatenate to the listing, up to the pages allowed |
| `Pagination.FetchIsComplete` | crates/rcx-registry-server/src/loops/sync.rs:207-235 | the fetch loop returns the live records by name, then version, then stored order, each once, cut at 100,000 |

## Left out

- HTTP routing, adapters, configuration, metrics, Vault, DNS and GitHub OAuth: plumbing around the modelled parts.
- The inside of BLAKE3, Ed25519 and the shortest-decimal algorithm; `verify` and `verify_strict` are one oracle.
- Error codes and messages of the decoders: decoding is modelled as accepting or refusing. The receipt verifiers keep
  their error kinds, without texts.
- Values holding strings, arrays or maps of 2^64 and more, memory that runs out after a reservation is granted, the
  depth of the call stack, and the integer conversions of Go slice lengths. How many items and pairs can be reserved
  is a parameter, since the sizes of the element types are the compiler's choice.
- Mutex poisoning in the ticket stores and the limiter.
- Enrichment.PayloadBytes: refuses buffers of 2^64 octets and more, which no address space holds.
- Pop.ChallengesDiffer: for texts under 4 GiB, since `ToldApartIff` shows it false beyond.
- RateLimit.BurstBound: for budgets below the largest, since `LimitsIff` shows there is no bound at it.
- Sync.SyncLoop.RunTick: starts from the servers the fetch and the per-envelope validation left, takes clock readings,
  identifiers and the set of enriched names as inputs, and models no failing table statement but a refused eviction.
- Enrichment.EveryRunIssuesAChain: for the refresh loop as the only writer; `Declarations.IssuedChainIff` is the law
  with submissions.
- Sync.SnapshotStore.PruneEntrySets: rows of equal times, whose order the query leaves open, are taken last inserted
  first.
- Sync.SyncLoop.PersistSnapshot: the fallback for a time outside the calendar, which no clock reading reaches.
- `compute_full_diff` and `reconcile_snapshots`: only the counts for an empty previous set enter a snapshot receipt.
- Mirror rows keep name, version, status, hash, the two observation times and the stamp; the other columns are copies.
- Enrichment.EnrichLoop.RefreshOne: namespace classification, fetching, schema validation and the rights lookup are one
  input that is present or absent; columns the loop never reads back are dropped.
- Declarations.DeclarationApi.Declare: the checks of a submission are one input likewise; each refresh and each
  submission is one step, and interleavings inside a step are left out.
- The lenient map order mode of the Python decoder, its typed vectors and report writer, and the Python SDK codec, which
  repeats the Go algorithm.
- JSON parsing of documents as received: values enter the model parsed, with each key once.
- `SkillLock::validate`, which signing does not call, and the on-disk form of the lockfile.
- The fingerprint and signature checks of proof of possession, key publication, record upsert and migrations: easy next
  to the rest.
- The Postgres listing of the mirror; pagination is modelled on the in-memory store.
