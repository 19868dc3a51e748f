/** The set digest of a snapshot, the per-server hash, and what their framing determines. */
module SnapshotDigest {
  import opened ByteStrings
  import opened StableSort
  import opened Receipts
  import opened Decimals
  import CanonicalJson

  datatype Entry = Entry(name: Bytes, version: Bytes, json: Bytes)

  type Key = (Bytes, Bytes)

  /** Name first, then version. */
  predicate EntryLess(a: Key, b: Key) { Less(a.0, b.0) || (a.0 == b.0 && Less(a.1, b.1)) }

  function Keyed(entries: seq<Entry>): (rows: seq<(Key, Bytes)>)
    ensures |rows| == |entries|
    ensures forall i :: 0 <= i < |entries| ==> rows[i] == ((entries[i].name, entries[i].version), entries[i].json)
  {
    seq(|entries|, i requires 0 <= i < |entries| => ((entries[i].name, entries[i].version), entries[i].json))
  }

  /** `canonical_server_hash` hashes this; a set frame is this and one octet more. */
  function ServerFrame(row: (Key, Bytes)): Bytes { row.0.0 + [0] + row.0.1 + [0] + row.1 }

  function Frames(rows: seq<(Key, Bytes)>): Bytes {
    if rows == [] then [] else ServerFrame(rows[0]) + [0xFF] + Frames(rows[1..])
  }

  function SetPreimage(entries: seq<Entry>): Bytes { Frames(Sort(EntryLess, Keyed(entries))) }

  function SnapshotRoot(c: Crypto, entries: seq<Entry>): Digest { c.hash(SetPreimage(entries)) }

  function ServerPreimage(e: Entry): Bytes { ServerFrame(((e.name, e.version), e.json)) }

  function ServerHash(c: Crypto, e: Entry): Digest { c.hash(ServerPreimage(e)) }

  /** `snapshot_merkle_root`: a sorted copy of the entries, fed to the hasher field by field. */
  method SnapshotMerkleRoot(c: Crypto, entries: seq<Entry>) returns (root: Digest)
    ensures root == SnapshotRoot(c, entries)
  {
    hide Order, EntryLess;
    var keys := seq(|entries|, i requires 0 <= i < |entries| => (entries[i].name, entries[i].version));
    assert keys == Keys(Keyed(entries));
    var ordered := SortIndices(EntryLess, keys);
    ghost var rows := Sort(EntryLess, Keyed(entries));
    var fed: Bytes := [];
    for k := 0 to |ordered|
      invariant fed == Frames(rows[..k])
    {
      var entry := entries[ordered[k]];
      fed := fed + entry.name;
      fed := fed + [0];
      fed := fed + entry.version;
      fed := fed + [0];
      fed := fed + entry.json;
      fed := fed + [0xFF];
      FramesAppend(rows[..k], rows[k]);
      assert rows[..k + 1] == rows[..k] + [rows[k]];
      assert rows[k] == ((entry.name, entry.version), entry.json);
    }
    assert rows[..|ordered|] == rows;
    root := c.hash(fed);
  }

  lemma {:induction false} FramesAppend(a: seq<(Key, Bytes)>, row: (Key, Bytes))
    ensures Frames(a + [row]) == Frames(a) + ServerFrame(row) + [0xFF]
  {
    hide ServerFrame;
    if a == [] {
      assert a + [row] == [row] && [row][1..] == [];
      assert Frames([row]) == ServerFrame(row) + [0xFF] + [];
    } else {
      FramesAppend(a[1..], row);
      assert (a + [row])[1..] == a[1..] + [row];
    }
  }

  /** `verify_snapshot` */
  predicate VerifySnapshot(c: Crypto, entries: seq<Entry>, root: Digest) { SnapshotRoot(c, entries) == root }

  lemma EntryLessIsStrictOrder()
    ensures StrictOrder(EntryLess)
  {
    LessIsStrictOrder();
    hide Less;
    forall a: Key, b: Key | a != b ensures EntryLess(a, b) || EntryLess(b, a) {
      assert a.0 != b.0 || a.1 != b.1;
    }
  }

  // ---- the octets that are hashed ----

  /** One frame of the set digest: name, version and document, each with its delimiter behind it. */
  function Framed(e: Entry): Bytes { e.name + [0] + e.version + [0] + e.json + [0xFF] }

  /** The frames of the listed entries, in the order listed. */
  function FramedInOrder(entries: seq<Entry>, order: seq<nat>): Bytes
    requires forall p :: 0 <= p < |order| ==> order[p] < |entries|
  {
    if order == [] then [] else Framed(entries[order[0]]) + FramedInOrder(entries, order[1..])
  }

  /** `order` lists every entry once: by name, then by version, then as given. */
  ghost predicate ByNameAndVersion(entries: seq<Entry>, order: seq<nat>) {
    && |order| == |entries| && (forall i: nat :: i in order <==> i < |entries|)
    && (forall p :: 0 <= p < |order| ==> order[p] < |entries|)
    && forall p, q :: 0 <= p < q < |order| ==>
         var a, b := entries[order[p]], entries[order[q]];
         || Less(a.name, b.name)
         || (a.name == b.name && (Less(a.version, b.version) || (a.version == b.version && order[p] < order[q])))
  }

  /** The set digest is taken over the frames of the entries by name and version; one entry's is its own frame. */
  lemma SetPreimageLaidOut(entries: seq<Entry>) returns (order: seq<nat>)
    ensures ByNameAndVersion(entries, order) && SetPreimage(entries) == FramedInOrder(entries, order)
    ensures forall e :: SetPreimage([e]) == e.name + [0] + e.version + [0] + e.json + [0xFF]
  {
    order := StableListing(entries);
    forall e ensures SetPreimage([e]) == e.name + [0] + e.version + [0] + e.json + [0xFF] {
      var one := StableListing([e]);
      assert one == [0] by { assert one[0] in one; }
      FramesInOrder([e], one);
      assert one[1..] == [] && FramedInOrder([e], one) == Framed(e) + [];
    }
    FramesInOrder(entries, order);
  }

  lemma StableListing(entries: seq<Entry>) returns (order: seq<nat>)
    ensures order == Order(EntryLess, Keys(Keyed(entries))) && ByNameAndVersion(entries, order)
  {
    var keys := Keys(Keyed(entries));
    EntryLessIsStrictOrder();
    OrderIsStable(EntryLess, keys);
    order := Order(EntryLess, keys);
    hide Order, Less;
    forall p, q | 0 <= p < q < |order|
      ensures var a, b := entries[order[p]], entries[order[q]];
              || Less(a.name, b.name)
              || (a.name == b.name && (Less(a.version, b.version) || (a.version == b.version && order[p] < order[q])))
    {
      assert Before(EntryLess, keys, order[p], order[q]);
    }
  }

  lemma FramesInOrder(entries: seq<Entry>, order: seq<nat>)
    requires order == Order(EntryLess, Keys(Keyed(entries)))
    ensures SetPreimage(entries) == FramedInOrder(entries, order)
  {
    hide Order, EntryLess;
    SelectedFrames(entries, order);
  }

  lemma {:induction false} SelectedFrames(entries: seq<Entry>, order: seq<nat>)
    requires forall p :: 0 <= p < |order| ==> order[p] < |entries|
    ensures Frames(Select(Keyed(entries), order)) == FramedInOrder(entries, order)
  {
    if order != [] {
      SelectedFrames(entries, order[1..]);
      assert Select(Keyed(entries), order)[1..] == Select(Keyed(entries), order[1..]);
    }
  }

  /** The per-server hash is taken over the same fields without the last delimiter. */
  lemma ServerPreimageLaidOut(e: Entry)
    ensures ServerPreimage(e) == e.name + [0] + e.version + [0] + e.json
    ensures SetPreimage([e]) == ServerPreimage(e) + [0xFF]
  {
    var order := SetPreimageLaidOut([e]);
  }

  // ---- unique decodability ----

  /** What the specification demands of identifiers, and what UTF-8 guarantees of the document text. */
  ghost predicate Framable(row: (Key, Bytes)) { 0 !in row.0.0 && 0 !in row.0.1 && 0xFF !in row.1 }

  /** Canonical JSON never holds the octet that ends a frame. */
  lemma CanonicalEntryFramable(ryu: Ryu, name: Bytes, version: Bytes, document: CanonicalJson.Json)
    requires 0 !in name && 0 !in version && CanonicalJson.FreeOfFF(document)
    ensures Framable(((name, version), CanonicalJson.JsonText(ryu, document)))
  {
    CanonicalJson.TextIsPlain(ryu, document);
    hide CanonicalJson.JsonText;
  }

  ghost predicate AllFramable(rows: seq<(Key, Bytes)>) { forall row :: row in rows ==> Framable(row) }

  /** Text up to a delimiter it does not contain can be told from what follows. */
  lemma {:induction false} Delimited(a: Bytes, x: Bytes, b: Bytes, y: Bytes, d: byte)
    requires d !in a && d !in b && a + [d] + x == b + [d] + y
    ensures a == b && x == y
  {
    if a == [] || b == [] {
      assert (a + [d] + x)[0] == (b + [d] + y)[0];
      assert a == [] && b == [];
      assert x == (a + [d] + x)[1..] == (b + [d] + y)[1..] == y;
    } else {
      assert (a + [d] + x)[1..] == a[1..] + [d] + x && (b + [d] + y)[1..] == b[1..] + [d] + y;
      assert (a + [d] + x)[0] == (b + [d] + y)[0];
      Delimited(a[1..], x, b[1..], y, d);
      assert a == [a[0]] + a[1..] && b == [b[0]] + b[1..];
    }
  }

  lemma FrameSplits(a: (Key, Bytes), x: Bytes, b: (Key, Bytes), y: Bytes)
    requires Framable(a) && Framable(b)
    requires ServerFrame(a) + [0xFF] + x == ServerFrame(b) + [0xFF] + y
    ensures a == b && x == y
  {
    var (aKey, aJson) := a;
    var (bKey, bJson) := b;
    var aTail, bTail := aJson + [0xFF] + x, bJson + [0xFF] + y;
    assert ServerFrame(a) + [0xFF] + x == aKey.0 + [0] + (aKey.1 + [0] + aTail);
    assert ServerFrame(b) + [0xFF] + y == bKey.0 + [0] + (bKey.1 + [0] + bTail);
    Delimited(aKey.0, aKey.1 + [0] + aTail, bKey.0, bKey.1 + [0] + bTail, 0);
    Delimited(aKey.1, aTail, bKey.1, bTail, 0);
    Delimited(aJson, x, bJson, y, 0xFF);
  }

  lemma {:induction false} FramesInjective(a: seq<(Key, Bytes)>, b: seq<(Key, Bytes)>)
    requires AllFramable(a) && AllFramable(b) && Frames(a) == Frames(b)
    ensures a == b
  {
    hide ServerFrame, Framable;
    if a != [] && b != [] {
      FrameSplits(a[0], Frames(a[1..]), b[0], Frames(b[1..]));
      FramesInjective(a[1..], b[1..]);
      assert a == [a[0]] + a[1..] && b == [b[0]] + b[1..];
    }
  }

  lemma SortedFramable(rows: seq<(Key, Bytes)>)
    requires AllFramable(rows)
    ensures AllFramable(Sort(EntryLess, rows))
  {
  }

  lemma KeyedMembers(a: seq<Entry>, b: seq<Entry>)
    ensures SameMembers(a, b) <==> SameMembers(Keyed(a), Keyed(b))
  {
    if SameMembers(Keyed(a), Keyed(b)) {
      KeyedSubset(a, b);
      KeyedSubset(b, a);
    }
    if SameMembers(a, b) {
      forall row ensures row in Keyed(a) <==> row in Keyed(b) {
        var e := Entry(row.0.0, row.0.1, row.1);
        KeyedMember(a, e);
        KeyedMember(b, e);
      }
    }
  }

  lemma KeyedMember(a: seq<Entry>, e: Entry)
    ensures e in a <==> ((e.name, e.version), e.json) in Keyed(a)
  {
  }

  lemma KeyedSubset(a: seq<Entry>, b: seq<Entry>)
    requires forall row :: row in Keyed(a) ==> row in Keyed(b)
    ensures forall e :: e in a ==> e in b
  {
    forall e | e in a ensures e in b {
      KeyedMember(a, e);
      KeyedMember(b, e);
    }
  }

  /**
   The set preimage determines the set: two lists with distinct (name, version) keys have the same
   preimage exactly when each is a permutation of the other.
   */
  lemma SetPreimageDetermines(a: seq<Entry>, b: seq<Entry>)
    requires AllFramable(Keyed(a)) && AllFramable(Keyed(b))
    requires DistinctKeys(Keyed(a)) && DistinctKeys(Keyed(b))
    ensures SetPreimage(a) == SetPreimage(b) <==> SameMembers(a, b)
    ensures SetPreimage(a) == SetPreimage(b) ==> |a| == |b|
  {
    hide Framable, Sort, EntryLess, StrictOrder, Frames;
    EntryLessIsStrictOrder();
    KeyedMembers(a, b);
    SortMembers(EntryLess, Keyed(a));
    SortMembers(EntryLess, Keyed(b));
    if SetPreimage(a) == SetPreimage(b) {
      SortedFramable(Keyed(a));
      SortedFramable(Keyed(b));
      FramesInjective(Sort(EntryLess, Keyed(a)), Sort(EntryLess, Keyed(b)));
    }
    if SameMembers(a, b) {
      SortPermutation(EntryLess, Keyed(a), Keyed(b));
    }
  }

  lemma {:induction false} FramesEnd(rows: seq<(Key, Bytes)>)
    ensures rows != [] ==> |Frames(rows)| > 0 && Frames(rows)[|Frames(rows)| - 1] == 0xFF
  {
    hide ServerFrame;
    if rows != [] && rows[1..] != [] {
      FramesEnd(rows[1..]);
    }
  }

  /** A per-server hash and a set digest are never taken over the same octets. */
  lemma SetAndServerPreimagesDiffer(entries: seq<Entry>, e: Entry)
    requires 0xFF !in e.json
    ensures SetPreimage(entries) != ServerPreimage(e)
  {
    FramesEnd(Sort(EntryLess, Keyed(entries)));
    var p := ServerPreimage(e);
    if e.json == [] {
      assert p[|p| - 1] == 0;
    } else {
      assert p[|p| - 1] == e.json[|e.json| - 1];
    }
  }
}
