/**
 The Rust decoder with its panics. `Cbor.ReadValue` says what it accepts; here a reading can also end the
 program: at a string head whose end lies beyond the last offset, and at an array or map head announcing
 more entries than can be reserved.
 */
module RustReader {
  import opened ByteStrings
  import opened Cbor
  import opened CborLaws

  /**
   The most array items and map pairs `Vec::with_capacity` reserves. Both follow from the sizes the
   compiler gives the two element types, which the language leaves open.
   */
  datatype Room = Room(items: nat, pairs: nat)

  /** No 64-bit count is refused a reservation. */
  const AMPLE := Room(U64, U64)

  /** One more than the longest slice. */
  const SLICE: nat := 0x8000_0000_0000_0000

  datatype Reading<+T> = Got(value: T, rest: Bytes) | Refused | Halted

  function Lift<T>(r: Option<(T, Bytes)>): Reading<T> {
    if r.None? then Refused else Got(r.value.0, r.value.1)
  }

  /**
   `pos + count` in `take` reaches 2^64, where `body` is what follows `pos` in an input of `total` octets.
   Checked, the addition panics; unchecked, the sum wraps below `pos` and the slice expression panics. The
   first conjunct adds nothing for slices, which are shorter than 2^63.
   */
  predicate Overruns(total: nat, body: Bytes, count: nat) {
    count > |body| && total - |body| + count >= U64
  }

  function RunValue(room: Room, total: nat, bs: Bytes): (r: Reading<CborValue>)
    ensures r.Got? ==> |r.rest| < |bs|
    decreases |bs|, 0
  {
    if bs == [] then Refused
    else
      var first, rest := bs[0], bs[1..];
      var major, info := first / 32, first % 32;
      if first == 0xF5 then Got(Bool(true), rest)
      else if first == 0xF4 then Got(Bool(false), rest)
      else if first == 0xF6 then Got(Null, rest)
      else if major == 7 then Lift(ReadFloat(Rust, info, rest))
      else
        var arg := ReadArg(Rust, info, rest);
        if arg.None? then Refused
        else
          RunBody(room, total, major, arg.value.0, arg.value.1)
  }

  /** What follows the head of an integer, a string, an array or a map. */
  function RunBody(room: Room, total: nat, major: nat, n: u64, body: Bytes): (r: Reading<CborValue>)
    ensures r.Got? ==> |r.rest| <= |body|
    decreases |body|, 2
  {
    if major == UINT then Got(Uint(n), body)
    else if major == BYTES || major == TEXT then
      var taken := Take(body, n);
      if taken.None? then if Overruns(total, body, n) then Halted else Refused
      else if major == BYTES then Got(ByteString(taken.value.0), taken.value.1)
      else if ValidUtf8(taken.value.0) then Got(Text(taken.value.0), taken.value.1)
      else Refused
    else if major == ARRAY then
      if n > room.items then Halted
      else
        match RunItems(room, n, total, body)
        case Got(items, after) => Got(Array(items), after)
        case Refused => Refused
        case Halted => Halted
    else if major == MAP then
      if n > room.pairs then Halted
      else
        match RunPairs(room, n, total, body)
        case Got(pairs, after) => Got(Map(pairs), after)
        case Refused => Refused
        case Halted => Halted
    else Refused
  }

  function RunItems(room: Room, count: nat, total: nat, bs: Bytes): (r: Reading<seq<CborValue>>)
    ensures r.Got? ==> |r.rest| <= |bs| && |r.value| == count
    decreases |bs|, 1
  {
    if count == 0 then Got([], bs)
    else
      match RunValue(room, total, bs)
      case Refused => Refused
      case Halted => Halted
      case Got(item, after) =>
        match RunItems(room, count - 1, total, after)
        case Refused => Refused
        case Halted => Halted
        case Got(items, rest) => Got([item] + items, rest)
  }

  /** A key that is no text is noticed after its value has been read. */
  function RunPairs(room: Room, count: nat, total: nat, bs: Bytes): (r: Reading<seq<Pair>>)
    ensures r.Got? ==> |r.rest| <= |bs| && |r.value| == count
    decreases |bs|, 1
  {
    if count == 0 then Got([], bs)
    else
      match RunValue(room, total, bs)
      case Refused => Refused
      case Halted => Halted
      case Got(key, mid) =>
        match RunValue(room, total, mid)
        case Refused => Refused
        case Halted => Halted
        case Got(value, after) =>
          if !key.Text? then Refused
          else
            match RunPairs(room, count - 1, total, after)
            case Refused => Refused
            case Halted => Halted
            case Got(pairs, rest) => Got([(key.text, value)] + pairs, rest)
  }

  /** `decode` */
  function RunDecode(room: Room, bs: Bytes): Reading<CborValue> {
    var r := RunValue(room, |bs|, bs);
    if r.Got? && r.rest != [] then Refused else r
  }

  // ---- what is accepted and refused ----

  predicate Tight(room: Room, n: nat) { room.items < n || room.pairs < n }

  /** A run ends as the plain reading does, unless it halts; and it halts on readable octets only for want of room. */
  ghost predicate Agrees<T>(room: Room, n: nat, run: Reading<T>, plain: Option<(T, Bytes)>) {
    match run
    case Got(value, rest) => plain.Some? && plain.value.0 == value && plain.value.1 == rest
    case Refused => plain.None?
    case Halted => plain.None? || (Tight(room, n) && Tight(room, U64))
  }

  lemma {:induction false} ItemsAreShort(count: nat, bs: Bytes)
    requires ReadItems(Rust, count, bs).Some?
    ensures count + |ReadItems(Rust, count, bs).value.1| <= |bs|
  {
    hide ReadValue;
    if count > 0 {
      ItemsAreShort(count - 1, ReadValue(Rust, bs).value.1);
    }
  }

  lemma {:induction false} PairsAreShort(count: nat, prior: Option<Bytes>, bs: Bytes)
    requires ReadPairs(Rust, count, prior, bs).Some?
    ensures count + |ReadPairs(Rust, count, prior, bs).value.1| <= |bs|
  {
    hide ReadValue, ReadKey;
    if count > 0 {
      var key := ReadKey(Rust, prior, bs).value;
      PairsAreShort(count - 1, Some(key.encoded), ReadValue(Rust, key.rest).value.1);
    }
  }

  lemma {:induction false} RunAgrees(room: Room, total: nat, bs: Bytes)
    ensures Agrees(room, |bs|, RunValue(room, total, bs), ReadValue(Rust, bs))
    decreases |bs|, 0
  {
    hide ReadArg, ReadFloat, ReadItems, ReadPairs, RunItems, RunPairs, ValidUtf8;
    if bs != [] {
      var first, rest := bs[0], bs[1..];
      var major, info := first / 32, first % 32;
      var arg := ReadArg(Rust, info, rest);
      if first != 0xF5 && first != 0xF4 && first != 0xF6 && major != 7 && arg.Some? {
        var n, body := arg.value.0, arg.value.1;
        if major == ARRAY {
          ItemsAgree(room, n, total, body);
          if ReadItems(Rust, n, body).Some? { ItemsAreShort(n, body); }
        } else if major == MAP {
          PairsAgree(room, n, total, None, body);
          if ReadPairs(Rust, n, None, body).Some? { PairsAreShort(n, None, body); }
        }
      }
    }
  }

  lemma {:induction false} ItemsAgree(room: Room, count: nat, total: nat, bs: Bytes)
    ensures Agrees(room, |bs|, RunItems(room, count, total, bs), ReadItems(Rust, count, bs))
    decreases |bs|, 1
  {
    hide ReadValue, RunValue;
    if count > 0 {
      RunAgrees(room, total, bs);
      if RunValue(room, total, bs).Got? {
        ItemsAgree(room, count - 1, total, RunValue(room, total, bs).rest);
      }
    }
  }

  lemma {:induction false} PairsAgree(room: Room, count: nat, total: nat, prior: Option<Bytes>, bs: Bytes)
    ensures Agrees(room, |bs|, RunPairs(room, count, total, bs), ReadPairs(Rust, count, prior, bs))
    decreases |bs|, 1
  {
    hide ReadValue, RunValue;
    if count > 0 {
      RunAgrees(room, total, bs);
      if RunValue(room, total, bs).Got? {
        var mid := RunValue(room, total, bs).rest;
        RunAgrees(room, total, mid);
        if RunValue(room, total, mid).Got? {
          PairsAgree(room, count - 1, total, Some(bs[..|bs| - |mid|]), RunValue(room, total, mid).rest);
        }
      }
    }
  }

  /** Less room halts readings and changes no other. */
  lemma {:induction false} RunInLess(room: Room, total: nat, bs: Bytes)
    ensures RunValue(room, total, bs) == Halted || RunValue(room, total, bs) == RunValue(AMPLE, total, bs)
    decreases |bs|, 0
  {
    hide ReadArg, ReadFloat, RunItems, RunPairs, ValidUtf8;
    if bs != [] {
      var first, rest := bs[0], bs[1..];
      var arg := ReadArg(Rust, first % 32, rest);
      if first / 32 != 7 && arg.Some? {
        ItemsInLess(room, arg.value.0, total, arg.value.1);
        PairsInLess(room, arg.value.0, total, arg.value.1);
      }
    }
  }

  lemma {:induction false} ItemsInLess(room: Room, count: nat, total: nat, bs: Bytes)
    ensures var run := RunItems(room, count, total, bs); run == Halted || run == RunItems(AMPLE, count, total, bs)
    decreases |bs|, 1
  {
    hide RunValue;
    if count > 0 {
      RunInLess(room, total, bs);
      if RunValue(room, total, bs).Got? {
        ItemsInLess(room, count - 1, total, RunValue(room, total, bs).rest);
      }
    }
  }

  lemma {:induction false} PairsInLess(room: Room, count: nat, total: nat, bs: Bytes)
    ensures var run := RunPairs(room, count, total, bs); run == Halted || run == RunPairs(AMPLE, count, total, bs)
    decreases |bs|, 1
  {
    hide RunValue;
    if count > 0 {
      RunInLess(room, total, bs);
      if RunValue(room, total, bs).Got? {
        var mid := RunValue(room, total, bs).rest;
        RunInLess(room, total, mid);
        if RunValue(room, total, mid).Got? {
          PairsInLess(room, count - 1, total, RunValue(room, total, mid).rest);
        }
      }
    }
  }

  // ---- a reading depends on what it consumes alone ----

  function Eaten(bs: Bytes, rest: Bytes): (r: Bytes) {
    if |rest| <= |bs| then bs[..|bs| - |rest|] else []
  }

  ghost predicate Suffix(bs: Bytes, rest: Bytes) { |rest| <= |bs| && bs == Eaten(bs, rest) + rest }

  lemma ReadArgLocal(info: nat, bs: Bytes, y: Bytes)
    requires ReadArg(Rust, info, bs).Some?
    ensures var r := ReadArg(Rust, info, bs).value;
            Suffix(bs, r.1) && ReadArg(Rust, info, Eaten(bs, r.1) + y) == Some((r.0, y))
  {
    if info >= 24 {
      var w := Width(info);
      assert (bs[..w] + y)[..w] == bs[..w] && (bs[..w] + y)[w..] == y;
    } else {
      assert Eaten(bs, bs) + y == y;
    }
    hide FromBigEndian;
  }

  lemma ReadFloatLocal(info: nat, bs: Bytes, y: Bytes)
    requires ReadFloat(Rust, info, bs).Some?
    ensures var r := ReadFloat(Rust, info, bs).value;
            Suffix(bs, r.1) && ReadFloat(Rust, info, Eaten(bs, r.1) + y) == Some((r.0, y))
  {
    hide FromBigEndian, ReadBits;
    var w := Width(info);
    assert (bs[..w] + y)[..w] == bs[..w] && (bs[..w] + y)[w..] == y;
  }

  lemma TakeLocal(bs: Bytes, n: nat, y: Bytes)
    requires Take(bs, n).Some?
    ensures var r := Take(bs, n).value; Suffix(bs, r.1) && Take(Eaten(bs, r.1) + y, n) == Some((r.0, y))
  {
    assert (bs[..n] + y)[..n] == bs[..n] && (bs[..n] + y)[n..] == y;
  }

  lemma EatenTwice(bs: Bytes, mid: Bytes, rest: Bytes, y: Bytes)
    requires Suffix(bs, mid) && Suffix(mid, rest)
    ensures Suffix(bs, rest) && Eaten(bs, rest) + y == Eaten(bs, mid) + (Eaten(mid, rest) + y)
  {
  }

  lemma NothingEaten(bs: Bytes, y: Bytes)
    ensures Suffix(bs, bs) && Eaten(bs, bs) + y == y
  {
  }

  lemma AfterFirst(bs: Bytes, rest: Bytes, y: Bytes)
    requires bs != [] && Suffix(bs[1..], rest)
    ensures Suffix(bs, rest)
    ensures var moved := Eaten(bs, rest) + y; moved != [] && moved[0] == bs[0] && moved[1..] == Eaten(bs[1..], rest) + y
  {
    var tail := Eaten(bs[1..], rest);
    assert Eaten(bs, rest) == [bs[0]] + tail by { assert bs == [bs[0]] + bs[1..]; }
    hide Eaten;
    Prepended(bs[0], tail, y);
    Prepended(bs[0], tail, rest);
  }

  lemma Prepended(first: byte, tail: Bytes, y: Bytes)
    ensures [first] + tail + y == [first] + (tail + y) && ([first] + (tail + y))[1..] == tail + y
  {
  }

  lemma {:induction false} RunLocal(room: Room, total: nat, bs: Bytes, other: nat, y: Bytes)
    requires RunValue(room, total, bs).Got?
    ensures var r := RunValue(room, total, bs);
            Suffix(bs, r.rest) && RunValue(room, other, Eaten(bs, r.rest) + y) == Got(r.value, y)
    decreases |bs|, 0
  {
    hide ReadArg, ReadFloat, RunBody, Eaten, Suffix;
    var first, rest := bs[0], bs[1..];
    var major, info := first / 32, first % 32;
    var after := RunValue(room, total, bs).rest;
    if first == 0xF5 || first == 0xF4 || first == 0xF6 {
      NothingEaten(after, y);
    } else if major == 7 {
      ReadFloatLocal(info, rest, y);
    } else {
      var n, body := ReadArg(Rust, info, rest).value.0, ReadArg(Rust, info, rest).value.1;
      BodyLocal(room, total, major, n, body, other, y);
      ReadArgLocal(info, rest, Eaten(body, after) + y);
      EatenTwice(rest, body, after, y);
    }
    AfterFirst(bs, after, y);
  }

  lemma {:induction false} BodyLocal(room: Room, total: nat, major: nat, n: u64, body: Bytes, other: nat, y: Bytes)
    requires RunBody(room, total, major, n, body).Got?
    ensures var r := RunBody(room, total, major, n, body);
            Suffix(body, r.rest) && RunBody(room, other, major, n, Eaten(body, r.rest) + y) == Got(r.value, y)
    decreases |body|, 2
  {
    hide Take, RunItems, RunPairs, ValidUtf8;
    if major == ARRAY {
      ItemsLocal(room, n, total, body, other, y);
    } else if major == MAP {
      PairsLocal(room, n, total, body, other, y);
    } else if major == UINT {
      NothingEaten(body, y);
    } else {
      TakeLocal(body, n, y);
    }
  }

  lemma {:induction false} ItemsLocal(room: Room, count: nat, total: nat, bs: Bytes, other: nat, y: Bytes)
    requires RunItems(room, count, total, bs).Got?
    ensures var r := RunItems(room, count, total, bs);
            Suffix(bs, r.rest) && RunItems(room, count, other, Eaten(bs, r.rest) + y) == Got(r.value, y)
    decreases |bs|, 1
  {
    hide RunValue;
    var r := RunItems(room, count, total, bs);
    if count == 0 {
      assert Eaten(bs, bs) + y == y;
    } else {
      var item := RunValue(room, total, bs);
      var z := Eaten(item.rest, r.rest) + y;
      RunLocal(room, total, bs, other, z);
      ItemsLocal(room, count - 1, total, item.rest, other, y);
      assert Eaten(bs, r.rest) + y == Eaten(bs, item.rest) + z;
    }
  }

  lemma {:induction false} PairsLocal(room: Room, count: nat, total: nat, bs: Bytes, other: nat, y: Bytes)
    requires RunPairs(room, count, total, bs).Got?
    ensures var r := RunPairs(room, count, total, bs);
            Suffix(bs, r.rest) && RunPairs(room, count, other, Eaten(bs, r.rest) + y) == Got(r.value, y)
    decreases |bs|, 1
  {
    hide RunValue;
    var r := RunPairs(room, count, total, bs);
    if count == 0 {
      assert Eaten(bs, bs) + y == y;
    } else {
      var key := RunValue(room, total, bs);
      var value := RunValue(room, total, key.rest);
      var z := Eaten(value.rest, r.rest) + y;
      PairsLocal(room, count - 1, total, value.rest, other, y);
      RunLocal(room, total, key.rest, other, z);
      assert Eaten(key.rest, value.rest) + z == Eaten(key.rest, r.rest) + y;
      RunLocal(room, total, bs, other, Eaten(key.rest, r.rest) + y);
      assert Eaten(bs, r.rest) + y == Eaten(bs, key.rest) + (Eaten(key.rest, r.rest) + y);
    }
  }

  // ---- where a reading halts ----

  /** An array or map some of whose contents, given as octets, have been read; `key` is empty where a key is due. */
  datatype Frame =
    | InArray(count: u64, items: seq<Bytes>)
    | InMap(count: u64, pairs: seq<(Bytes, Bytes)>, key: Bytes)

  function Joined(rows: seq<(Bytes, Bytes)>): Bytes {
    if rows == [] then [] else rows[0].0 + rows[0].1 + Joined(rows[1..])
  }

  function FrameOctets(f: Frame): Bytes {
    match f
    case InArray(count, items) => Head(ARRAY, count) + Concat(items)
    case InMap(count, pairs, key) => Head(MAP, count) + Joined(pairs) + key
  }

  function Octets(frames: seq<Frame>): Bytes {
    if frames == [] then [] else FrameOctets(frames[0]) + Octets(frames[1..])
  }

  /** One value and nothing more. */
  ghost predicate Whole(room: Room, bs: Bytes) { RunDecode(room, bs).Got? }

  ghost predicate WholeText(room: Room, bs: Bytes) { Whole(room, bs) && RunDecode(room, bs).value.Text? }

  /** The contents are read, the frame has room, and another item, key or value is due. */
  ghost predicate Open(room: Room, f: Frame) {
    match f
    case InArray(count, items) =>
      |items| < count <= room.items && forall i :: 0 <= i < |items| ==> Whole(room, items[i])
    case InMap(count, pairs, key) =>
      && |pairs| < count <= room.pairs && (key == [] || Whole(room, key))
      && forall i :: 0 <= i < |pairs| ==> WholeText(room, pairs[i].0) && Whole(room, pairs[i].1)
  }

  /** A head no reading gets past, in an input of `total` octets of which `tail` follow the head. */
  predicate Fatal(room: Room, total: nat, major: nat, n: u64, tail: Bytes) {
    if major == BYTES || major == TEXT then Overruns(total, tail, n)
    else if major == ARRAY then n > room.items
    else major == MAP && n > room.pairs
  }

  ghost predicate AllOpen(room: Room, frames: seq<Frame>) {
    frames == [] || (Open(room, frames[0]) && AllOpen(room, frames[1..]))
  }

  ghost predicate StopsAt(room: Room, total: nat, bs: Bytes, frames: seq<Frame>, major: nat, n: u64, tail: Bytes) {
    && AllOpen(room, frames)
    && Fatal(room, total, major, n, tail) && bs == Octets(frames) + Head(major, n) + tail
  }

  /** Behind frames still open, where a value is due, there is a fatal head. */
  ghost predicate Stops(room: Room, total: nat, bs: Bytes) {
    exists frames, major, n, tail :: StopsAt(room, total, bs, frames, major, n, tail)
  }

  lemma WholeThen(room: Room, part: Bytes, total: nat, y: Bytes)
    requires Whole(room, part)
    ensures part != [] && RunValue(room, total, part + y) == Got(RunDecode(room, part).value, y)
  {
    RunLocal(room, |part|, part, total, y);
    assert Eaten(part, []) == part;
    hide RunValue;
  }

  lemma {:induction false} ItemsThenHalt(room: Room, count: nat, total: nat, items: seq<Bytes>, x: Bytes)
    requires |items| < count && forall i :: 0 <= i < |items| ==> Whole(room, items[i])
    requires RunValue(room, total, x) == Halted
    ensures RunItems(room, count, total, Concat(items) + x) == Halted
  {
    hide RunValue, Whole;
    if items == [] {
      assert Concat(items) + x == x;
    } else {
      var more := Concat(items[1..]) + x;
      WholeThen(room, items[0], total, more);
      ItemsThenHalt(room, count - 1, total, items[1..], x);
      assert Concat(items) + x == items[0] + more;
    }
  }

  lemma {:induction false} PairsThenHalt(room: Room, f: Frame, count: nat, total: nat, pairs: seq<(Bytes, Bytes)>,
                                         x: Bytes)
    requires f.InMap? && Open(room, f) && RunValue(room, total, x) == Halted
    requires |pairs| < count && forall i :: 0 <= i < |pairs| ==> WholeText(room, pairs[i].0) && Whole(room, pairs[i].1)
    ensures RunPairs(room, count, total, Joined(pairs) + f.key + x) == Halted
  {
    hide RunValue, RunDecode;
    if pairs == [] {
      if f.key == [] {
        assert Joined(pairs) + f.key + x == x;
      } else {
        WholeThen(room, f.key, total, x);
        assert Joined(pairs) + f.key + x == f.key + x;
      }
    } else {
      var more := Joined(pairs[1..]) + f.key + x;
      PairsThenHalt(room, f, count - 1, total, pairs[1..], x);
      WholeThen(room, pairs[0].1, total, more);
      WholeThen(room, pairs[0].0, total, pairs[0].1 + more);
      assert Joined(pairs) + f.key + x == pairs[0].0 + (pairs[0].1 + more);
    }
  }

  lemma FrameThenHalt(room: Room, f: Frame, total: nat, x: Bytes)
    requires Open(room, f) && RunValue(room, total, x) == Halted
    ensures RunValue(room, total, FrameOctets(f) + x) == Halted
  {
    hide ReadArg, Head, RunItems, RunPairs, Whole, WholeText;
    match f {
      case InArray(count, items) =>
        ItemsThenHalt(room, count, total, items, x);
        ReadHead(Rust, ARRAY, count, Concat(items) + x);
        assert FrameOctets(f) + x == Head(ARRAY, count) + (Concat(items) + x);
      case InMap(count, pairs, key) =>
        PairsThenHalt(room, f, count, total, pairs, x);
        ReadHead(Rust, MAP, count, Joined(pairs) + key + x);
        assert FrameOctets(f) + x == Head(MAP, count) + (Joined(pairs) + key + x);
    }
  }

  lemma FatalHeadHalts(room: Room, total: nat, major: nat, n: u64, tail: Bytes)
    requires Fatal(room, total, major, n, tail)
    ensures major < 8 && RunValue(room, total, Head(major, n) + tail) == Halted
  {
    ReadHead(Rust, major, n, tail);
    hide ReadArg, Head, RunItems, RunPairs;
  }

  lemma Regroup(a: Bytes, b: Bytes, c: Bytes, d: Bytes)
    ensures a + b + c + d == a + (b + c + d)
  {
  }

  lemma StopsInside(room: Room, total: nat, bs: Bytes, frames: seq<Frame>, major: nat, n: u64, tail: Bytes)
    returns (x: Bytes)
    requires StopsAt(room, total, bs, frames, major, n, tail) && frames != []
    ensures Open(room, frames[0]) && StopsAt(room, total, x, frames[1..], major, n, tail)
    ensures bs == FrameOctets(frames[0]) + x
  {
    assert major < 8 && Octets(frames) == FrameOctets(frames[0]) + Octets(frames[1..]);
    hide Open, Fatal, Head, FrameOctets, Octets;
    x := Octets(frames[1..]) + Head(major, n) + tail;
    Regroup(FrameOctets(frames[0]), Octets(frames[1..]), Head(major, n), tail);
  }

  lemma StopsOutside(room: Room, total: nat, bs: Bytes, major: nat, n: u64, tail: Bytes)
    requires StopsAt(room, total, bs, [], major, n, tail)
    ensures Fatal(room, total, major, n, tail) && major < 8 && bs == Head(major, n) + tail
  {
    assert major < 8;
    hide Fatal, Head;
  }

  lemma {:induction false} StoppedHalts(room: Room, total: nat, bs: Bytes, frames: seq<Frame>, major: nat, n: u64,
                                        tail: Bytes)
    requires StopsAt(room, total, bs, frames, major, n, tail)
    ensures RunValue(room, total, bs) == Halted
    decreases |frames|
  {
    hide *;
    if frames == [] {
      StopsOutside(room, total, bs, major, n, tail);
      FatalHeadHalts(room, total, major, n, tail);
    } else {
      var x := StopsInside(room, total, bs, frames, major, n, tail);
      StoppedHalts(room, total, x, frames[1..], major, n, tail);
      FrameThenHalt(room, frames[0], total, x);
    }
  }

  lemma GotIsWhole(room: Room, total: nat, bs: Bytes)
    requires RunValue(room, total, bs).Got?
    ensures var r := RunValue(room, total, bs);
            bs == Eaten(bs, r.rest) + r.rest && RunDecode(room, Eaten(bs, r.rest)) == Got(r.value, [])
  {
    var eaten := Eaten(bs, RunValue(room, total, bs).rest);
    RunLocal(room, total, bs, |eaten|, []);
    assert eaten + [] == eaten;
    hide RunValue;
  }

  lemma {:induction false} HaltInItems(room: Room, count: nat, total: nat, bs: Bytes)
    returns (items: seq<Bytes>, x: Bytes)
    requires RunItems(room, count, total, bs) == Halted
    ensures |items| < count && forall i :: 0 <= i < |items| ==> Whole(room, items[i])
    ensures RunValue(room, total, x) == Halted && bs == Concat(items) + x
    decreases |bs|
  {
    hide RunValue, RunDecode;
    if RunValue(room, total, bs) == Halted {
      items, x := [], bs;
      assert Concat([]) + bs == bs;
    } else {
      GotIsWhole(room, total, bs);
      var rest := RunValue(room, total, bs).rest;
      items, x := HaltInItems(room, count - 1, total, rest);
      var all := [Eaten(bs, rest)] + items;
      assert all[1..] == items;
      assert bs == Concat(all) + x;
      items := all;
    }
  }

  lemma NothingJoined()
    ensures Joined([]) == []
  {
  }

  lemma JoinedCons(key: Bytes, value: Bytes, pairs: seq<(Bytes, Bytes)>, x: Bytes)
    ensures Joined([(key, value)] + pairs) + x == key + (value + (Joined(pairs) + x))
  {
    assert ([(key, value)] + pairs)[1..] == pairs;
  }

  lemma {:induction false} HaltInPairs(room: Room, count: nat, total: nat, bs: Bytes)
    returns (pairs: seq<(Bytes, Bytes)>, key: Bytes, x: Bytes)
    requires RunPairs(room, count, total, bs) == Halted
    ensures |pairs| < count && (key == [] || Whole(room, key))
    ensures forall i :: 0 <= i < |pairs| ==> WholeText(room, pairs[i].0) && Whole(room, pairs[i].1)
    ensures RunValue(room, total, x) == Halted && bs == Joined(pairs) + key + x
    decreases |bs|
  {
    hide RunValue, RunDecode, Eaten, Joined;
    NothingJoined();
    if RunValue(room, total, bs) == Halted {
      pairs, key, x := [], [], bs;
      assert Joined([]) + [] + bs == bs;
    } else {
      GotIsWhole(room, total, bs);
      var mid := RunValue(room, total, bs).rest;
      if RunValue(room, total, mid) == Halted {
        pairs, key, x := [], Eaten(bs, mid), mid;
        assert Joined([]) + key + mid == key + mid;
      } else {
        GotIsWhole(room, total, mid);
        var rest := RunValue(room, total, mid).rest;
        pairs, key, x := HaltInPairs(room, count - 1, total, rest);
        JoinedCons(Eaten(bs, mid), Eaten(mid, rest), pairs, key + x);
        assert rest == Joined(pairs) + (key + x);
        pairs := [(Eaten(bs, mid), Eaten(mid, rest))] + pairs;
        assert bs == Joined(pairs) + (key + x);
      }
    }
  }

  /** Every decoder but Go's takes a head in its shortest form only. */
  lemma ReadHeadOf(d: Decoder, info: nat, major: nat, bs: Bytes)
    requires d != Go && major < 8 && ReadArg(d, info, bs).Some?
    ensures var r := ReadArg(d, info, bs).value; [major * 32 + info] + bs == Head(major, r.0) + r.1
  {
    var r := ReadArg(d, info, bs).value;
    HeadShape(major, r.0);
    Pow256Values();
    if info >= 24 {
      ToFromBigEndian(bs[..Width(info)]);
      assert Info(r.0) == info;
      assert bs == bs[..Width(info)] + r.1;
    }
  }

  lemma HaltInFrame(room: Room, total: nat, major: nat, n: u64, tail: Bytes) returns (f: Frame, x: Bytes)
    requires (major == ARRAY && n <= room.items && RunItems(room, n, total, tail) == Halted)
             || (major == MAP && n <= room.pairs && RunPairs(room, n, total, tail) == Halted)
    ensures Open(room, f) && Head(major, n) + tail == FrameOctets(f) + x
    ensures RunValue(room, total, x) == Halted && |x| <= |tail|
  {
    hide Head, RunItems, RunPairs, RunValue, Whole, WholeText, Concat, Joined;
    if major == ARRAY {
      var items;
      items, x := HaltInItems(room, n, total, tail);
      f := InArray(n, items);
    } else {
      var pairs, key;
      pairs, key, x := HaltInPairs(room, n, total, tail);
      f := InMap(n, pairs, key);
    }
  }

  lemma {:induction false} HaltedStops(room: Room, total: nat, bs: Bytes)
    returns (frames: seq<Frame>, major: nat, n: u64, tail: Bytes)
    requires RunValue(room, total, bs) == Halted
    ensures StopsAt(room, total, bs, frames, major, n, tail)
    decreases |bs|
  {
    hide ReadArg, Head, RunItems, RunPairs, ReadFloat, Whole, WholeText, ValidUtf8, Concat, Joined;
    var first, rest := bs[0], bs[1..];
    major := first / 32;
    var arg := ReadArg(Rust, first % 32, rest).value;
    n, tail := arg.0, arg.1;
    ReadHeadOf(Rust, first % 32, major, rest);
    assert bs == [first] + rest;
    if Fatal(room, total, major, n, tail) {
      frames := [];
      assert bs == Octets([]) + Head(major, n) + tail;
    } else {
      var f, x := HaltInFrame(room, total, major, n, tail);
      hide FrameOctets, Open, Fatal, RunValue;
      frames, major, n, tail := HaltedStops(room, total, x);
      assert ([f] + frames)[1..] == frames;
      assert bs == Octets([f] + frames) + Head(major, n) + tail;
      frames := [f] + frames;
    }
  }

  /** A reading halts exactly where, with everything before it readable, a fatal head stands where a value is due. */
  lemma HaltsIff(room: Room, total: nat, bs: Bytes)
    ensures RunValue(room, total, bs) == Halted <==> Stops(room, total, bs)
  {
    hide RunValue, StopsAt;
    if RunValue(room, total, bs) == Halted {
      var frames, major, n, tail := HaltedStops(room, total, bs);
    }
    forall frames, major, n, tail | StopsAt(room, total, bs, frames, major, n, tail)
      ensures RunValue(room, total, bs) == Halted
    {
      StoppedHalts(room, total, bs, frames, major, n, tail);
    }
  }
}
