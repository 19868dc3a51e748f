/**
 The Rust encoder and decoder in their own form: `write_*` push onto an output vector, and a cursor
 advances over the input. Each is proved to compute the functions of `Cbor`.
 */
module Canonical {
  import opened ByteStrings
  import opened Floats
  import opened StableSort
  import opened Cbor
  import opened CborLaws
  import opened RustReader

  lemma {:induction false} RowsAppend(a: seq<(Bytes, Bytes)>, row: (Bytes, Bytes))
    ensures Rows(a + [row]) == Rows(a) + EncodeText(row.0) + row.1
  {
    hide EncodeText;
    if a == [] {
      assert a + [row] == [row] && [row][1..] == [];
      assert Rows([row]) == EncodeText(row.0) + row.1 + [];
    } else {
      RowsAppend(a[1..], row);
      assert (a + [row])[1..] == a[1..] + [row];
    }
  }

  lemma {:induction false} ConcatAppend(a: seq<Bytes>, part: Bytes)
    ensures Concat(a + [part]) == Concat(a) + part
  {
    if a == [] {
      assert a + [part] == [part] && [part][1..] == [];
      assert Concat([part]) == part + [];
    } else {
      ConcatAppend(a[1..], part);
      assert (a + [part])[1..] == a[1..] + [part];
    }
  }

  lemma OneOctet(n: byte)
    ensures BigEndian(n, 1) == [n]
  {
    assert BigEndian(n / 256, 0) == [];
  }

  /** The output vector every `write_*` function pushes onto. */
  class Buffer {
    var data: Bytes

    constructor ()
      ensures data == []
    {
      data := [];
    }

    method Push(b: byte)
      modifies this
      ensures data == old(data) + [b]
    {
      data := data + [b];
    }

    method Extend(bs: Bytes)
      modifies this
      ensures data == old(data) + bs
    {
      data := data + bs;
    }

    method WriteHead(major: nat, arg: nat)
      requires major < 8
      modifies this
      ensures data == old(data) + Head(major, arg)
    {
      hide BigEndian;
      var prefix := major * 32;
      if arg < 24 {
        Push(prefix + arg);
      } else if arg <= 0xFF {
        Push(prefix + 24);
        Push(arg);
        OneOctet(arg);
      } else if arg <= 0xFFFF {
        Push(prefix + 25);
        Extend(BigEndian(arg, 2));
      } else if arg <= 0xFFFF_FFFF {
        Push(prefix + 26);
        Extend(BigEndian(arg, 4));
      } else {
        Push(prefix + 27);
        Extend(BigEndian(arg, 8));
      }
    }

    method PushFloat(x: f64bits)
      requires IsFinite(x)
      modifies this
      ensures data == old(data) + WriteFloat(x)
    {
      hide Narrow, Widen, BigEndian, FloatEq;
      var half := Narrow(F16, x);
      if FloatEq(Widen(F16, half), x) {
        Push(0xF9);
        Extend(BigEndian(half, 2));
        return;
      }
      var single := Narrow(F32, x);
      if FloatEq(Widen(F32, single), x) {
        Push(0xFA);
        Extend(BigEndian(single, 4));
        return;
      }
      Push(0xFB);
      Extend(BigEndian(x, 8));
    }

    /** `write_value`; finiteness is the assertion `write_float` makes of its argument. */
    method WriteValue(value: CborValue)
      requires AllFinite(value)
      modifies this
      ensures data == old(data) + Encode(value)
      decreases value, 1
    {
      hide Head, WriteFloat, Sort, Rows, Concat;
      match value {
        case Uint(n) => WriteHead(UINT, n);
        case ByteString(b) =>
          WriteHead(BYTES, |b|);
          Extend(b);
        case Text(t) =>
          WriteHead(TEXT, |t|);
          Extend(t);
        case Array(items) =>
          WriteHead(ARRAY, |items|);
          WriteItems(value, items);
        case Map(pairs) =>
          WriteHead(MAP, |pairs|);
          WriteEntries(value, pairs);
        case Bool(b) => Push(if b then 0xF5 else 0xF4);
        case Null => Push(0xF6);
        case Float(x) => PushFloat(x);
      }
    }

    method WriteItems(ghost parent: CborValue, items: seq<CborValue>)
      requires parent == Array(items) && AllFinite(parent)
      modifies this
      ensures data == old(data) + Concat(EncodedItems(items))
      decreases parent, 0
    {
      hide Concat, Encode;
      ghost var parts := EncodedItems(items);
      assert Concat([]) == [] by { NothingWritten(); }
      for k := 0 to |items|
        invariant data == old(data) + Concat(parts[..k])
      {
        WriteValue(items[k]);
        ConcatAppend(parts[..k], parts[k]);
        assert parts[..k + 1] == parts[..k] + [parts[k]];
      }
      assert parts[..|items|] == parts;
    }

    method WriteEntries(ghost parent: CborValue, pairs: seq<Pair>)
      requires parent == Map(pairs) && AllFinite(parent)
      modifies this
      ensures data == old(data) + Rows(Sort(KeyLess, EncodedPairs(pairs)))
      decreases parent, 0
    {
      hide Encode, EncodeText, Order, Rows;
      var encodedKeys := seq(|pairs|, i requires 0 <= i < |pairs| => EncodeText(pairs[i].0));
      var indices := SortIndices(Less, encodedKeys);
      ghost var rows := Sort(KeyLess, EncodedPairs(pairs));
      EncodedOrder(Keys(EncodedPairs(pairs)), encodedKeys);
      assert Rows([]) == [] by { NothingWritten(); }
      for k := 0 to |indices|
        invariant data == old(data) + Rows(rows[..k])
      {
        var index := indices[k];
        assert rows[k] == EncodedPairs(pairs)[index];
        Extend(encodedKeys[index]);
        WriteValue(pairs[index].1);
        RowsAppend(rows[..k], rows[k]);
        assert rows[..k + 1] == rows[..k] + [rows[k]];
      }
      assert rows[..|indices|] == rows;
    }
  }

  lemma NothingWritten()
    ensures Concat([]) == [] && Rows([]) == []
  {
  }

  /** `CborValue::encode` */
  method EncodeValue(value: CborValue) returns (out: Bytes)
    requires AllFinite(value)
    ensures out == Encode(value)
  {
    var buffer := new Buffer();
    buffer.WriteValue(value);
    out := buffer.data;
  }

  /** A `Result`, or the panic that ends the program. */
  datatype Outcome<+T> = Ok(value: T) | Err | Panic

  /** A position moving over the input, a slice; after a failed read it is of no further use. */
  class Cursor {
    const bytes: Bytes
    const room: Room
    var pos: nat

    ghost predicate Valid()
      reads this
    {
      pos <= |bytes| < SLICE
    }

    ghost function Rest(): Bytes
      requires Valid()
      reads this
    {
      bytes[pos..]
    }

    constructor (room: Room, bytes: Bytes)
      requires |bytes| < SLICE
      ensures Valid() && this.room == room && this.bytes == bytes && pos == 0
    {
      this.bytes := bytes;
      this.room := room;
      pos := 0;
    }

    /** The sum of position and count is a 64-bit number; a sum that is none ends in a panic. */
    method TakeOctets(count: nat) returns (r: Outcome<Bytes>)
      requires Valid()
      modifies this
      ensures Valid() && pos >= old(pos)
      ensures match r
              case Ok(s) => Take(old(Rest()), count) == Some((s, Rest())) && pos == old(pos) + count
              case Err => Take(old(Rest()), count).None? && !Overruns(|bytes|, old(Rest()), count)
              case Panic => Take(old(Rest()), count).None? && Overruns(|bytes|, old(Rest()), count)
    {
      if pos + count >= U64 {
        return Panic;
      }
      if pos + count > |bytes| {
        return Err;
      }
      r := Ok(bytes[pos..pos + count]);
      pos := pos + count;
      assert old(bytes[pos..])[..count] == r.value && old(bytes[pos..])[count..] == bytes[pos..];
    }

    method ReadArgument(info: nat) returns (r: Option<u64>)
      requires Valid()
      modifies this
      ensures Valid() && pos >= old(pos)
      ensures match r
              case None => ReadArg(Rust, info, old(Rest())).None?
              case Some(n) => ReadArg(Rust, info, old(Rest())) == Some((n, Rest()))
    {
      if info < 24 {
        return Some(info);
      }
      if info > 27 {
        return None;
      }
      var field := TakeOctets(Width(info));
      if !field.Ok? {
        return None;
      }
      Pow256Values();
      var n := FromBigEndian(field.value);
      if n < Minimum(info) {
        return None;
      }
      r := Some(n);
    }

    method ReadFloatValue(info: nat) returns (r: Option<CborValue>)
      requires Valid()
      modifies this
      ensures Valid() && pos >= old(pos)
      ensures match r
              case None => ReadFloat(Rust, info, old(Rest())).None?
              case Some(v) => ReadFloat(Rust, info, old(Rest())) == Some((v, Rest()))
    {
      hide Widen, RoundTrips, FromBigEndian;
      if info < 25 || info > 27 {
        return None;
      }
      var field := TakeOctets(Width(info));
      if !field.Ok? {
        return None;
      }
      Pow256Values();
      var bits := FromBigEndian(field.value);
      if info == 25 {
        return Some(Float(Widen(F16, bits)));
      }
      if info == 26 {
        var number := Widen(F32, bits);
        if !Finite(F32, bits) || RoundTrips(F16, number) {
          return None;
        }
        return Some(Float(number));
      }
      if !IsFinite(bits) || RoundTrips(F16, bits) || RoundTrips(F32, bits) {
        return None;
      }
      r := Some(Float(bits));
    }

    method ReadNext() returns (r: Outcome<CborValue>)
      requires Valid()
      modifies this
      ensures Valid() && pos >= old(pos)
      ensures match r
              case Ok(v) => RunValue(room, |bytes|, old(Rest())) == Got(v, Rest()) && pos > old(pos)
              case Err => RunValue(room, |bytes|, old(Rest())) == Refused
              case Panic => RunValue(room, |bytes|, old(Rest())) == Halted
      decreases |bytes| - pos, 1
    {
      hide ReadArg, ReadFloat, RunBody, ValidUtf8;
      ghost var start := Rest();
      var octet := TakeOctets(1);
      if !octet.Ok? {
        return Err;
      }
      var first := octet.value[0];
      assert start[1..] == Rest() && start[0] == first;
      var major, info := first / 32, first % 32;
      if first == 0xF5 {
        return Ok(Bool(true));
      }
      if first == 0xF4 {
        return Ok(Bool(false));
      }
      if first == 0xF6 {
        return Ok(Null);
      }
      if major == 7 {
        var number := ReadFloatValue(info);
        return if number.None? then Err else Ok(number.value);
      }
      var arg := ReadArgument(info);
      if arg.None? {
        return Err;
      }
      r := ReadContents(major, arg.value);
    }

    /** The match on the major type; `Vec::with_capacity` comes before the first item or pair. */
    method ReadContents(major: nat, n: u64) returns (r: Outcome<CborValue>)
      requires Valid()
      modifies this
      ensures Valid() && pos >= old(pos)
      ensures match r
              case Ok(v) => RunBody(room, |bytes|, major, n, old(Rest())) == Got(v, Rest())
              case Err => RunBody(room, |bytes|, major, n, old(Rest())) == Refused
              case Panic => RunBody(room, |bytes|, major, n, old(Rest())) == Halted
      decreases |bytes| - pos, 3
    {
      hide RunItems, RunPairs, ValidUtf8;
      if major == UINT {
        r := Ok(Uint(n));
      } else if major == BYTES {
        var s := TakeOctets(n);
        r := match s case Ok(octets) => Ok(ByteString(octets)) case Err => Err case Panic => Panic;
      } else if major == TEXT {
        var s := TakeOctets(n);
        r := match s
             case Ok(octets) => if ValidUtf8(octets) then Ok(Text(octets)) else Err
             case Err => Err
             case Panic => Panic;
      } else if major == ARRAY {
        if n > room.items {
          return Panic;
        }
        var items := ReadSequence(n);
        r := match items case Ok(list) => Ok(Array(list)) case Err => Err case Panic => Panic;
      } else if major == MAP {
        if n > room.pairs {
          return Panic;
        }
        var pairs := ReadEntries(n);
        r := match pairs case Ok(list) => Ok(Map(list)) case Err => Err case Panic => Panic;
      } else {
        r := Err;
      }
    }

    method ReadSequence(count: nat) returns (r: Outcome<seq<CborValue>>)
      requires Valid()
      modifies this
      ensures Valid() && pos >= old(pos)
      ensures match r
              case Ok(items) => RunItems(room, count, |bytes|, old(Rest())) == Got(items, Rest())
              case Err => RunItems(room, count, |bytes|, old(Rest())) == Refused
              case Panic => RunItems(room, count, |bytes|, old(Rest())) == Halted
      decreases |bytes| - pos, 2
    {
      hide RunValue;
      var items := [];
      assert var all := RunItems(room, count, |bytes|, Rest()); all.Got? ==> items + all.value == all.value;
      for done := 0 to count
        invariant Valid() && pos >= old(pos) && (done > 0 ==> pos > old(pos))
        invariant RunItems(room, count, |bytes|, old(Rest())) ==
                  match RunItems(room, count - done, |bytes|, Rest())
                  case Got(tail, rest) => Got(items + tail, rest)
                  case Refused => Refused
                  case Halted => Halted
      {
        var item := ReadNext();
        if !item.Ok? {
          return if item.Err? then Err else Panic;
        }
        ghost var tail := RunItems(room, count - done - 1, |bytes|, Rest());
        assert tail.Got? ==> items + ([item.value] + tail.value) == items + [item.value] + tail.value;
        items := items + [item.value];
      }
      assert items + [] == items;
      r := Ok(items);
    }

    method ReadEntries(count: nat) returns (r: Outcome<seq<Pair>>)
      requires Valid()
      modifies this
      ensures Valid() && pos >= old(pos)
      ensures match r
              case Ok(pairs) => RunPairs(room, count, |bytes|, old(Rest())) == Got(pairs, Rest())
              case Err => RunPairs(room, count, |bytes|, old(Rest())) == Refused
              case Panic => RunPairs(room, count, |bytes|, old(Rest())) == Halted
      decreases |bytes| - pos, 2
    {
      hide RunValue;
      var pairs := [];
      assert var all := RunPairs(room, count, |bytes|, Rest()); all.Got? ==> pairs + all.value == all.value;
      for done := 0 to count
        invariant Valid() && pos >= old(pos) && (done > 0 ==> pos > old(pos))
        invariant RunPairs(room, count, |bytes|, old(Rest())) ==
                  match RunPairs(room, count - done, |bytes|, Rest())
                  case Got(tail, rest) => Got(pairs + tail, rest)
                  case Refused => Refused
                  case Halted => Halted
      {
        var key := ReadNext();
        if !key.Ok? {
          return if key.Err? then Err else Panic;
        }
        var value := ReadNext();
        if !value.Ok? {
          return if value.Err? then Err else Panic;
        }
        if !key.value.Text? {
          return Err;
        }
        ghost var tail := RunPairs(room, count - done - 1, |bytes|, Rest());
        var pair := (key.value.text, value.value);
        assert tail.Got? ==> pairs + ([pair] + tail.value) == pairs + [pair] + tail.value;
        pairs := pairs + [pair];
      }
      assert pairs + [] == pairs;
      r := Ok(pairs);
    }
  }

  /** `decode`; a slice is shorter than 2^63. */
  method DecodeBytes(room: Room, bytes: Bytes) returns (r: Outcome<CborValue>)
    requires |bytes| < SLICE
    ensures match r
            case Ok(v) => RunDecode(room, bytes) == Got(v, []) && Decode(Rust, bytes) == Some(v)
            case Err => RunDecode(room, bytes) == Refused && Decode(Rust, bytes).None?
            case Panic => Stops(room, |bytes|, bytes)
  {
    var cursor := new Cursor(room, bytes);
    assert cursor.Rest() == bytes;
    r := cursor.ReadNext();
    if r.Ok? && cursor.pos != |bytes| {
      r := Err;
    }
    RunAgrees(room, |bytes|, bytes);
    HaltsIff(room, |bytes|, bytes);
    hide RunValue, ReadValue, Stops;
  }
}
