/** The standard message codec: tagged values, their encoding and the tolerant decoder. */
module StandardCodec {
  import opened Bytes
  import opened ByteStreams

  type Word32 = x: nat | x < 0x1_0000_0000
  type Word64 = x: nat | x < 0x1_0000_0000_0000_0000

  const SIZE_LIMIT: nat := 0x1_0000_0000

  /** The element type of a typed list. */
  datatype Kind = UInt8Kind | Int32Kind | Int64Kind | Float64Kind | Float32Kind {
    function Width(): (w: nat)
      ensures w > 0
    {
      match this
      case UInt8Kind => 1
      case Int32Kind => 4
      case Int64Kind => 8
      case Float64Kind => 8
      case Float32Kind => 4
    }

    function Tag(): byte {
      match this
      case UInt8Kind => 8
      case Int32Kind => 9
      case Int64Kind => 10
      case Float64Kind => 11
      case Float32Kind => 14
    }
  }

  /** An EncodableValue. Numbers are the unsigned bit patterns of the C++ integers and floats;
      the entries of a map stand in the container's iteration order. */
  datatype Value =
    | Null
    | Bool(flag: bool)
    | Int32(bits32: Word32)
    | Int64(bits64: Word64)
    | Float64(bits: Word64)
    | Str(chars: seq<byte>)
    | Vector(kind: Kind, words: seq<nat>)
    | List(items: seq<Value>)
    | Map(entries: seq<Entry>)
    | Custom
  datatype Entry = Entry(key: Value, value: Value)

  function EncodedTypeForValue(v: Value): byte {
    match v
    case Null => 0
    case Bool(flag) => if flag then 1 else 2
    case Int32(_) => 3
    case Int64(_) => 4
    case Float64(_) => 6
    case Str(_) => 7
    case Vector(kind, _) => kind.Tag()
    case List(_) => 12
    case Map(_) => 13
    case Custom => 0
  }

  // ----- encoding -----

  function SizeBytes(size: nat): (s: seq<byte>)
    ensures |s| == if size < 254 then 1 else if size <= 0xffff then 3 else 5
  {
    if size < 254 then [size]
    else if size <= 0xffff then [254] + ToLE(size, 2)
    else [255] + ToLE(size % SIZE_LIMIT, 4)
  }

  /** What WriteVector appends when the buffer holds pos bytes. */
  function VectorBytes(kind: Kind, words: seq<nat>, pos: nat): (s: seq<byte>) {
    var header := SizeBytes(|words|);
    if |words| == 0 then header
    else
      var start := pos + |header|;
      header + Zeros(Align(start, kind.Width()) - start) + Flatten(words, kind.Width())
  }

  /** What WriteValue appends when the buffer holds pos bytes. */
  function Encode(v: Value, pos: nat): (s: seq<byte>)
    ensures |s| > 0
    decreases v, 1
  {
    [EncodedTypeForValue(v)] + Payload(v, pos + 1)
  }

  function Payload(v: Value, pos: nat): (s: seq<byte>)
    decreases v, 0
  {
    match v
    case Int32(w) => ToLE(w, 4)
    case Int64(w) => ToLE(w, 8)
    case Float64(w) => Zeros(Align(pos, 8) - pos) + ToLE(w, 8)
    case Str(chars) => SizeBytes(|chars|) + chars
    case Vector(kind, words) => VectorBytes(kind, words, pos)
    case List(items) => SizeBytes(|items|) + EncodeItems(items, pos + |SizeBytes(|items|)|)
    case Map(entries) => SizeBytes(|entries|) + EncodeEntries(entries, pos + |SizeBytes(|entries|)|)
    case _ => []
  }

  function EncodeItems(items: seq<Value>, pos: nat): (s: seq<byte>)
    decreases items
  {
    if items == [] then [] else
      var first := Encode(items[0], pos);
      first + EncodeItems(items[1..], pos + |first|)
  }

  function EncodeEntry(e: Entry, pos: nat): (s: seq<byte>)
    decreases e
  {
    var key := Encode(e.key, pos);
    key + Encode(e.value, pos + |key|)
  }

  function EncodeEntries(entries: seq<Entry>, pos: nat): (s: seq<byte>)
    decreases entries
  {
    if entries == [] then [] else
      var first := EncodeEntry(entries[0], pos);
      first + EncodeEntries(entries[1..], pos + |first|)
  }

  /** The first i items, started when the buffer held start bytes, have produced exactly done. */
  ghost predicate ItemsWritten(items: seq<Value>, i: nat, start: nat, done: seq<byte>) {
    i <= |items| && done + EncodeItems(items[i..], start + |done|) == EncodeItems(items, start)
  }

  lemma ItemsWrittenStart(items: seq<Value>, start: nat)
    ensures ItemsWritten(items, 0, start, [])
  {
    assert items[0..] == items;
  }

  lemma ItemsWrittenStep(items: seq<Value>, i: nat, start: nat, done: seq<byte>)
    requires i < |items| && ItemsWritten(items, i, start, done)
    ensures ItemsWritten(items, i + 1, start, done + Encode(items[i], start + |done|))
  {
    var item := Encode(items[i], start + |done|);
    assert items[i..][0] == items[i] && items[i..][1..] == items[i + 1..];
    assert EncodeItems(items[i..], start + |done|) == item + EncodeItems(items[i + 1..], start + |done| + |item|);
  }

  lemma ItemsWrittenEnd(items: seq<Value>, start: nat, done: seq<byte>)
    requires ItemsWritten(items, |items|, start, done)
    ensures done == EncodeItems(items, start)
  {
    assert items[|items|..] == [];
  }

  ghost predicate EntriesWritten(entries: seq<Entry>, i: nat, start: nat, done: seq<byte>) {
    i <= |entries| && done + EncodeEntries(entries[i..], start + |done|) == EncodeEntries(entries, start)
  }

  lemma EntriesWrittenStart(entries: seq<Entry>, start: nat)
    ensures EntriesWritten(entries, 0, start, [])
  {
    assert entries[0..] == entries;
  }

  lemma EntriesWrittenStep(entries: seq<Entry>, i: nat, start: nat, done: seq<byte>)
    requires i < |entries| && EntriesWritten(entries, i, start, done)
    ensures EntriesWritten(entries, i + 1, start, done + EncodeEntry(entries[i], start + |done|))
  {
    var entry := EncodeEntry(entries[i], start + |done|);
    assert entries[i..][0] == entries[i] && entries[i..][1..] == entries[i + 1..];
    assert EncodeEntries(entries[i..], start + |done|)
        == entry + EncodeEntries(entries[i + 1..], start + |done| + |entry|);
  }

  lemma EntriesWrittenEnd(entries: seq<Entry>, start: nat, done: seq<byte>)
    requires EntriesWritten(entries, |entries|, start, done)
    ensures done == EncodeEntries(entries, start)
  {
    assert entries[|entries|..] == [];
  }

  // ----- decoding -----

  function SizeAt(buf: seq<byte>, pos: nat): (r: Parsed<nat>)
    ensures pos <= r.next
    ensures r.value < SIZE_LIMIT
  {
    PowValues();
    var b := ByteAt(buf, pos);
    if b.value < 254 then Parsed(b.value, b.next)
    else
      var block := BlockAt(buf, b.next, Zeros(if b.value == 254 then 2 else 4));
      Parsed(FromLE(block.value), block.next)
  }

  function WordAt(buf: seq<byte>, pos: nat, width: nat): (r: Parsed<nat>)
    ensures pos <= r.next
    ensures r.value < Pow256(width)
  {
    var block := BlockAt(buf, pos, Zeros(width));
    Parsed(FromLE(block.value), block.next)
  }

  function VectorAt(buf: seq<byte>, pos: nat, kind: Kind): (r: Parsed<Value>)
    ensures pos <= r.next
  {
    var size := SizeAt(buf, pos);
    var start := if kind.Width() > 1 then Align(size.next, kind.Width()) else size.next;
    var block := BlockAt(buf, start, Zeros(size.value * kind.Width()));
    Parsed(Vector(kind, Unflatten(block.value, size.value, kind.Width())), block.next)
  }

  function Remaining(buf: seq<byte>, pos: nat): nat {
    if pos < |buf| then |buf| - pos else 0
  }

  /** ReadValue, on any bytes and from any position. */
  function Decode(buf: seq<byte>, pos: nat): (r: Parsed<Value>)
    ensures pos <= r.next
    decreases Remaining(buf, pos), 1, 0
  {
    var tag := ByteAt(buf, pos);
    DecodeOfType(buf, tag.value, tag.next)
  }

  function DecodeOfType(buf: seq<byte>, tag: byte, pos: nat): (r: Parsed<Value>)
    ensures pos <= r.next
    decreases Remaining(buf, pos), if tag == 0 then 0 else 3, 0
  {
    if tag == 0 then Parsed(Null, pos)
    else if tag == 1 then Parsed(Bool(true), pos)
    else if tag == 2 then Parsed(Bool(false), pos)
    else if tag == 3 then
      PowValues();
      var w := WordAt(buf, pos, 4);
      Parsed(Int32(w.value), w.next)
    else if tag == 4 then
      PowValues();
      var w := WordAt(buf, pos, 8);
      Parsed(Int64(w.value), w.next)
    else if tag == 6 then
      PowValues();
      var w := WordAt(buf, Align(pos, 8), 8);
      Parsed(Float64(w.value), w.next)
    else if tag == 5 || tag == 7 then
      var size := SizeAt(buf, pos);
      var block := BlockAt(buf, size.next, Zeros(size.value));
      Parsed(Str(block.value), block.next)
    else if tag == 8 then VectorAt(buf, pos, UInt8Kind)
    else if tag == 9 then VectorAt(buf, pos, Int32Kind)
    else if tag == 10 then VectorAt(buf, pos, Int64Kind)
    else if tag == 11 then VectorAt(buf, pos, Float64Kind)
    else if tag == 12 then
      var size := SizeAt(buf, pos);
      var items := DecodeItems(buf, size.next, size.value);
      Parsed(List(items.value), items.next)
    else if tag == 13 then
      var size := SizeAt(buf, pos);
      var entries := DecodeEntries(buf, size.next, size.value, []);
      Parsed(Map(entries.value), entries.next)
    else if tag == 14 then VectorAt(buf, pos, Float32Kind)
    else Parsed(Null, pos)
  }

  function DecodeItems(buf: seq<byte>, pos: nat, count: nat): (r: Parsed<seq<Value>>)
    ensures pos <= r.next && |r.value| == count
    decreases Remaining(buf, pos), 2, count
  {
    if count == 0 then Parsed([], pos) else
      var first := Decode(buf, pos);
      var rest := DecodeItems(buf, first.next, count - 1);
      Parsed([first.value] + rest.value, rest.next)
  }

  /** map_value.emplace: an entry whose key is already there is dropped. */
  function Emplace(entries: seq<Entry>, e: Entry): seq<Entry> {
    if HasKey(entries, e.key) then entries else entries + [e]
  }

  predicate HasKey(entries: seq<Entry>, key: Value) {
    exists i :: 0 <= i < |entries| && entries[i].key == key
  }

  function DecodeEntries(buf: seq<byte>, pos: nat, count: nat, entries: seq<Entry>): (r: Parsed<seq<Entry>>)
    ensures pos <= r.next && entries <= r.value
    decreases Remaining(buf, pos), 2, count
  {
    if count == 0 then Parsed(entries, pos) else
      var key := Decode(buf, pos);
      var value := Decode(buf, key.next);
      DecodeEntries(buf, value.next, count - 1, Emplace(entries, Entry(key.value, value.value)))
  }

  // ----- the serializer -----

  class StandardCodecSerializer {

    constructor () {}

    method ReadSize(stream: ByteBufferStreamReader) returns (size: nat)
      modifies stream
      ensures Parsed(size, stream.location) == SizeAt(stream.bytes, old(stream.location))
    {
      var b := stream.ReadByte();
      if b < 254 {
        return b;
      } else if b == 254 {
        var value := stream.ReadBytes(Zeros(2));
        return FromLE(value);
      } else {
        var value := stream.ReadBytes(Zeros(4));
        return FromLE(value);
      }
    }

    method WriteSize(size: nat, stream: ByteBufferStreamWriter)
      modifies stream
      ensures stream.bytes == old(stream.bytes) + SizeBytes(size)
    {
      if size < 254 {
        stream.WriteByte(size);
      } else if size <= 0xffff {
        stream.WriteByte(254);
        stream.WriteBytes(ToLE(size, 2));
      } else {
        stream.WriteByte(255);
        stream.WriteBytes(ToLE(size % SIZE_LIMIT, 4));
      }
    }

    method ReadWord(stream: ByteBufferStreamReader, width: nat) returns (word: nat)
      modifies stream
      ensures Parsed(word, stream.location) == WordAt(stream.bytes, old(stream.location), width)
    {
      var value := stream.ReadBytes(Zeros(width));
      word := FromLE(value);
    }

    method ReadVector(kind: Kind, stream: ByteBufferStreamReader) returns (v: Value)
      modifies stream
      ensures Parsed(v, stream.location) == VectorAt(stream.bytes, old(stream.location), kind)
    {
      var count := ReadSize(stream);
      var typeSize := kind.Width();
      if typeSize > 1 {
        stream.ReadAlignment(typeSize);
      }
      var data := stream.ReadBytes(Zeros(count * typeSize));
      v := Vector(kind, Unflatten(data, count, typeSize));
    }

    method WriteVector(kind: Kind, words: seq<nat>, stream: ByteBufferStreamWriter)
      modifies stream
      ensures stream.bytes == old(stream.bytes) + VectorBytes(kind, words, |old(stream.bytes)|)
    {
      hide SizeBytes, Flatten;
      var count := |words|;
      WriteSize(count, stream);
      if count == 0 {
        return;
      }
      var typeSize := kind.Width();
      ghost var header, start := SizeBytes(count), |stream.bytes|;
      if typeSize > 1 {
        stream.WriteAlignment(typeSize);
      }
      ghost var pad := Zeros(Align(start, typeSize) - start);
      Assoc(old(stream.bytes), header, pad);
      assert count * typeSize > 0;
      stream.WriteBytes(Flatten(words, typeSize));
      Assoc(old(stream.bytes), header + pad, Flatten(words, typeSize));
    }

    method ReadValue(stream: ByteBufferStreamReader) returns (v: Value)
      modifies stream
      ensures Parsed(v, stream.location) == Decode(stream.bytes, old(stream.location))
      decreases Remaining(stream.bytes, stream.location), 1
    {
      var tag := stream.ReadByte();
      v := ReadValueOfType(tag, stream);
    }

    method ReadValueOfType(tag: byte, stream: ByteBufferStreamReader) returns (v: Value)
      modifies stream
      ensures Parsed(v, stream.location) == DecodeOfType(stream.bytes, tag, old(stream.location))
      decreases Remaining(stream.bytes, stream.location), if tag == 0 then 0 else 3
    {
      PowValues();
      match tag {
        case 0 => v := Null;
        case 1 => v := Bool(true);
        case 2 => v := Bool(false);
        case 3 =>
          var word := ReadWord(stream, 4);
          v := Int32(word);
        case 4 =>
          var word := ReadWord(stream, 8);
          v := Int64(word);
        case 6 =>
          stream.ReadAlignment(8);
          var word := ReadWord(stream, 8);
          v := Float64(word);
        case 5 | 7 =>
          var size := ReadSize(stream);
          var chars := stream.ReadBytes(Zeros(size));
          v := Str(chars);
        case 8 => v := ReadVector(UInt8Kind, stream);
        case 9 => v := ReadVector(Int32Kind, stream);
        case 10 => v := ReadVector(Int64Kind, stream);
        case 11 => v := ReadVector(Float64Kind, stream);
        case 12 => v := ReadList(stream);
        case 13 => v := ReadMap(stream);
        case 14 => v := ReadVector(Float32Kind, stream);
        case _ => v := Null;
      }
    }

    method ReadList(stream: ByteBufferStreamReader) returns (v: Value)
      modifies stream
      ensures Parsed(v, stream.location) == DecodeOfType(stream.bytes, 12, old(stream.location))
      decreases Remaining(stream.bytes, stream.location), 2, 1
    {
      var length := ReadSize(stream);
      var items := ReadItems(length, stream);
      v := List(items);
    }

    method ReadItems(length: nat, stream: ByteBufferStreamReader) returns (items: seq<Value>)
      modifies stream
      ensures Parsed(items, stream.location) == DecodeItems(stream.bytes, old(stream.location), length)
      decreases Remaining(stream.bytes, stream.location), 2, 0
    {
      hide Decode;
      ghost var from := stream.location;
      ghost var whole := DecodeItems(stream.bytes, from, length);
      items := [];
      for i := 0 to length
        invariant from <= stream.location
        invariant whole.value == items + DecodeItems(stream.bytes, stream.location, length - i).value
        invariant whole.next == DecodeItems(stream.bytes, stream.location, length - i).next
      {
        var item := ReadValue(stream);
        items := items + [item];
      }
      assert items == whole.value;
    }

    method ReadMap(stream: ByteBufferStreamReader) returns (v: Value)
      modifies stream
      ensures Parsed(v, stream.location) == DecodeOfType(stream.bytes, 13, old(stream.location))
      decreases Remaining(stream.bytes, stream.location), 2, 1
    {
      var length := ReadSize(stream);
      var entries := ReadEntries(length, stream);
      v := Map(entries);
    }

    method ReadEntries(length: nat, stream: ByteBufferStreamReader) returns (entries: seq<Entry>)
      modifies stream
      ensures Parsed(entries, stream.location) == DecodeEntries(stream.bytes, old(stream.location), length, [])
      decreases Remaining(stream.bytes, stream.location), 2, 0
    {
      hide Decode;
      ghost var from := stream.location;
      ghost var whole := DecodeEntries(stream.bytes, from, length, []);
      entries := [];
      for i := 0 to length
        invariant from <= stream.location
        invariant whole == DecodeEntries(stream.bytes, stream.location, length - i, entries)
      {
        var key := ReadValue(stream);
        var value := ReadValue(stream);
        entries := Emplace(entries, Entry(key, value));
      }
    }

    method WriteValue(v: Value, stream: ByteBufferStreamWriter)
      modifies stream
      ensures stream.bytes == old(stream.bytes) + Encode(v, |old(stream.bytes)|)
      decreases v, 1
    {
      stream.WriteByte(EncodedTypeForValue(v));
      WritePayload(v, stream);
    }

    method WritePayload(v: Value, stream: ByteBufferStreamWriter)
      modifies stream
      ensures stream.bytes == old(stream.bytes) + Payload(v, |old(stream.bytes)|)
      decreases v, 0
    {
      match v {
        case Null =>
        case Bool(_) =>
        case Int32(w) => stream.WriteBytes(ToLE(w, 4));
        case Int64(w) => stream.WriteBytes(ToLE(w, 8));
        case Float64(w) =>
          stream.WriteAlignment(8);
          stream.WriteBytes(ToLE(w, 8));
        case Str(chars) =>
          WriteSize(|chars|, stream);
          if |chars| > 0 {
            stream.WriteBytes(chars);
          }
          Assoc(old(stream.bytes), SizeBytes(|chars|), chars);
        case Vector(kind, words) => WriteVector(kind, words, stream);
        case List(items) => WriteList(items, stream);
        case Map(entries) => WriteMap(entries, stream);
        case Custom =>
      }
    }

    method WriteList(items: seq<Value>, stream: ByteBufferStreamWriter)
      modifies stream
      ensures stream.bytes == old(stream.bytes) + Payload(List(items), |old(stream.bytes)|)
      decreases items, 1
    {
      WriteSize(|items|, stream);
      ghost var start := |stream.bytes|;
      WriteItems(items, stream);
      Assoc(old(stream.bytes), SizeBytes(|items|), EncodeItems(items, start));
    }

    method WriteItems(items: seq<Value>, stream: ByteBufferStreamWriter)
      modifies stream
      ensures stream.bytes == old(stream.bytes) + EncodeItems(items, |old(stream.bytes)|)
      decreases items, 0
    {
      hide Encode, EncodeEntry, ItemsWritten, EntriesWritten;
      ghost var start, done := stream.bytes, [];
      ItemsWrittenStart(items, |start|);
      for i := 0 to |items|
        invariant stream.bytes == start + done
        invariant ItemsWritten(items, i, |start|, done)
      {
        ghost var bytes := Encode(items[i], |start| + |done|);
        ItemsWrittenStep(items, i, |start|, done);
        WriteValue(items[i], stream);
        Assoc(start, done, bytes);
        done := done + bytes;
      }
      ItemsWrittenEnd(items, |start|, done);
    }

    method WriteMap(entries: seq<Entry>, stream: ByteBufferStreamWriter)
      modifies stream
      ensures stream.bytes == old(stream.bytes) + Payload(Map(entries), |old(stream.bytes)|)
      decreases entries, 1
    {
      WriteSize(|entries|, stream);
      ghost var start := |stream.bytes|;
      WriteEntries(entries, stream);
      Assoc(old(stream.bytes), SizeBytes(|entries|), EncodeEntries(entries, start));
    }

    method WriteEntries(entries: seq<Entry>, stream: ByteBufferStreamWriter)
      modifies stream
      ensures stream.bytes == old(stream.bytes) + EncodeEntries(entries, |old(stream.bytes)|)
      decreases entries, 0
    {
      hide Encode, EncodeEntry, ItemsWritten, EntriesWritten;
      ghost var start, done := stream.bytes, [];
      EntriesWrittenStart(entries, |start|);
      for i := 0 to |entries|
        invariant stream.bytes == start + done
        invariant EntriesWritten(entries, i, |start|, done)
      {
        ghost var bytes := EncodeEntry(entries[i], |start| + |done|);
        EntriesWrittenStep(entries, i, |start|, done);
        WriteEntry(entries[i], stream);
        Assoc(start, done, bytes);
        done := done + bytes;
      }
      EntriesWrittenEnd(entries, |start|, done);
    }

    method WriteEntry(e: Entry, stream: ByteBufferStreamWriter)
      modifies stream
      ensures stream.bytes == old(stream.bytes) + EncodeEntry(e, |old(stream.bytes)|)
      decreases e
    {
      hide Encode;
      WriteValue(e.key, stream);
      ghost var keyEnd := |stream.bytes|;
      WriteValue(e.value, stream);
      Assoc(old(stream.bytes), Encode(e.key, |old(stream.bytes)|), Encode(e.value, keyEnd));
    }
  }
}
