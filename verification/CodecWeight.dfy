/** The bytes of an encoding that are not zero: as many wherever a value is written, and no read gives a value that has
    more of them than the bytes it took. */
module CodecWeight {
  import opened Bytes
  import opened ByteStreams
  import opened StandardCodec
  import opened CodecRoundTrip
  import opened CodecExact

  // ----- bytes that are not zero -----

  /** How many bytes from a up to b are not zero. */
  function Marks(buf: seq<byte>, a: nat, b: nat): nat
    decreases b - a
  {
    if a >= b then 0 else (if a < |buf| && buf[a] != 0 then 1 else 0) + Marks(buf, a + 1, b)
  }

  function Count(s: seq<byte>): nat {
    Marks(s, 0, |s|)
  }

  lemma {:induction false} MarksSplit(buf: seq<byte>, a: nat, m: nat, b: nat)
    requires a <= m <= b
    ensures Marks(buf, a, b) == Marks(buf, a, m) + Marks(buf, m, b)
    decreases m - a
  {
    if a < m {
      MarksSplit(buf, a + 1, m, b);
    }
  }

  lemma {:induction false} MarksSame(buf: seq<byte>, a: nat, s: seq<byte>, c: nat, n: nat)
    requires a + n <= |buf| && c + n <= |s| && buf[a..a + n] == s[c..c + n]
    ensures Marks(buf, a, a + n) == Marks(s, c, c + n)
    decreases n
  {
    if n > 0 {
      assert buf[a] == buf[a..a + n][0] && s[c] == s[c..c + n][0];
      assert buf[a + 1..a + n] == buf[a..a + n][1..] && s[c + 1..c + n] == s[c..c + n][1..];
      MarksSame(buf, a + 1, s, c + 1, n - 1);
    }
  }

  lemma MarksAt(buf: seq<byte>, pos: nat, s: seq<byte>)
    requires At(buf, pos, s)
    ensures Marks(buf, pos, pos + |s|) == Count(s)
  {
    assert s[0..|s|] == s;
    MarksSame(buf, pos, s, 0, |s|);
  }

  lemma CountTwo(s: seq<byte>, t: seq<byte>)
    ensures Count(s + t) == Count(s) + Count(t)
  {
    assert (s + t)[0..|s|] == s == s[0..|s|] && (s + t)[|s|..|s| + |t|] == t == t[0..|t|];
    MarksSplit(s + t, 0, |s|, |s + t|);
    MarksSame(s + t, 0, s, 0, |s|);
    MarksSame(s + t, |s|, t, 0, |t|);
  }

  lemma {:induction false} MarksNone(buf: seq<byte>, a: nat, b: nat)
    requires forall i :: a <= i < b && i < |buf| ==> buf[i] == 0
    ensures Marks(buf, a, b) == 0
    decreases b - a
  {
    if a < b {
      MarksNone(buf, a + 1, b);
    }
  }

  lemma {:induction false} MarksZero(buf: seq<byte>, a: nat, b: nat, i: nat)
    requires Marks(buf, a, b) == 0 && a <= i < b && i < |buf|
    ensures buf[i] == 0
    decreases b - a
  {
    if a < i {
      MarksZero(buf, a + 1, b, i);
    }
  }

  // ----- the weight of a value -----

  /** How many bytes of the encoding are not zero, wherever it is written. */
  function Weight(v: Value): nat
    decreases v
  {
    match v
    case Null => 0
    case Custom => 0
    case Bool(_) => 1
    case Int32(w) => 1 + Count(ToLE(w, 4))
    case Int64(w) => 1 + Count(ToLE(w, 8))
    case Float64(w) => 1 + Count(ToLE(w, 8))
    case Str(chars) => 1 + Count(SizeBytes(|chars|)) + Count(chars)
    case Vector(kind, words) => 1 + Count(SizeBytes(|words|)) + Count(Flatten(words, kind.Width()))
    case List(items) => 1 + Count(SizeBytes(|items|)) + WeightItems(items)
    case Map(entries) => 1 + Count(SizeBytes(|entries|)) + WeightEntries(entries)
  }

  function WeightItems(items: seq<Value>): nat
    decreases items
  {
    if items == [] then 0 else Weight(items[0]) + WeightItems(items[1..])
  }

  function WeightEntry(e: Entry): nat
    decreases e
  {
    Weight(e.key) + Weight(e.value)
  }

  function WeightEntries(entries: seq<Entry>): nat
    decreases entries
  {
    if entries == [] then 0 else WeightEntry(entries[0]) + WeightEntries(entries[1..])
  }

  lemma CountZeros(n: nat)
    ensures Count(Zeros(n)) == 0
  {
    MarksNone(Zeros(n), 0, n);
  }

  lemma CountOne(b: byte)
    ensures Count([b]) == if b == 0 then 0 else 1
  {
    assert Marks([b], 1, 1) == 0;
  }

  lemma {:induction false} EncodeWeight(v: Value, pos: nat)
    ensures Count(Encode(v, pos)) == Weight(v)
    decreases v, 1
  {
    hide Count, Payload, Weight;
    CountTwo([EncodedTypeForValue(v)], Payload(v, pos + 1));
    CountOne(EncodedTypeForValue(v));
    PayloadWeight(v, pos + 1);
  }

  lemma {:induction false} PayloadWeight(v: Value, pos: nat)
    ensures Weight(v) == (if EncodedTypeForValue(v) == 0 then 0 else 1) + Count(Payload(v, pos))
    decreases v, 0
  {
    hide Count, SizeBytes, Flatten, Zeros, EncodeItems, EncodeEntries, WeightItems, WeightEntries;
    CountNothing();
    match v {
      case Float64(w) =>
        CountTwo(Zeros(Align(pos, 8) - pos), ToLE(w, 8));
        CountZeros(Align(pos, 8) - pos);
      case Str(chars) => CountTwo(SizeBytes(|chars|), chars);
      case Vector(kind, words) => VectorWeight(kind, words, pos);
      case List(items) =>
        var from := pos + |SizeBytes(|items|)|;
        CountTwo(SizeBytes(|items|), EncodeItems(items, from));
        ItemsWeight(items, from);
      case Map(entries) =>
        var from := pos + |SizeBytes(|entries|)|;
        CountTwo(SizeBytes(|entries|), EncodeEntries(entries, from));
        EntriesWeight(entries, from);
      case _ =>
    }
  }

  lemma CountNothing()
    ensures Count([]) == 0
  {
  }

  lemma PaddedWeight(header: seq<byte>, padding: nat, data: seq<byte>)
    ensures Count(header + Zeros(padding) + data) == Count(header) + Count(data)
  {
    hide Count, Zeros;
    CountTwo(header + Zeros(padding), data);
    CountTwo(header, Zeros(padding));
    CountZeros(padding);
  }

  lemma VectorShape(kind: Kind, words: seq<nat>, pos: nat) returns (padding: nat)
    ensures VectorBytes(kind, words, pos) == SizeBytes(|words|) + Zeros(padding) + Flatten(words, kind.Width())
  {
    hide SizeBytes, Zeros, Align, Flatten;
    var header := SizeBytes(|words|);
    var start := pos + |header|;
    if words == [] {
      padding := 0;
      FlattenNothing(kind.Width());
      assert header + Zeros(0) + [] == header;
    } else {
      padding := Align(start, kind.Width()) - start;
    }
  }

  lemma VectorWeight(kind: Kind, words: seq<nat>, pos: nat)
    ensures Count(VectorBytes(kind, words, pos)) == Count(SizeBytes(|words|)) + Count(Flatten(words, kind.Width()))
  {
    hide *;
    var padding := VectorShape(kind, words, pos);
    PaddedWeight(SizeBytes(|words|), padding, Flatten(words, kind.Width()));
  }

  lemma FlattenNothing(width: nat)
    ensures Flatten([], width) == []
  {
  }

  lemma {:induction false} ItemsWeight(items: seq<Value>, pos: nat)
    ensures Count(EncodeItems(items, pos)) == WeightItems(items)
    decreases items
  {
    hide Count, Encode, Weight;
    CountNothing();
    if items != [] {
      var first := Encode(items[0], pos);
      EncodeWeight(items[0], pos);
      CountTwo(first, EncodeItems(items[1..], pos + |first|));
      ItemsWeight(items[1..], pos + |first|);
    }
  }

  lemma {:induction false} EntriesWeight(entries: seq<Entry>, pos: nat)
    ensures Count(EncodeEntries(entries, pos)) == WeightEntries(entries)
    decreases entries
  {
    hide Count, EncodeEntry, WeightEntry;
    CountNothing();
    if entries != [] {
      var first := EncodeEntry(entries[0], pos);
      EntryWeight(entries[0], pos);
      CountTwo(first, EncodeEntries(entries[1..], pos + |first|));
      EntriesWeight(entries[1..], pos + |first|);
    }
  }

  lemma {:induction false} EntryWeight(e: Entry, pos: nat)
    ensures Count(EncodeEntry(e, pos)) == WeightEntry(e)
    decreases e
  {
    hide Count, Encode, Weight;
    var key := Encode(e.key, pos);
    EncodeWeight(e.key, pos);
    EncodeWeight(e.value, pos + |key|);
    CountTwo(key, Encode(e.value, pos + |key|));
  }

  /** Every map in the value has fewer than 254 entries, so that its size is one byte. */
  ghost predicate ShortMaps(v: Value)
    decreases v
  {
    match v
    case List(items) => ShortItems(items)
    case Map(entries) => |entries| < 254 && ShortEntries(entries)
    case _ => true
  }

  ghost predicate ShortItems(items: seq<Value>)
    decreases items
  {
    items != [] ==> ShortMaps(items[0]) && ShortItems(items[1..])
  }

  ghost predicate ShortEntries(entries: seq<Entry>)
    decreases entries
  {
    entries != [] ==> ShortEntry(entries[0]) && ShortEntries(entries[1..])
  }

  ghost predicate ShortEntry(e: Entry)
    decreases e
  {
    ShortMaps(e.key) && ShortMaps(e.value)
  }

  // ----- a read takes at least the weight of what it gives -----

  lemma BlockWeight(buf: seq<byte>, pos: nat, size: nat)
    ensures var block := BlockAt(buf, pos, Zeros(size)); Count(block.value) <= Marks(buf, pos, block.next)
  {
    hide Count, Marks;
    CountZeros(size);
    if pos + size <= |buf| {
      MarksAt(buf, pos, buf[pos..pos + size]);
    }
  }

  lemma LowByte(b: byte, n: nat)
    ensures (b + 256 * n) % 256 == b && (b + 256 * n) / 256 == n
  {
  }

  lemma {:induction false} ToFromLE(s: seq<byte>)
    ensures ToLE(FromLE(s), |s|) == s
  {
    if s != [] {
      var rest := FromLE(s[1..]);
      ToFromLE(s[1..]);
      LowByte(s[0], rest);
      assert ToLE(s[0] + 256 * rest, |s|) == [s[0]] + ToLE(rest, |s| - 1);
      assert s == [s[0]] + s[1..];
    }
  }

  lemma WordWeight(buf: seq<byte>, pos: nat, width: nat)
    ensures var word := WordAt(buf, pos, width); Count(ToLE(word.value, width)) <= Marks(buf, pos, word.next)
  {
    hide Count, Marks, Zeros;
    BlockWeight(buf, pos, width);
    ToFromLE(BlockAt(buf, pos, Zeros(width)).value);
  }

  lemma FlattenCons(word: nat, rest: seq<nat>, width: nat)
    ensures Flatten([word] + rest, width) == ToLE(word, width) + Flatten(rest, width)
  {
    hide ToLE;
    assert ([word] + rest)[1..] == rest;
  }

  lemma UnflattenCons(s: seq<byte>, count: nat, width: nat)
    requires count > 0 && |s| == count * width
    ensures width <= |s| && |s[width..]| == (count - 1) * width
    ensures Unflatten(s, count, width) == [FromLE(s[..width])] + Unflatten(s[width..], count - 1, width)
  {
    hide FromLE;
    assert count * width == width + (count - 1) * width;
  }

  lemma {:induction false} FlattenUnflatten(s: seq<byte>, count: nat, width: nat)
    requires |s| == count * width
    ensures Flatten(Unflatten(s, count, width), width) == s
    decreases count
  {
    hide Flatten, ToLE, FromLE;
    if count == 0 {
      FlattenNothing(width);
      assert s == [] && Unflatten(s, 0, width) == [];
    } else {
      UnflattenCons(s, count, width);
      hide Unflatten;
      ToFromLE(s[..width]);
      FlattenUnflatten(s[width..], count - 1, width);
      FlattenCons(FromLE(s[..width]), Unflatten(s[width..], count - 1, width), width);
      assert s == s[..width] + s[width..];
    }
  }

  lemma LowBytes(n: nat)
    ensures Count(ToLE(n, 2)) <= Count(ToLE(n, 4))
  {
    hide Count;
    assert ToLE(n, 4) == ToLE(n, 2) + ToLE(n / 256 / 256, 2);
    CountTwo(ToLE(n, 2), ToLE(n / 256 / 256, 2));
  }

  /** A size of three or five bytes weighs at least what its shortest form weighs. */
  lemma WideSizeWeight(tag: byte, block: seq<byte>)
    requires (tag == 254 && |block| == 2) || (tag == 255 && |block| == 4)
    ensures FromLE(block) < SIZE_LIMIT && Count(SizeBytes(FromLE(block))) <= 1 + Count(block)
  {
    hide Count, ToLE, FromLE;
    PowValues();
    var size := FromLE(block);
    ToFromLE(block);
    LowBytes(size);
    CountOne(254);
    CountOne(255);
    if size < 254 {
      CountOne(size);
    } else if size <= 0xffff {
      CountTwo([254], ToLE(size, 2));
    } else {
      CountTwo([255], ToLE(size, 4));
    }
  }

  lemma SmallSize(size: nat)
    ensures size < 254 ==> Count(SizeBytes(size)) == if size == 0 then 0 else 1
    ensures size >= 254 ==> Count(SizeBytes(size)) > 0
  {
    hide Count, ToLE;
    CountOne(254);
    CountOne(255);
    if size < 254 {
      CountOne(size);
    } else if size <= 0xffff {
      CountTwo([254], ToLE(size, 2));
    } else {
      CountTwo([255], ToLE(size % SIZE_LIMIT, 4));
    }
  }

  lemma MarkFirst(buf: seq<byte>, pos: nat, next: nat)
    requires pos < next
    ensures Marks(buf, pos, next) == (if ByteAt(buf, pos).value == 0 then 0 else 1) + Marks(buf, pos + 1, next)
  {
  }

  lemma SizeWeight(buf: seq<byte>, pos: nat)
    ensures var size := SizeAt(buf, pos); Count(SizeBytes(size.value)) <= Marks(buf, pos, size.next)
  {
    hide Count, SizeBytes, FromLE, Zeros, BlockAt, Marks;
    var b := ByteAt(buf, pos);
    SmallSize(b.value);
    if pos < |buf| {
      var width := if b.value == 254 then 2 else 4;
      BlockOnward(buf, pos + 1, width);
      MarkFirst(buf, pos, SizeAt(buf, pos).next);
      if b.value >= 254 {
        BlockWeight(buf, pos + 1, width);
        WideSizeWeight(b.value, BlockAt(buf, pos + 1, Zeros(width)).value);
      }
    }
  }

  lemma VectorReadWeight(buf: seq<byte>, pos: nat, kind: Kind)
    ensures var v := VectorAt(buf, pos, kind); Weight(v.value) <= 1 + Marks(buf, pos, v.next)
  {
    hide Count, SizeAt, SizeBytes, BlockAt, Zeros, Align, Flatten, Unflatten, Marks;
    var size, width := SizeAt(buf, pos), kind.Width();
    var start := if width > 1 then Align(size.next, width) else size.next;
    var block := BlockAt(buf, start, Zeros(size.value * width));
    SizeWeight(buf, pos);
    BlockWeight(buf, start, size.value * width);
    FlattenUnflatten(block.value, size.value, width);
    BlockOnward(buf, start, size.value * width);
    MarksSplit(buf, pos, size.next, block.next);
    MarksSplit(buf, size.next, start, block.next);
  }

  lemma BlockOnward(buf: seq<byte>, pos: nat, size: nat)
    ensures pos <= BlockAt(buf, pos, Zeros(size)).next
  {
  }

  lemma ScalarReadWeight(buf: seq<byte>, tag: byte, pos: nat)
    requires tag !in [8, 9, 10, 11, 12, 13, 14]
    ensures var v := DecodeOfType(buf, tag, pos);
            Weight(v.value) <= (if tag == 0 then 0 else 1) + Marks(buf, pos, v.next)
  {
    hide Count, SizeAt, SizeBytes, BlockAt, Zeros, Align, WordAt, ToLE, Marks;
    PowValues();
    if tag == 3 || tag == 4 {
      WordWeight(buf, pos, if tag == 3 then 4 else 8);
    } else if tag == 6 {
      WordWeight(buf, Align(pos, 8), 8);
      MarksSplit(buf, pos, Align(pos, 8), WordAt(buf, Align(pos, 8), 8).next);
    } else if tag == 5 || tag == 7 {
      var size := SizeAt(buf, pos);
      SizeWeight(buf, pos);
      BlockWeight(buf, size.next, size.value);
      BlockOnward(buf, size.next, size.value);
      MarksSplit(buf, pos, size.next, BlockAt(buf, size.next, Zeros(size.value)).next);
    }
  }

  /** Whatever the bytes are, the value that is read weighs no more than the bytes that are taken. A longer map whose
      repeated keys are dropped can announce its size in fewer bytes, so the maps are to be short. */
  lemma {:induction false} DecodeWeight(buf: seq<byte>, pos: nat)
    ensures var v := Decode(buf, pos); ShortMaps(v.value) ==> Weight(v.value) <= Marks(buf, pos, v.next)
    decreases Remaining(buf, pos), 1, 0
  {
    hide DecodeOfType, Weight, Marks, ShortMaps;
    OfTypeWeight(buf, ByteAt(buf, pos).value, ByteAt(buf, pos).next);
    if pos < |buf| {
      MarkFirst(buf, pos, Decode(buf, pos).next);
    }
  }

  lemma {:induction false} OfTypeWeight(buf: seq<byte>, tag: byte, pos: nat)
    ensures var v := DecodeOfType(buf, tag, pos);
            ShortMaps(v.value) ==> Weight(v.value) <= (if tag == 0 then 0 else 1) + Marks(buf, pos, v.next)
    decreases Remaining(buf, pos), if tag == 0 then 0 else 3, 0
  {
    hide Count, SizeAt, SizeBytes, VectorAt, DecodeItems, DecodeEntries, WeightItems, WeightEntries, Marks, ShortItems,
      ShortEntries;
    if tag == 12 || tag == 13 {
      var size := SizeAt(buf, pos);
      SizeWeight(buf, pos);
      if tag == 12 {
        ItemsReadWeight(buf, size.next, size.value);
        MarksSplit(buf, pos, size.next, DecodeItems(buf, size.next, size.value).next);
      } else {
        var entries := DecodeEntries(buf, size.next, size.value, []);
        EntriesReadWeight(buf, size.next, size.value, []);
        EmplacedCount(buf, size.next, size.value, []);
        SmallSize(size.value);
        SmallSize(|entries.value|);
        MarksSplit(buf, pos, size.next, entries.next);
        assert entries.value[0..] == entries.value;
      }
    } else if tag in [8, 9, 10, 11, 14] {
      VectorReadWeight(buf, pos, UInt8Kind);
      VectorReadWeight(buf, pos, Int32Kind);
      VectorReadWeight(buf, pos, Int64Kind);
      VectorReadWeight(buf, pos, Float64Kind);
      VectorReadWeight(buf, pos, Float32Kind);
    } else {
      ScalarReadWeight(buf, tag, pos);
    }
  }

  lemma {:induction false} ItemsReadWeight(buf: seq<byte>, pos: nat, count: nat)
    ensures var items := DecodeItems(buf, pos, count);
            ShortItems(items.value) ==> WeightItems(items.value) <= Marks(buf, pos, items.next)
    decreases Remaining(buf, pos), 2, count
  {
    hide Decode, Weight, Marks, ShortMaps;
    if count > 0 {
      var first := Decode(buf, pos);
      var rest := DecodeItems(buf, first.next, count - 1);
      DecodeWeight(buf, pos);
      ItemsReadWeight(buf, first.next, count - 1);
      MarksSplit(buf, pos, first.next, rest.next);
      assert ([first.value] + rest.value)[1..] == rest.value;
    }
  }

  /** The entries that a map gains weigh no more than the bytes taken. */
  lemma {:induction false} EntriesReadWeight(buf: seq<byte>, pos: nat, count: nat, done: seq<Entry>)
    ensures var entries := DecodeEntries(buf, pos, count, done);
            var gained := entries.value[|done|..];
            ShortEntries(gained) ==> WeightEntries(gained) <= Marks(buf, pos, entries.next)
    decreases Remaining(buf, pos), 2, count
  {
    hide Decode, Weight, Marks, ShortMaps, HasKey;
    var entries := DecodeEntries(buf, pos, count, done);
    if count == 0 {
      assert entries.value[|done|..] == [];
    } else {
      var key := Decode(buf, pos);
      var value := Decode(buf, key.next);
      var e := Entry(key.value, value.value);
      var now := Emplace(done, e);
      EntriesReadWeight(buf, value.next, count - 1, now);
      assert entries == DecodeEntries(buf, value.next, count - 1, now);
      MarksSplit(buf, pos, key.next, entries.next);
      MarksSplit(buf, key.next, value.next, entries.next);
      if !HasKey(done, e.key) {
        var gained := entries.value[|done|..];
        assert e == now[|done|] == entries.value[|done|] == gained[0];
        assert gained[1..] == entries.value[|now|..];
        assert WeightEntries(gained) == WeightEntry(e) + WeightEntries(gained[1..]);
        assert ShortEntries(gained) ==> ShortEntries(gained[1..]);
        assert ShortEntries(gained) ==> ShortEntry(e);
        DecodeWeight(buf, pos);
        DecodeWeight(buf, key.next);
      }
    }
  }
}
