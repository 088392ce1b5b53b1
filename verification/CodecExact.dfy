/** The converse of the round trip: a value that is not good is never read back exactly.

    A reader that is ahead of the writer's position, or that meets a value which is not good, and still
    produces the written value, ends strictly ahead of where the writer ended. So it can never fall back
    into step, and a write of a value that is not good is always noticed. */
module CodecExact {
  import opened Bytes
  import opened ByteStreams
  import opened StandardCodec
  import opened CodecRoundTrip

  /** The reader has reached the writer's position, and passed it when strict. */
  ghost predicate Ahead(writer: nat, reader: nat, strict: bool) {
    writer <= reader && (strict ==> writer < reader)
  }

  /** s was written at pos and ends by end, and after end the buffer goes on for at least |s| more bytes. */
  ghost predicate Written(buf: seq<byte>, pos: nat, s: seq<byte>, end: nat) {
    At(buf, pos, s) && pos + |s| <= end && end + |s| <= |buf|
  }

  lemma WrittenSplit(buf: seq<byte>, pos: nat, s: seq<byte>, t: seq<byte>, end: nat)
    requires Written(buf, pos, s + t, end)
    ensures Written(buf, pos, s, end) && Written(buf, pos + |s|, t, end)
  {
    AtSplit(buf, pos, s, t);
  }

  // ----- blocks, sizes and alignment -----

  lemma BlockNext(buf: seq<byte>, pos: nat, size: nat, end: nat)
    requires end + size <= |buf|
    ensures var next := BlockAt(buf, pos, Zeros(size)).next;
            next == pos + size || next == pos > end
  {
  }

  /** A size read, spelled out on the bytes it takes. */
  lemma SizeAtBytes(buf: seq<byte>, pos: nat)
    ensures var size := SizeAt(buf, pos);
            if pos >= |buf| then size == Parsed(0, pos)
            else if buf[pos] < 254 then size == Parsed(buf[pos], pos + 1)
            else if buf[pos] == 254 then
              if pos + 3 > |buf| then size == Parsed(0, pos + 1)
              else size == Parsed((buf[pos + 1] as int) + 256 * (buf[pos + 2] as int), pos + 3)
            else if pos + 5 > |buf| then size == Parsed(0, pos + 1)
            else size == Parsed((buf[pos + 1] as int) + 256 * (buf[pos + 2] as int)
                                + 0x1_0000 * (buf[pos + 3] as int) + 0x100_0000 * (buf[pos + 4] as int), pos + 5)
  {
    FromLEZeros(2);
    FromLEZeros(4);
    if pos + 3 <= |buf| {
      FromLE2(buf[pos + 1..pos + 3]);
    }
    if pos + 5 <= |buf| {
      FromLE4(buf[pos + 1..pos + 5]);
    }
  }

  lemma SizeNext(buf: seq<byte>, pos: nat, end: nat)
    requires end < |buf|
    ensures var size := SizeAt(buf, pos);
            size.next >= pos + |SizeBytes(size.value)| || size.next > end
  {
    SizeAtBytes(buf, pos);
  }

  lemma AlignMono(p: nat, q: nat, kind: Kind)
    requires p <= q
    ensures Align(p, kind.Width()) <= Align(q, kind.Width())
  {
    AlignMono4(p, q);
    AlignMono8(p, q);
  }

  lemma AlignMono4(p: nat, q: nat)
    requires p <= q
    ensures Align(p, 4) <= Align(q, 4)
  {
  }

  lemma AlignMono8(p: nat, q: nat)
    requires p <= q
    ensures Align(p, 8) <= Align(q, 8)
  {
  }

  /** A header that reappears later inside itself and its zero padding cannot announce the same size
      before the padding ends. */
  lemma HeaderShift(buf: seq<byte>, q: nat, r: nat, tag: byte, size: nat, padEnd: nat)
    requires q < r < |buf| && buf[r] == tag && 0 < tag < 254
    requires 0 < size < SIZE_LIMIT && At(buf, q, [tag] + SizeBytes(size))
    requires padEnd <= |buf| && forall i :: q + 1 + |SizeBytes(size)| <= i < padEnd ==> buf[i] == 0
    requires SizeAt(buf, r + 1).value == size
    ensures SizeAt(buf, r + 1).next > padEnd
  {
    hide At, SizeBytes, SizeAt;
    SizeAtBytes(buf, r + 1);
    assert At(buf, q, [tag]) && At(buf, q + 1, SizeBytes(size)) by { AtSplit(buf, q, [tag], SizeBytes(size)); }
    SizeRoundTrip(buf, q + 1, size);
    SizeAtBytes(buf, q + 1);
  }

  // ----- a reader that is ahead stays ahead -----

  /** v was written at q, and a read at r, not before q, gives v. */
  ghost predicate Reads(buf: seq<byte>, q: nat, r: nat, v: Value, end: nat) {
    q <= r && Written(buf, q, Encode(v, q), end) && Decode(buf, r).value == v
  }

  /** The read ends where the writer ended, or later, and later whenever it was ahead or v is not good. */
  ghost predicate Drifts(buf: seq<byte>, q: nat, r: nat, v: Value) {
    Ahead(q + |Encode(v, q)|, Decode(buf, r).next, q < r || !Good(v, q))
  }

  lemma DecodePastEnd(buf: seq<byte>, pos: nat)
    ensures pos >= |buf| ==> Decode(buf, pos) == Parsed(Null, pos)
  {
    if pos >= |buf| {
      assert ByteAt(buf, pos) == Parsed(0, pos);
    }
  }

  /** The two tags and the written payload; a read from past the end gives null. */
  lemma ReadsTag(buf: seq<byte>, q: nat, r: nat, v: Value, end: nat)
    requires Reads(buf, q, r, v, end) && !v.Null?
    ensures r < |buf| && Decode(buf, r) == DecodeOfType(buf, buf[r], r + 1)
    ensures Written(buf, q, [EncodedTypeForValue(v)], end) && Written(buf, q + 1, Payload(v, q + 1), end)
    ensures |Encode(v, q)| == 1 + |Payload(v, q + 1)| && end + |Encode(v, q)| <= |buf|
  {
    WrittenSplit(buf, q, [EncodedTypeForValue(v)], Payload(v, q + 1), end);
    DecodePastEnd(buf, r);
  }

  lemma DriftScalar(buf: seq<byte>, q: nat, r: nat, v: Value, end: nat)
    requires v.Bool? || v.Int32? || v.Int64?
    requires Reads(buf, q, r, v, end)
    ensures Drifts(buf, q, r, v)
  {
    ReadsTag(buf, q, r, v, end);
    BlockNext(buf, r + 1, |Payload(v, q + 1)|, end);
  }

  lemma DriftStr(buf: seq<byte>, q: nat, r: nat, v: Value, end: nat)
    requires v.Str?
    requires Reads(buf, q, r, v, end)
    ensures Drifts(buf, q, r, v)
  {
    hide At, SizeAt, SizeBytes, BlockAt, Encode, Decode;
    ReadsTag(buf, q, r, v, end);
    var size := SizeAt(buf, r + 1);
    SizeNext(buf, r + 1, end);
    BlockNext(buf, size.next, size.value, end);
  }

  lemma DriftFloat64(buf: seq<byte>, q: nat, r: nat, v: Value, end: nat)
    requires v.Float64?
    requires Reads(buf, q, r, v, end)
    ensures Drifts(buf, q, r, v)
  {
    hide At, BlockAt, Encode, Decode, Align;
    ReadsTag(buf, q, r, v, end);
    var padEnd := Align(q + 1, 8);
    var pad := Zeros(padEnd - (q + 1));
    WrittenSplit(buf, q + 1, pad, ToLE(v.bits, 8), end);
    BlockNext(buf, Align(r + 1, 8), 8, end);
    AlignMono8(q + 1, r + 1);
    if q < r && r < padEnd {
      ZeroAt(buf, q + 1, pad, r);
    }
  }

  lemma ZeroAt(buf: seq<byte>, pos: nat, pad: seq<byte>, i: nat)
    requires At(buf, pos, pad) && pad == Zeros(|pad|) && pos <= i < pos + |pad|
    ensures i < |buf| && buf[i] == 0
  {
    assert buf[pos..pos + |pad|][i - pos] == buf[i];
  }

  lemma AlignStays(pos: nat, kind: Kind)
    ensures Align(pos, kind.Width()) == pos <==> pos % kind.Width() == 0
  {
  }

  lemma DriftVector(buf: seq<byte>, q: nat, r: nat, v: Value, end: nat)
    requires v.Vector?
    requires Reads(buf, q, r, v, end)
    ensures Drifts(buf, q, r, v)
  {
    if v.words == [] {
      DriftEmpty(buf, q, r, v, end);
    } else {
      DriftFull(buf, q, r, v, end);
    }
  }

  /** Where the reader of a typed list of so many elements stops. */
  lemma VectorNext(buf: seq<byte>, q: nat, r: nat, v: Value, end: nat)
    requires v.Vector?
    requires Reads(buf, q, r, v, end)
    ensures var size, width := SizeAt(buf, r + 1), v.kind.Width();
            var start := if width > 1 then Align(size.next, width) else size.next;
            && r < |buf| && buf[r] == v.kind.Tag() && size.value == |v.words|
            && Decode(buf, r) == Parsed(v, BlockAt(buf, start, Zeros(|v.words| * width)).next)
  {
    hide At, SizeAt, SizeBytes, BlockAt, Encode, Decode, Align, Flatten, Unflatten, Written;
    ReadsTag(buf, q, r, v, end);
    assert VectorAt(buf, r + 1, v.kind) == DecodeOfType(buf, buf[r], r + 1);
  }

  lemma DriftEmpty(buf: seq<byte>, q: nat, r: nat, v: Value, end: nat)
    requires v.Vector? && v.words == []
    requires Reads(buf, q, r, v, end)
    ensures Drifts(buf, q, r, v)
  {
    hide At, SizeAt, SizeBytes, BlockAt, Encode, Decode, Align, Flatten, Unflatten, Written;
    ReadsTag(buf, q, r, v, end);
    VectorNext(buf, q, r, v, end);
    var kind, size := v.kind, SizeAt(buf, r + 1);
    SizeNext(buf, r + 1, end);
    var start := if kind.Width() > 1 then Align(size.next, kind.Width()) else size.next;
    BlockNext(buf, start, 0 * kind.Width(), end);
    AlignStays(q + 2, kind);
    if size.next >= q + 2 {
      AlignMono(q + 2, size.next, kind);
    }
  }

  lemma DriftFull(buf: seq<byte>, q: nat, r: nat, v: Value, end: nat)
    requires v.Vector? && v.words != []
    requires Reads(buf, q, r, v, end)
    ensures Drifts(buf, q, r, v)
  {
    hide At, SizeAt, SizeBytes, BlockAt, Encode, Decode, Align, Flatten, Unflatten, Written;
    ReadsTag(buf, q, r, v, end);
    VectorNext(buf, q, r, v, end);
    var kind, count, size := v.kind, |v.words|, SizeAt(buf, r + 1);
    SizeNext(buf, r + 1, end);
    var start := if kind.Width() > 1 then Align(size.next, kind.Width()) else size.next;
    BlockNext(buf, start, count * kind.Width(), end);
    WrittenVector(buf, q, kind, v.words, end);
    var header := q + 1 + |SizeBytes(count)|;
    AlignOne(header);
    if size.next >= header {
      AlignMono(header, size.next, kind);
    }
    if q < r {
      HeaderShift(buf, q, r, kind.Tag(), count, Align(header, kind.Width()));
    }
  }

  lemma AlignOne(pos: nat)
    ensures Align(pos, 1) == pos
  {
  }

  lemma WrittenVector(buf: seq<byte>, q: nat, kind: Kind, words: seq<nat>, end: nat)
    requires words != [] && Written(buf, q, Encode(Vector(kind, words), q), end)
    ensures var header := q + 1 + |SizeBytes(|words|)|;
            && At(buf, q, [kind.Tag()] + SizeBytes(|words|))
            && Align(header, kind.Width()) <= |buf|
            && forall i :: header <= i < Align(header, kind.Width()) ==> buf[i] == 0
  {
    hide At, Align, Flatten, SizeBytes;
    var tag, header, width := [kind.Tag()], SizeBytes(|words|), kind.Width();
    var start := q + 1 + |header|;
    var pad, data := Zeros(Align(start, width) - start), Flatten(words, width);
    assert Encode(Vector(kind, words), q) == tag + (header + pad + data);
    AtSplit(buf, q, tag, header + pad + data);
    AtSplit(buf, q + 1, header + pad, data);
    AtSplit(buf, q + 1, header, pad);
    AtSplit(buf, q, tag, header);
    forall i | start <= i < Align(start, width) ensures i < |buf| && buf[i] == 0 {
      ZeroAt(buf, start, pad, i);
    }
  }

  lemma {:induction false} Drift(buf: seq<byte>, q: nat, r: nat, v: Value, end: nat)
    requires Reads(buf, q, r, v, end)
    ensures Drifts(buf, q, r, v)
    decreases v, 1
  {
    match v {
      case Null => DriftNull(buf, q, r, end);
      case Str(_) => DriftStr(buf, q, r, v, end);
      case Float64(_) => DriftFloat64(buf, q, r, v, end);
      case Vector(_, _) => DriftVector(buf, q, r, v, end);
      case List(_) => DriftList(buf, q, r, v, end);
      case Map(_) => DriftMap(buf, q, r, v, end);
      case Custom => NeverCustom(buf, r);
      case _ => DriftScalar(buf, q, r, v, end);
    }
  }

  lemma DriftNull(buf: seq<byte>, q: nat, r: nat, end: nat)
    requires Reads(buf, q, r, Null, end)
    ensures Drifts(buf, q, r, Null)
  {
    DecodePastEnd(buf, r);
  }

  lemma NeverCustom(buf: seq<byte>, pos: nat)
    ensures !Decode(buf, pos).value.Custom?
  {
  }

  lemma {:induction false} DriftList(buf: seq<byte>, q: nat, r: nat, v: Value, end: nat)
    requires v.List?
    requires Reads(buf, q, r, v, end)
    ensures Drifts(buf, q, r, v)
    decreases v, 0
  {
    hide At, SizeAt, SizeBytes, Encode, Decode, Written, EncodeItems, DecodeItems, GoodItems;
    ReadsTag(buf, q, r, v, end);
    var size := SizeAt(buf, r + 1);
    SizeNext(buf, r + 1, end);
    var header := SizeBytes(|v.items|);
    var from := q + 1 + |header|;
    WrittenSplit(buf, q + 1, header, EncodeItems(v.items, from), end);
    WrittenEnd(buf, from, EncodeItems(v.items, from), end);
    DriftItems(buf, from, size.next, v.items, end);
  }

  lemma WrittenEnd(buf: seq<byte>, pos: nat, s: seq<byte>, end: nat)
    requires Written(buf, pos, s, end)
    ensures pos + |s| <= end
  {
  }

  lemma {:induction false} DriftItems(buf: seq<byte>, q: nat, r: nat, items: seq<Value>, end: nat)
    requires q <= r && Written(buf, q, EncodeItems(items, q), end)
    requires DecodeItems(buf, r, |items|).value == items
    ensures Ahead(q + |EncodeItems(items, q)|, DecodeItems(buf, r, |items|).next, q < r || !GoodItems(items, q))
    decreases items
  {
    hide Written, Encode, Decode, Good;
    if items != [] {
      var first, rest := items[0], items[1..];
      var q', r' := q + |Encode(first, q)|, Decode(buf, r).next;
      WrittenSplit(buf, q, Encode(first, q), EncodeItems(rest, q'), end);
      assert DecodeItems(buf, r, |items|).value[0] == first;
      assert DecodeItems(buf, r', |rest|).value == rest;
      Drift(buf, q, r, first, end);
      DriftItems(buf, q', r', rest, end);
    }
  }

  lemma {:induction false} DriftMap(buf: seq<byte>, q: nat, r: nat, v: Value, end: nat)
    requires v.Map?
    requires Reads(buf, q, r, v, end)
    ensures Drifts(buf, q, r, v)
    decreases v, 0
  {
    hide At, SizeAt, Encode, Decode, Written, EncodeEntries, DecodeEntries, GoodEntries, DistinctKeys;
    ReadsTag(buf, q, r, v, end);
    var size := SizeAt(buf, r + 1);
    SizeNext(buf, r + 1, end);
    var header := SizeBytes(|v.entries|);
    var from := q + 1 + |header|;
    WrittenSplit(buf, q + 1, header, EncodeEntries(v.entries, from), end);
    WrittenEnd(buf, from, EncodeEntries(v.entries, from), end);
    assert [] + v.entries == v.entries;
    NoKeys();
    EmplacedCount(buf, size.next, size.value, []);
    DriftEntries(buf, from, size.next, size.value, [], v.entries, end);
  }

  lemma NoKeys()
    ensures DistinctKeys([])
  {
  }

  lemma {:induction false} EmplacedCount(buf: seq<byte>, pos: nat, count: nat, done: seq<Entry>)
    ensures |DecodeEntries(buf, pos, count, done).value| <= |done| + count
    decreases count
  {
    if count > 0 {
      var key := Decode(buf, pos);
      var value := Decode(buf, key.next);
      EmplacedCount(buf, value.next, count - 1, Emplace(done, Entry(key.value, value.value)));
    }
  }

  /** The reader may also have read and dropped entries the writer never wrote; it only moves further. */
  lemma {:induction false} DriftEntries(buf: seq<byte>, q: nat, r: nat, count: nat, done: seq<Entry>,
                                        entries: seq<Entry>, end: nat)
    requires q <= r && Written(buf, q, EncodeEntries(entries, q), end)
    requires DistinctKeys(done) && DecodeEntries(buf, r, count, done).value == done + entries
    ensures DistinctKeys(done + entries)
    ensures Ahead(q + |EncodeEntries(entries, q)|, DecodeEntries(buf, r, count, done).next,
                  q < r || !GoodEntries(entries, q))
    decreases entries, count
  {
    hide Written, Encode, Decode, EncodeEntry, GoodEntry, HasKey, DistinctKeys;
    if count == 0 {
      assert |done + entries| == |done|;
      assert done + entries == done;
    } else {
      var key := Decode(buf, r);
      var value := Decode(buf, key.next);
      var e := Entry(key.value, value.value);
      if HasKey(done, key.value) {
        DriftEntries(buf, q, value.next, count - 1, done, entries, end);
      } else {
        NextKept(done, e, entries);
        DistinctGrows(done, e);
        var rest := entries[1..];
        assert (done + [e]) + rest == done + entries;
        var q' := q + |EncodeEntry(e, q)|;
        WrittenSplit(buf, q, EncodeEntry(e, q), EncodeEntries(rest, q'), end);
        DriftEntry(buf, q, r, e, end);
        DriftEntries(buf, q', value.next, count - 1, done + [e], rest, end);
      }
    }
  }

  lemma NextKept(done: seq<Entry>, e: Entry, entries: seq<Entry>)
    requires done + [e] <= done + entries
    ensures entries != [] && entries[0] == e
  {
    assert (done + entries)[|done|] == (done + [e])[|done|];
  }

  lemma DistinctGrows(done: seq<Entry>, e: Entry)
    requires DistinctKeys(done) && !HasKey(done, e.key)
    ensures DistinctKeys(done + [e])
  {
  }

  lemma {:induction false} DriftEntry(buf: seq<byte>, q: nat, r: nat, e: Entry, end: nat)
    requires q <= r && Written(buf, q, EncodeEntry(e, q), end)
    requires Decode(buf, r).value == e.key && Decode(buf, Decode(buf, r).next).value == e.value
    ensures Ahead(q + |EncodeEntry(e, q)|, Decode(buf, Decode(buf, r).next).next, q < r || !GoodEntry(e, q))
    decreases e
  {
    hide Written, Encode, Decode, Good;
    var keyEnd := q + |Encode(e.key, q)|;
    WrittenSplit(buf, q, Encode(e.key, q), Encode(e.value, keyEnd), end);
    Drift(buf, q, r, e.key, end);
    Drift(buf, keyEnd, Decode(buf, r).next, e.value, end);
  }

  // ----- the round trip holds exactly for the good values -----

  /** Whatever surrounds it, a write of v at pos is read back as v, and reading stops where the write stopped. */
  ghost predicate RoundTripsAt(v: Value, pos: nat) {
    forall prefix: seq<byte>, suffix: seq<byte> | |prefix| == pos ::
      Decode(prefix + Encode(v, pos) + suffix, pos) == Parsed(v, pos + |Encode(v, pos)|)
  }

  lemma RoundTripsExactly(v: Value, pos: nat)
    ensures RoundTripsAt(v, pos) <==> Good(v, pos)
  {
    var s := Encode(v, pos);
    if Good(v, pos) {
      forall prefix: seq<byte>, suffix: seq<byte> | |prefix| == pos
        ensures Decode(prefix + s + suffix, pos) == Parsed(v, pos + |s|)
      {
        RoundTrip(prefix + s + suffix, pos, v);
      }
    } else {
      var buf := Zeros(pos) + s + Zeros(|s|);
      if Decode(buf, pos) == Parsed(v, pos + |s|) {
        Drift(buf, pos, pos, v, pos + |s|);
      }
    }
  }

  /** An empty list of 64-bit integers is written without padding and read with it: what follows it in a list is
      swallowed, and the list still ends where it should. */
  lemma EmptyVectorMisread()
    ensures var v, read := List([Vector(Int64Kind, []), Int32(7)]), List([Vector(Int64Kind, []), Null]);
            Decode(Encode(v, 0), 0) == Parsed(read, |Encode(v, 0)|)
  {
    hide Decode, Encode;
    var items: seq<Value> := [Vector(Int64Kind, []), Int32(7)];
    WrittenUnpadded(items);
    ReadMisread(Encode(List(items), 0));
  }

  lemma WrittenUnpadded(items: seq<Value>)
    requires items == [Vector(Int64Kind, []), Int32(7)]
    ensures Encode(List(items), 0) == [12, 2, 10, 0, 3, 7, 0, 0, 0]
  {
    hide EncodeEntries, Decode, Flatten, ToLE;
    assert items[1..] == [Int32(7)] && items[1..][1..] == [];
    SevenLE();
    assert Encode(Vector(Int64Kind, []), 2) == [10, 0];
    assert Encode(Int32(7), 4) == [3, 7, 0, 0, 0];
    assert EncodeItems([], 9) == [];
    assert EncodeItems([Int32(7)], 4) == [3, 7, 0, 0, 0];
    assert EncodeItems(items, 2) == [10, 0] + [3, 7, 0, 0, 0];
  }

  lemma SevenLE()
    ensures ToLE(7, 4) == [7, 0, 0, 0]
  {
  }

  lemma ReadMisread(buf: seq<byte>)
    requires buf == [12, 2, 10, 0, 3, 7, 0, 0, 0]
    ensures Decode(buf, 0) == Parsed(List([Vector(Int64Kind, []), Null]), 9)
  {
    hide DecodeEntries, DecodeItems;
    assert VectorAt(buf, 3, Int64Kind) == Parsed(Vector(Int64Kind, []), 8);
    assert Decode(buf, 2) == Parsed(Vector(Int64Kind, []), 8);
    assert Decode(buf, 8) == Parsed(Null, 9);
    ReadTwo(buf, 2, 2);
  }

  lemma ReadTwo(buf: seq<byte>, pos: nat, count: nat)
    requires count == 2
    ensures var a := Decode(buf, pos);
            var b := Decode(buf, a.next);
            DecodeItems(buf, pos, count) == Parsed([a.value, b.value], b.next)
  {
    hide Decode, DecodeItems;
    var a := Decode(buf, pos);
    var b := Decode(buf, a.next);
    ReadItem(buf, pos, count);
    ReadItem(buf, a.next, count - 1);
    ReadNone(buf, b.next, count - 2);
    assert [a.value] + ([b.value] + []) == [a.value, b.value];
  }

  lemma ReadItem(buf: seq<byte>, pos: nat, count: nat)
    requires count > 0
    ensures var first := Decode(buf, pos);
            var rest := DecodeItems(buf, first.next, count - 1);
            DecodeItems(buf, pos, count) == Parsed([first.value] + rest.value, rest.next)
  {
  }

  lemma ReadNone(buf: seq<byte>, pos: nat, count: nat)
    requires count == 0
    ensures DecodeItems(buf, pos, count) == Parsed([], pos)
  {
  }
}
