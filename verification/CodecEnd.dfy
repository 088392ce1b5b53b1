/** What comes back when nothing follows: the last value of a message.

    Past the end of the buffer a read gives null and does not move, so a reader that is ahead can still produce the
    nulls that were written last. Counting the bytes that are not zero shows that it can produce nothing else. */
module CodecEnd {
  import opened Bytes
  import opened ByteStreams
  import opened StandardCodec
  import opened CodecRoundTrip
  import opened CodecExact
  import opened CodecWeight

  // ----- the values that come back when nothing follows -----

  predicate AllNull(items: seq<Value>) {
    forall i :: 0 <= i < |items| ==> items[i] == Null
  }

  predicate NullEntries(entries: seq<Entry>) {
    forall i :: 0 <= i < |entries| ==> entries[i] == Entry(Null, Null)
  }

  /** As Good, except that one empty list of wide elements may stand out of alignment when everything written after it
      is null. */
  ghost predicate LastGood(v: Value, pos: nat)
    decreases v
  {
    match v
    case Vector(kind, words) => |words| < SIZE_LIMIT && Fits(kind, words)
    case List(items) => |items| < SIZE_LIMIT && LastGoodItems(items, pos + 1 + |SizeBytes(|items|)|)
    case Map(entries) =>
      && |entries| < SIZE_LIMIT
      && DistinctKeys(entries)
      && LastGoodEntries(entries, pos + 1 + |SizeBytes(|entries|)|)
    case _ => Good(v, pos)
  }

  ghost predicate LastGoodItems(items: seq<Value>, pos: nat)
    decreases items
  {
    items != [] ==>
      || (Good(items[0], pos) && LastGoodItems(items[1..], pos + |Encode(items[0], pos)|))
      || (LastGood(items[0], pos) && AllNull(items[1..]))
  }

  ghost predicate LastGoodEntries(entries: seq<Entry>, pos: nat)
    decreases entries
  {
    entries != [] ==>
      || (GoodEntry(entries[0], pos) && LastGoodEntries(entries[1..], pos + |EncodeEntry(entries[0], pos)|))
      || (LastGoodEntry(entries[0], pos) && NullEntries(entries[1..]))
  }

  ghost predicate LastGoodEntry(e: Entry, pos: nat)
    decreases e
  {
    || (Good(e.key, pos) && LastGood(e.value, pos + |Encode(e.key, pos)|))
    || (LastGood(e.key, pos) && e.value == Null)
  }

  // ----- they do come back -----

  ghost predicate Quiet(buf: seq<byte>, from: nat) {
    forall i :: from <= i < |buf| ==> buf[i] == 0
  }

  /** Nulls are read from zeros, and from past the end. */
  lemma {:induction false} NullsRead(buf: seq<byte>, pos: nat, items: seq<Value>)
    requires Quiet(buf, pos) && AllNull(items)
    ensures var read := DecodeItems(buf, pos, |items|);
            read.value == items && (read.next >= pos + |items| || read.next >= |buf|)
    decreases |items|
  {
    if items != [] {
      NullRead(buf, pos);
      NullsRead(buf, Decode(buf, pos).next, items[1..]);
      assert items == [Null] + items[1..];
    }
  }

  lemma NullRead(buf: seq<byte>, pos: nat)
    requires Quiet(buf, pos)
    ensures Decode(buf, pos) == Parsed(Null, if pos < |buf| then pos + 1 else pos)
    ensures Quiet(buf, Decode(buf, pos).next)
  {
  }

  lemma {:induction false} NullEntriesRead(buf: seq<byte>, pos: nat, done: seq<Entry>, entries: seq<Entry>)
    requires Quiet(buf, pos) && NullEntries(entries) && DistinctKeys(done + entries)
    ensures var read := DecodeEntries(buf, pos, |entries|, done);
            read.value == done + entries && (read.next >= pos + 2 * |entries| || read.next >= |buf|)
    decreases |entries|
  {
    hide DistinctKeys, HasKey, Decode;
    if entries == [] {
      assert done + entries == done;
    } else {
      NullRead(buf, pos);
      var next := Decode(buf, pos).next;
      NullRead(buf, next);
      FreshKey(done, entries);
      assert (done + [entries[0]]) + entries[1..] == done + entries;
      NullEntriesRead(buf, Decode(buf, next).next, done + [Entry(Null, Null)], entries[1..]);
    }
  }

  lemma {:induction false} NullsWritten(items: seq<Value>, pos: nat)
    requires AllNull(items)
    ensures EncodeItems(items, pos) == Zeros(|items|)
    decreases |items|
  {
    if items != [] {
      NullsWritten(items[1..], pos + 1);
      assert Encode(items[0], pos) == [0] + [] == [0];
      assert Zeros(|items|) == [0] + Zeros(|items| - 1);
    }
  }

  lemma {:induction false} NullEntriesWritten(entries: seq<Entry>, pos: nat)
    requires NullEntries(entries)
    ensures EncodeEntries(entries, pos) == Zeros(2 * |entries|)
    decreases |entries|
  {
    if entries != [] {
      NullEntriesWritten(entries[1..], pos + 2);
      assert Encode(Null, pos) == [0] + [] == [0] && Encode(Null, pos + 1) == [0] + [] == [0];
      assert Zeros(2 * |entries|) == [0, 0] + Zeros(2 * (|entries| - 1));
    }
  }

  lemma QuietBefore(buf: seq<byte>, pos: nat, n: nat)
    requires At(buf, pos, Zeros(n)) && Quiet(buf, pos + n)
    ensures Quiet(buf, pos)
  {
    forall i | pos <= i < pos + n ensures buf[i] == 0 {
      assert buf[pos..pos + n][i - pos] == 0;
    }
  }

  /** An empty typed list is read back from wherever it is written, aligned or not; the read ends on the alignment. */
  lemma EmptyListRead(buf: seq<byte>, pos: nat, kind: Kind)
    requires At(buf, pos, Encode(Vector(kind, []), pos))
    ensures Decode(buf, pos) == Parsed(Vector(kind, []), Align(pos + 2, kind.Width()))
    ensures |Encode(Vector(kind, []), pos)| == 2
  {
    hide Align, Flatten;
    assert Encode(Vector(kind, []), pos) == [kind.Tag(), 0];
    assert buf[pos] == buf[pos..pos + 2][0] && buf[pos + 1] == buf[pos..pos + 2][1];
    AlignOne(pos + 2);
    assert SizeAt(buf, pos + 1) == Parsed(0, pos + 2);
    EmptyBlock(buf, Align(pos + 2, kind.Width()));
  }

  lemma EmptyBlock(buf: seq<byte>, pos: nat)
    ensures BlockAt(buf, pos, Zeros(0)) == Parsed([], pos)
  {
    assert Zeros(0) == [];
    assert pos <= |buf| ==> buf[pos..pos] == [];
  }

  lemma {:induction false} LastRead(buf: seq<byte>, pos: nat, v: Value)
    requires At(buf, pos, Encode(v, pos)) && LastGood(v, pos) && Quiet(buf, pos + |Encode(v, pos)|)
    ensures Decode(buf, pos).value == v && Decode(buf, pos).next >= pos + |Encode(v, pos)|
    decreases v, 1
  {
    hide At, Encode, Decode, Quiet, Align, Fits, LastGoodItems, LastGoodEntries, DistinctKeys;
    if v.List? {
      LastReadList(buf, pos, v);
    } else if v.Map? {
      LastReadMap(buf, pos, v);
    } else if v.Vector? && v.words == [] {
      EmptyListRead(buf, pos, v.kind);
    } else {
      RoundTrip(buf, pos, v);
    }
  }

  /** The size of a list or map is read exactly. */
  lemma HeaderRead(buf: seq<byte>, pos: nat, v: Value, count: nat, rest: seq<byte>)
    requires (v.List? || v.Map?) && count < SIZE_LIMIT && Payload(v, pos + 1) == SizeBytes(count) + rest
    requires At(buf, pos, Encode(v, pos))
    ensures var from := pos + 1 + |SizeBytes(count)|;
            && |Encode(v, pos)| == 1 + |SizeBytes(count)| + |rest| && At(buf, from, rest)
            && SizeAt(buf, pos + 1) == Parsed(count, from)
            && Decode(buf, pos) == DecodeOfType(buf, EncodedTypeForValue(v), pos + 1)
  {
    hide At, SizeAt, SizeBytes, Encode, Decode, DecodeOfType, Payload;
    TagRead(buf, pos, v);
    AtSplit(buf, pos + 1, SizeBytes(count), rest);
    SizeRoundTrip(buf, pos + 1, count);
  }

  lemma {:induction false} LastReadList(buf: seq<byte>, pos: nat, v: Value)
    requires v.List? && At(buf, pos, Encode(v, pos)) && LastGood(v, pos) && Quiet(buf, pos + |Encode(v, pos)|)
    ensures Decode(buf, pos).value == v && Decode(buf, pos).next >= pos + |Encode(v, pos)|
    decreases v, 0
  {
    hide At, SizeAt, SizeBytes, Encode, Decode, Quiet, EncodeItems, DecodeItems, LastGoodItems;
    var from := pos + 1 + |SizeBytes(|v.items|)|;
    HeaderRead(buf, pos, v, |v.items|, EncodeItems(v.items, from));
    LastReadItems(buf, from, v.items);
  }

  lemma {:induction false} LastReadMap(buf: seq<byte>, pos: nat, v: Value)
    requires v.Map? && At(buf, pos, Encode(v, pos)) && LastGood(v, pos) && Quiet(buf, pos + |Encode(v, pos)|)
    ensures Decode(buf, pos).value == v && Decode(buf, pos).next >= pos + |Encode(v, pos)|
    decreases v, 0
  {
    hide At, SizeAt, SizeBytes, Encode, Decode, Quiet, EncodeEntries, DecodeEntries, LastGoodEntries, DistinctKeys;
    var from := pos + 1 + |SizeBytes(|v.entries|)|;
    HeaderRead(buf, pos, v, |v.entries|, EncodeEntries(v.entries, from));
    assert [] + v.entries == v.entries;
    LastReadEntries(buf, from, [], v.entries);
  }

  lemma {:induction false} LastReadItems(buf: seq<byte>, pos: nat, items: seq<Value>)
    requires At(buf, pos, EncodeItems(items, pos)) && LastGoodItems(items, pos)
    requires Quiet(buf, pos + |EncodeItems(items, pos)|)
    ensures var read := DecodeItems(buf, pos, |items|);
            read.value == items && read.next >= pos + |EncodeItems(items, pos)|
    decreases items
  {
    hide At, Encode, Decode, Quiet, Good, LastGood, AllNull;
    if items != [] {
      var first, rest := items[0], items[1..];
      var next := pos + |Encode(first, pos)|;
      AtSplit(buf, pos, Encode(first, pos), EncodeItems(rest, next));
      assert items == [first] + rest;
      if Good(first, pos) && LastGoodItems(rest, next) {
        RoundTrip(buf, pos, first);
        LastReadItems(buf, next, rest);
      } else {
        NullsWritten(rest, next);
        QuietBefore(buf, next, |rest|);
        LastRead(buf, pos, first);
        QuietOn(buf, next, Decode(buf, pos).next);
        NullsRead(buf, Decode(buf, pos).next, rest);
        AtEnds(buf, next, EncodeItems(rest, next));
      }
    }
  }

  lemma QuietOn(buf: seq<byte>, pos: nat, next: nat)
    requires Quiet(buf, pos) && pos <= next
    ensures Quiet(buf, next)
  {
  }

  lemma AtEnds(buf: seq<byte>, pos: nat, s: seq<byte>)
    requires At(buf, pos, s)
    ensures pos + |s| <= |buf|
  {
  }

  lemma {:induction false} LastReadEntries(buf: seq<byte>, pos: nat, done: seq<Entry>, entries: seq<Entry>)
    requires DistinctKeys(done + entries)
    requires At(buf, pos, EncodeEntries(entries, pos)) && LastGoodEntries(entries, pos)
    requires Quiet(buf, pos + |EncodeEntries(entries, pos)|)
    ensures var read := DecodeEntries(buf, pos, |entries|, done);
            read.value == done + entries && read.next >= pos + |EncodeEntries(entries, pos)|
    decreases entries
  {
    hide At, Encode, Decode, Quiet, GoodEntry, EncodeEntry, LastGoodEntry, NullEntries, DistinctKeys, HasKey;
    if entries == [] {
      assert done + entries == done;
    } else {
      var e, rest := entries[0], entries[1..];
      var next := pos + |EncodeEntry(e, pos)|;
      AtSplit(buf, pos, EncodeEntry(e, pos), EncodeEntries(rest, next));
      FreshKey(done, entries);
      assert (done + [e]) + rest == done + entries;
      if GoodEntry(e, pos) && LastGoodEntries(rest, next) {
        RoundTripEntry(buf, pos, e);
        LastReadEntries(buf, next, done + [e], rest);
      } else {
        NullEntriesWritten(rest, next);
        QuietBefore(buf, next, 2 * |rest|);
        LastReadEntry(buf, pos, e);
        var from := Decode(buf, Decode(buf, pos).next).next;
        QuietOn(buf, next, from);
        NullEntriesRead(buf, from, done + [e], rest);
        AtEnds(buf, next, EncodeEntries(rest, next));
      }
    }
  }

  lemma {:induction false} LastReadEntry(buf: seq<byte>, pos: nat, e: Entry)
    requires At(buf, pos, EncodeEntry(e, pos)) && LastGoodEntry(e, pos) && Quiet(buf, pos + |EncodeEntry(e, pos)|)
    ensures var key := Decode(buf, pos);
            && key.value == e.key && Decode(buf, key.next).value == e.value
            && Decode(buf, key.next).next >= pos + |EncodeEntry(e, pos)|
    decreases e
  {
    hide At, Encode, Decode, Good, LastGood, Quiet;
    var next := pos + |Encode(e.key, pos)|;
    AtSplit(buf, pos, Encode(e.key, pos), Encode(e.value, next));
    if Good(e.key, pos) && LastGood(e.value, next) {
      RoundTrip(buf, pos, e.key);
      LastRead(buf, next, e.value);
    } else {
      NullWritten(next);
      QuietBefore(buf, next, 1);
      LastRead(buf, pos, e.key);
      QuietOn(buf, next, Decode(buf, pos).next);
      NullRead(buf, Decode(buf, pos).next);
      AtEnds(buf, next, Encode(e.value, next));
    }
  }

  lemma NullWritten(pos: nat)
    ensures Encode(Null, pos) == Zeros(1)
  {
  }

  // ----- and nothing else does -----

  /** The reader has passed the writer, or stands with it at the end of the buffer. */
  ghost predicate Passed(buf: seq<byte>, writer: nat, reader: nat) {
    writer < reader || (writer == reader && reader >= |buf|)
  }

  /** v stands at pos, is what a read from there gives, and the read skips no byte but zeros. */
  ghost predicate Tight(buf: seq<byte>, pos: nat, v: Value) {
    && At(buf, pos, Encode(v, pos)) && ShortMaps(v)
    && Decode(buf, pos).value == v && Marks(buf, pos, Decode(buf, pos).next) == Weight(v)
  }

  /** The read has ended where the write did, with a good value, or has passed it over zeros. */
  ghost predicate InStep(buf: seq<byte>, end: nat, next: nat, good: bool) {
    end <= next && Marks(buf, end, next) == 0 && (Passed(buf, end, next) || good)
  }

  /** A reader that has passed the writer over zeros produces only null, and stays ahead. */
  lemma PassedNull(buf: seq<byte>, q: nat, r: nat, v: Value)
    requires InStep(buf, q, r, false)
    requires At(buf, q, Encode(v, q)) && Decode(buf, r).value == v && Marks(buf, r, Decode(buf, r).next) == Weight(v)
    ensures v == Null && |Encode(v, q)| == 1
    ensures InStep(buf, q + 1, Decode(buf, r).next, false)
  {
    hide Weight, Marks, Payload, DecodeOfType, Encode, Decode;
    var next := Decode(buf, r).next;
    WrittenTag(buf, q, v);
    MarksZero(buf, q, r, q);
    NeverCustom(buf, r);
    NullWeighs();
    assert v == Null;
    DecodePastEnd(buf, r);
    NullTaken(buf, r);
    MarksSplit(buf, q, q + 1, next);
    MarksSplit(buf, q, r, next);
  }

  lemma WrittenTag(buf: seq<byte>, pos: nat, v: Value)
    requires At(buf, pos, Encode(v, pos))
    ensures pos < |buf| && buf[pos] == EncodedTypeForValue(v)
    ensures v == Null ==> |Encode(v, pos)| == 1
  {
    hide Payload;
    assert buf[pos..pos + |Encode(v, pos)|][0] == EncodedTypeForValue(v);
    NullWritten(pos);
  }

  lemma NullWeighs()
    ensures Weight(Null) == 0
  {
  }

  /** A null that takes only zeros takes one byte, or none past the end. */
  lemma NullTaken(buf: seq<byte>, r: nat)
    requires Decode(buf, r).value == Null && Marks(buf, r, Decode(buf, r).next) == 0
    ensures Decode(buf, r).next == if r < |buf| then r + 1 else r
  {
    hide Marks, DecodeOfType;
    if r < |buf| {
      OfTypeOnward(buf, buf[r], r + 1);
      MarksZero(buf, r, Decode(buf, r).next, r);
      ZeroIsNull(buf, r + 1);
    } else {
      DecodePastEnd(buf, r);
    }
  }

  lemma OfTypeOnward(buf: seq<byte>, tag: byte, pos: nat)
    ensures DecodeOfType(buf, tag, pos).next >= pos
  {
  }

  lemma ZeroIsNull(buf: seq<byte>, pos: nat)
    ensures DecodeOfType(buf, 0, pos) == Parsed(Null, pos)
  {
  }

  lemma {:induction false} PassedNulls(buf: seq<byte>, q: nat, r: nat, items: seq<Value>)
    requires InStep(buf, q, r, false) && ShortItems(items)
    requires At(buf, q, EncodeItems(items, q)) && DecodeItems(buf, r, |items|).value == items
    requires Marks(buf, r, DecodeItems(buf, r, |items|).next) == WeightItems(items)
    ensures AllNull(items)
    ensures var end, next := q + |EncodeItems(items, q)|, DecodeItems(buf, r, |items|).next;
            InStep(buf, end, next, false)
    decreases items
  {
    hide At, Encode, Decode, Weight, Marks, Passed, ShortMaps;
    if items != [] {
      var first, rest := items[0], items[1..];
      AtSplit(buf, q, Encode(first, q), EncodeItems(rest, q + |Encode(first, q)|));
      ItemsTight(buf, r, items);
      PassedNull(buf, q, r, first);
      PassedNulls(buf, q + 1, Decode(buf, r).next, rest);
    }
  }

  /** Where the items take no more than their weight, the first and the rest do neither. */
  lemma ItemsTight(buf: seq<byte>, r: nat, items: seq<Value>)
    requires items != [] && ShortItems(items) && DecodeItems(buf, r, |items|).value == items
    requires Marks(buf, r, DecodeItems(buf, r, |items|).next) == WeightItems(items)
    ensures var first, rest := Decode(buf, r), DecodeItems(buf, Decode(buf, r).next, |items| - 1);
            && first.value == items[0] && rest.value == items[1..]
            && rest.next == DecodeItems(buf, r, |items|).next
            && Marks(buf, r, first.next) == Weight(items[0])
            && Marks(buf, first.next, rest.next) == WeightItems(items[1..])
  {
    hide Decode, Weight, Marks, ShortMaps;
    var first, rest := Decode(buf, r), DecodeItems(buf, Decode(buf, r).next, |items| - 1);
    assert items == [first.value] + rest.value;
    assert items[0] == first.value && items[1..] == rest.value;
    DecodeWeight(buf, r);
    ItemsReadWeight(buf, first.next, |items| - 1);
    MarksSplit(buf, r, first.next, rest.next);
  }

  lemma {:induction false} TightItems(buf: seq<byte>, q: nat, items: seq<Value>)
    requires At(buf, q, EncodeItems(items, q)) && DecodeItems(buf, q, |items|).value == items && ShortItems(items)
    requires Marks(buf, q, DecodeItems(buf, q, |items|).next) == WeightItems(items)
    ensures LastGoodItems(items, q)
    ensures InStep(buf, q + |EncodeItems(items, q)|, DecodeItems(buf, q, |items|).next, GoodItems(items, q))
    decreases items
  {
    hide At, Encode, Decode, Weight, Marks, Passed, ShortMaps, Good, LastGood, AllNull;
    if items == [] {
      NoMarks(buf, q);
    } else {
      var first, rest := items[0], items[1..];
      var next := q + |Encode(first, q)|;
      AtSplit(buf, q, Encode(first, q), EncodeItems(rest, next));
      ItemsTight(buf, q, items);
      TightGood(buf, q, first);
      var r := Decode(buf, q).next;
      if Passed(buf, next, r) {
        PassedNulls(buf, next, r, rest);
      } else {
        NotPassed(buf, next, r);
        TightItems(buf, next, rest);
      }
    }
  }

  lemma NoMarks(buf: seq<byte>, pos: nat)
    ensures Marks(buf, pos, pos) == 0
  {
  }

  lemma NotPassed(buf: seq<byte>, writer: nat, reader: nat)
    requires writer <= reader && !Passed(buf, writer, reader)
    ensures writer == reader
  {
  }

  lemma {:induction false} TightGood(buf: seq<byte>, pos: nat, v: Value)
    requires Tight(buf, pos, v)
    ensures LastGood(v, pos)
    ensures InStep(buf, pos + |Encode(v, pos)|, Decode(buf, pos).next, Good(v, pos))
    decreases v, 1
  {
    hide At, Encode, Decode, Marks, Weight, ShortItems, ShortEntries, LastGoodItems, LastGoodEntries, GoodItems,
      GoodEntries, DistinctKeys, Fits, Align, Passed;
    if v.List? {
      TightList(buf, pos, v);
    } else if v.Map? {
      TightMap(buf, pos, v);
    } else if v.Vector? && v.words == [] {
      TightEmpty(buf, pos, v.kind);
    } else {
      ReadFits(buf, pos);
      RoundTrip(buf, pos, v);
      NoMarks(buf, pos + |Encode(v, pos)|);
    }
  }

  /** What is read has a size below 2^32 and elements that fit. */
  lemma ReadFits(buf: seq<byte>, pos: nat)
    ensures var v := Decode(buf, pos).value;
            && !v.Custom? && (v.Str? ==> |v.chars| < SIZE_LIMIT)
            && (v.Vector? ==> |v.words| < SIZE_LIMIT && Fits(v.kind, v.words))
  {
    hide SizeAt, WordAt, VectorAt, BlockAt, DecodeItems, DecodeEntries, Zeros, Align, Fits;
    var next := ByteAt(buf, pos).next;
    VectorAtFits(buf, next, UInt8Kind);
    VectorAtFits(buf, next, Int32Kind);
    VectorAtFits(buf, next, Int64Kind);
    VectorAtFits(buf, next, Float32Kind);
    VectorAtFits(buf, next, Float64Kind);
  }

  lemma VectorAtFits(buf: seq<byte>, pos: nat, kind: Kind)
    ensures var v := VectorAt(buf, pos, kind).value;
            v.Vector? && v.kind == kind && |v.words| < SIZE_LIMIT && Fits(kind, v.words)
  {
    hide SizeAt, BlockAt, Zeros, Align, Unflatten;
  }

  lemma TightEmpty(buf: seq<byte>, pos: nat, kind: Kind)
    requires Tight(buf, pos, Vector(kind, []))
    ensures var v := Vector(kind, []);
            LastGood(v, pos) && InStep(buf, pos + |Encode(v, pos)|, Decode(buf, pos).next, Good(v, pos))
  {
    hide At, Encode, Decode, Marks, Weight, Align, Payload;
    var v := Vector(kind, []);
    EmptyListRead(buf, pos, kind);
    AlignStays(pos + 2, kind);
    Skipped(buf, pos, v);
  }

  /** A tight read that ends behind the write has skipped only zeros. */
  lemma Skipped(buf: seq<byte>, pos: nat, v: Value)
    requires Tight(buf, pos, v) && pos + |Encode(v, pos)| <= Decode(buf, pos).next
    ensures Marks(buf, pos + |Encode(v, pos)|, Decode(buf, pos).next) == 0
  {
    hide At, Encode, Decode, Marks, Weight, ShortMaps;
    EncodeWeight(v, pos);
    MarksAt(buf, pos, Encode(v, pos));
    MarksSplit(buf, pos, pos + |Encode(v, pos)|, Decode(buf, pos).next);
  }

  /** A tight read of a list or map starts with its header. */
  lemma TightHeader(buf: seq<byte>, pos: nat, v: Value, count: nat, rest: seq<byte>)
    requires Tight(buf, pos, v) && (v.List? || v.Map?)
    requires count < SIZE_LIMIT && Payload(v, pos + 1) == SizeBytes(count) + rest
    ensures var from := pos + 1 + |SizeBytes(count)|;
            && |Encode(v, pos)| == 1 + |SizeBytes(count)| + |rest| && At(buf, from, rest)
            && SizeAt(buf, pos + 1) == Parsed(count, from)
            && Decode(buf, pos) == DecodeOfType(buf, EncodedTypeForValue(v), pos + 1)
            && (from <= Decode(buf, pos).next ==>
                  Marks(buf, from, Decode(buf, pos).next) + 1 + Count(SizeBytes(count)) == Weight(v))
  {
    hide At, SizeAt, SizeBytes, Encode, Decode, DecodeOfType, Payload, Marks, Weight, ShortMaps, Count;
    var from := pos + 1 + |SizeBytes(count)|;
    HeaderRead(buf, pos, v, count, rest);
    WrittenTag(buf, pos, v);
    TagRead(buf, pos, v);
    AtSplit(buf, pos + 1, SizeBytes(count), rest);
    MarksAt(buf, pos + 1, SizeBytes(count));
    if from <= Decode(buf, pos).next {
      MarkFirst(buf, pos, Decode(buf, pos).next);
      MarksSplit(buf, pos + 1, from, Decode(buf, pos).next);
    }
  }

  lemma {:induction false} TightList(buf: seq<byte>, pos: nat, v: Value)
    requires v.List? && Tight(buf, pos, v)
    ensures LastGood(v, pos)
    ensures InStep(buf, pos + |Encode(v, pos)|, Decode(buf, pos).next, Good(v, pos))
    decreases v, 0
  {
    hide At, SizeAt, SizeBytes, Encode, Decode, EncodeItems, DecodeItems, GoodItems, LastGoodItems, ShortItems,
      WeightItems, Marks, Count, Passed;
    var items := v.items;
    ListSize(buf, pos, v);
    var from := pos + 1 + |SizeBytes(|items|)|;
    TightHeader(buf, pos, v, |items|, EncodeItems(items, from));
    TightItems(buf, from, items);
  }

  lemma ListSize(buf: seq<byte>, pos: nat, v: Value)
    requires v.List? && At(buf, pos, Encode(v, pos)) && Decode(buf, pos).value == v
    ensures |v.items| < SIZE_LIMIT
  {
    hide At, SizeAt, DecodeItems, Encode, Decode, Payload;
    TagRead(buf, pos, v);
  }

  lemma {:induction false} TightMap(buf: seq<byte>, pos: nat, v: Value)
    requires v.Map? && Tight(buf, pos, v)
    ensures LastGood(v, pos)
    ensures InStep(buf, pos + |Encode(v, pos)|, Decode(buf, pos).next, Good(v, pos))
    decreases v, 0
  {
    hide At, SizeAt, SizeBytes, Encode, Decode, EncodeEntries, DecodeEntries, GoodEntries, LastGoodEntries,
      ShortEntries, WeightEntries, Marks, Count, Passed, DistinctKeys;
    var entries := v.entries;
    var from := pos + 1 + |SizeBytes(|entries|)|;
    TightHeader(buf, pos, v, |entries|, EncodeEntries(entries, from));
    NoKeys();
    assert [] + entries == entries;
    TightEntries(buf, from, [], entries);
  }

  lemma {:induction false} PassedEntries(buf: seq<byte>, q: nat, r: nat, done: seq<Entry>, entries: seq<Entry>)
    requires InStep(buf, q, r, false) && ShortEntries(entries) && DistinctKeys(done)
    requires At(buf, q, EncodeEntries(entries, q)) && DecodeEntries(buf, r, |entries|, done).value == done + entries
    requires Marks(buf, r, DecodeEntries(buf, r, |entries|, done).next) == WeightEntries(entries)
    ensures NullEntries(entries) && DistinctKeys(done + entries)
    ensures var end, next := q + |EncodeEntries(entries, q)|, DecodeEntries(buf, r, |entries|, done).next;
            InStep(buf, end, next, false)
    decreases entries
  {
    hide At, Encode, EncodeEntry, Decode, Weight, WeightEntry, Marks, Passed, ShortEntry, DistinctKeys;
    if entries == [] {
      assert done + entries == done;
    } else {
      var e, rest := entries[0], entries[1..];
      var next := q + |EncodeEntry(e, q)|;
      AtSplit(buf, q, EncodeEntry(e, q), EncodeEntries(rest, next));
      EntriesTight(buf, r, done, entries);
      PassedEntry(buf, q, r, e);
      PassedEntries(buf, next, Decode(buf, Decode(buf, r).next).next, done + [e], rest);
      assert done + [e] + rest == done + entries;
    }
  }

  /** An entry at pos is what a read from r gives, and the read skips no byte but zeros. */
  ghost predicate EntryTight(buf: seq<byte>, pos: nat, r: nat, e: Entry) {
    var key := Decode(buf, r);
    var value := Decode(buf, key.next);
    && At(buf, pos, EncodeEntry(e, pos)) && key.value == e.key && value.value == e.value
    && Marks(buf, r, key.next) == Weight(e.key) && Marks(buf, key.next, value.next) == Weight(e.value)
    && ShortEntry(e)
  }

  lemma PassedEntry(buf: seq<byte>, q: nat, r: nat, e: Entry)
    requires InStep(buf, q, r, false) && EntryTight(buf, q, r, e)
    ensures e == Entry(Null, Null)
    ensures var end, next := q + |EncodeEntry(e, q)|, Decode(buf, Decode(buf, r).next).next;
            InStep(buf, end, next, false)
  {
    hide At, Encode, Decode, Weight, Marks, Passed, ShortMaps;
    var keyEnd := q + |Encode(e.key, q)|;
    AtSplit(buf, q, Encode(e.key, q), Encode(e.value, keyEnd));
    PassedNull(buf, q, r, e.key);
    PassedNull(buf, keyEnd, Decode(buf, r).next, e.value);
  }

  /** As many entries as were written means that none was dropped; the first and the rest take no more than their
      weight. */
  lemma EntriesTight(buf: seq<byte>, r: nat, done: seq<Entry>, entries: seq<Entry>)
    requires entries != [] && ShortEntries(entries) && DistinctKeys(done)
    requires DecodeEntries(buf, r, |entries|, done).value == done + entries
    requires Marks(buf, r, DecodeEntries(buf, r, |entries|, done).next) == WeightEntries(entries)
    ensures var e := entries[0];
            var key := Decode(buf, r);
            var value := Decode(buf, key.next);
            var rest := DecodeEntries(buf, value.next, |entries| - 1, done + [e]);
            && key.value == e.key && value.value == e.value && DistinctKeys(done + [e])
            && rest.value == (done + [e]) + entries[1..]
            && rest.next == DecodeEntries(buf, r, |entries|, done).next
            && Marks(buf, r, key.next) == Weight(e.key) && Marks(buf, key.next, value.next) == Weight(e.value)
            && Marks(buf, value.next, rest.next) == WeightEntries(entries[1..])
  {
    hide Decode, Weight, Marks, ShortMaps, HasKey, DistinctKeys;
    var key := Decode(buf, r);
    var value := Decode(buf, key.next);
    var e := Entry(key.value, value.value);
    var count := |entries| - 1;
    if HasKey(done, e.key) {
      EmplacedCount(buf, value.next, count, done);
      assert false;
    } else {
      NextKept(done, e, entries);
      DistinctGrows(done, e);
      var rest := DecodeEntries(buf, value.next, count, done + [e]);
      assert (done + [e]) + entries[1..] == done + entries;
      assert rest.value[|done + [e]|..] == entries[1..];
      DecodeWeight(buf, r);
      DecodeWeight(buf, key.next);
      EntriesReadWeight(buf, value.next, count, done + [e]);
      MarksSplit(buf, r, key.next, rest.next);
      MarksSplit(buf, key.next, value.next, rest.next);
    }
  }

  lemma {:induction false} TightEntries(buf: seq<byte>, q: nat, done: seq<Entry>, entries: seq<Entry>)
    requires At(buf, q, EncodeEntries(entries, q)) && ShortEntries(entries) && DistinctKeys(done)
    requires DecodeEntries(buf, q, |entries|, done).value == done + entries
    requires Marks(buf, q, DecodeEntries(buf, q, |entries|, done).next) == WeightEntries(entries)
    ensures LastGoodEntries(entries, q) && DistinctKeys(done + entries)
    ensures InStep(buf, q + |EncodeEntries(entries, q)|, DecodeEntries(buf, q, |entries|, done).next,
                   GoodEntries(entries, q))
    decreases entries
  {
    hide At, Encode, EncodeEntry, Decode, Weight, WeightEntry, Marks, Passed, ShortEntry, GoodEntry, LastGoodEntry,
      NullEntries, DistinctKeys;
    if entries == [] {
      assert done + entries == done;
      NoMarks(buf, q);
    } else {
      var e, rest := entries[0], entries[1..];
      var next := q + |EncodeEntry(e, q)|;
      AtSplit(buf, q, EncodeEntry(e, q), EncodeEntries(rest, next));
      EntriesTight(buf, q, done, entries);
      TightEntry(buf, q, e);
      assert (done + [e]) + rest == done + entries;
      var r := Decode(buf, Decode(buf, q).next).next;
      if Passed(buf, next, r) {
        PassedEntries(buf, next, r, done + [e], rest);
      } else {
        NotPassed(buf, next, r);
        TightEntries(buf, next, done + [e], rest);
      }
    }
  }

  lemma {:induction false} TightEntry(buf: seq<byte>, q: nat, e: Entry)
    requires EntryTight(buf, q, q, e)
    ensures LastGoodEntry(e, q)
    ensures InStep(buf, q + |EncodeEntry(e, q)|, Decode(buf, Decode(buf, q).next).next, GoodEntry(e, q))
    decreases e
  {
    hide At, Encode, Decode, Weight, Marks, Passed, ShortMaps, Good, LastGood;
    var keyEnd := q + |Encode(e.key, q)|;
    AtSplit(buf, q, Encode(e.key, q), Encode(e.value, keyEnd));
    TightGood(buf, q, e.key);
    var r := Decode(buf, q).next;
    if Passed(buf, keyEnd, r) {
      PassedNull(buf, keyEnd, r, e.value);
    } else {
      NotPassed(buf, keyEnd, r);
      TightGood(buf, keyEnd, e.value);
    }
  }

  // ----- the end of a message -----

  /** The values written last come back exactly if they are good as last values. Where every map is short, nothing
      else comes back. */
  lemma LastItemsExactly(prefix: seq<byte>, items: seq<Value>)
    ensures var pos := |prefix|;
            var read := DecodeItems(prefix + EncodeItems(items, pos), pos, |items|).value;
            && (LastGoodItems(items, pos) ==> read == items)
            && (ShortItems(items) && read == items ==> LastGoodItems(items, pos))
  {
    hide Encode, Decode, EncodeItems, DecodeItems, LastGoodItems, ShortItems, Marks, WeightItems;
    var pos := |prefix|;
    var s := EncodeItems(items, pos);
    var buf := prefix + s;
    var read := DecodeItems(buf, pos, |items|);
    assert buf[pos..pos + |s|] == s;
    if LastGoodItems(items, pos) {
      LastReadItems(buf, pos, items);
    }
    if ShortItems(items) && read.value == items {
      ItemsReadWeight(buf, pos, |items|);
      ItemsWeight(items, pos);
      MarksAt(buf, pos, s);
      NoMarksBehind(buf, pos, read.next);
      TightItems(buf, pos, items);
    }
  }

  /** Behind the end nothing is marked. */
  lemma NoMarksBehind(buf: seq<byte>, pos: nat, next: nat)
    requires pos <= |buf| && pos <= next
    ensures Marks(buf, pos, next) <= Marks(buf, pos, |buf|)
  {
    hide Marks;
    if next <= |buf| {
      MarksSplit(buf, pos, next, |buf|);
    } else {
      MarksSplit(buf, pos, |buf|, next);
      MarksNone(buf, |buf|, next);
    }
  }

  lemma LastExactly(prefix: seq<byte>, v: Value)
    ensures var pos := |prefix|;
            var read := Decode(prefix + Encode(v, pos), pos).value;
            && (LastGood(v, pos) ==> read == v)
            && (ShortMaps(v) && read == v ==> LastGood(v, pos))
  {
    hide Encode, Decode, LastGood, Good, ShortMaps;
    var pos := |prefix|;
    LastItemsExactly(prefix, [v]);
    Single(v, pos);
    OneItem(prefix + Encode(v, pos), pos);
  }

  lemma Single(v: Value, pos: nat)
    ensures EncodeItems([v], pos) == Encode(v, pos)
    ensures ShortItems([v]) <==> ShortMaps(v)
    ensures LastGoodItems([v], pos) <==> LastGood(v, pos)
  {
    hide Encode, ShortMaps, Good, LastGood;
    var end := pos + |Encode(v, pos)|;
    assert [v][1..] == [] && EncodeItems([], end) == [] && ShortItems([]) && LastGoodItems([], end);
    GoodLast(v, pos);
    assert Encode(v, pos) + [] == Encode(v, pos);
  }

  /** Behind a good value the rest decides. */
  lemma GoodThen(first: Value, rest: seq<Value>, pos: nat)
    requires Good(first, pos)
    ensures LastGoodItems([first] + rest, pos) <==> LastGoodItems(rest, pos + |Encode(first, pos)|)
  {
    hide Encode, Good, LastGood, AllNull;
    assert ([first] + rest)[1..] == rest;
    if AllNull(rest) {
      NullsGood(rest, pos + |Encode(first, pos)|);
    }
  }

  lemma {:induction false} NullsGood(items: seq<Value>, pos: nat)
    requires AllNull(items)
    ensures LastGoodItems(items, pos)
  {
    if items != [] {
      NullsGood(items[1..], pos + |Encode(items[0], pos)|);
    }
  }

  lemma OneItem(buf: seq<byte>, pos: nat)
    ensures DecodeItems(buf, pos, 1).value == [Decode(buf, pos).value]
  {
    hide Decode;
    assert DecodeItems(buf, Decode(buf, pos).next, 0).value == [];
  }

  lemma {:induction false} GoodLast(v: Value, pos: nat)
    ensures Good(v, pos) ==> LastGood(v, pos)
    decreases v
  {
    hide Encode, DistinctKeys, Fits;
    if v.List? {
      GoodLastItems(v.items, pos + 1 + |SizeBytes(|v.items|)|);
    } else if v.Map? {
      GoodLastEntries(v.entries, pos + 1 + |SizeBytes(|v.entries|)|);
    }
  }

  lemma {:induction false} GoodLastItems(items: seq<Value>, pos: nat)
    ensures GoodItems(items, pos) ==> LastGoodItems(items, pos)
    decreases items
  {
    if items != [] {
      GoodLastItems(items[1..], pos + |Encode(items[0], pos)|);
    }
  }

  lemma {:induction false} GoodLastEntries(entries: seq<Entry>, pos: nat)
    ensures GoodEntries(entries, pos) ==> LastGoodEntries(entries, pos)
    decreases entries
  {
    if entries != [] {
      GoodLastEntries(entries[1..], pos + |EncodeEntry(entries[0], pos)|);
    }
  }
}
