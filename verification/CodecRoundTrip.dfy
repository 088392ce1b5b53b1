/** Exactly which values survive a write followed by a read, at which offsets. */
module CodecRoundTrip {
  import opened Bytes
  import opened ByteStreams
  import opened StandardCodec

  /** buf holds s at pos. */
  ghost predicate At(buf: seq<byte>, pos: nat, s: seq<byte>) {
    pos + |s| <= |buf| && buf[pos..pos + |s|] == s
  }

  lemma AtSplit(buf: seq<byte>, pos: nat, s: seq<byte>, t: seq<byte>)
    ensures At(buf, pos, s + t) <==> At(buf, pos, s) && At(buf, pos + |s|, t)
  {
    if At(buf, pos, s + t) {
      assert s == (s + t)[..|s|] && t == (s + t)[|s|..];
    }
    if At(buf, pos, s) && At(buf, pos + |s|, t) {
      assert buf[pos..pos + |s| + |t|] == buf[pos..pos + |s|] + buf[pos + |s|..pos + |s| + |t|];
    }
  }

  // ----- the values that survive -----

  ghost predicate DistinctKeys(entries: seq<Entry>) {
    forall i, j :: 0 <= i < j < |entries| ==> entries[i].key != entries[j].key
  }

  ghost predicate Fits(kind: Kind, words: seq<nat>) {
    forall i :: 0 <= i < |words| ==> words[i] < Pow256(kind.Width())
  }

  /** What a caller can check before writing v into a buffer of pos bytes: every size is below 2^32, the
      words fit their element type, map keys are distinct, nothing is a custom value, and an empty typed list
      of wide elements happens to end on its element alignment. */
  ghost predicate Good(v: Value, pos: nat)
    decreases v
  {
    match v
    case Str(chars) => |chars| < SIZE_LIMIT
    case Vector(kind, words) =>
      && |words| < SIZE_LIMIT
      && Fits(kind, words)
      && (words == [] && kind.Width() > 1 ==> (pos + 2) % kind.Width() == 0)
    case List(items) => |items| < SIZE_LIMIT && GoodItems(items, pos + 1 + |SizeBytes(|items|)|)
    case Map(entries) =>
      && |entries| < SIZE_LIMIT
      && DistinctKeys(entries)
      && GoodEntries(entries, pos + 1 + |SizeBytes(|entries|)|)
    case Custom => false
    case _ => true
  }

  ghost predicate GoodItems(items: seq<Value>, pos: nat)
    decreases items
  {
    items != [] ==> Good(items[0], pos) && GoodItems(items[1..], pos + |Encode(items[0], pos)|)
  }

  ghost predicate GoodEntry(e: Entry, pos: nat)
    decreases e
  {
    Good(e.key, pos) && Good(e.value, pos + |Encode(e.key, pos)|)
  }

  ghost predicate GoodEntries(entries: seq<Entry>, pos: nat)
    decreases entries
  {
    entries != [] ==> GoodEntry(entries[0], pos) && GoodEntries(entries[1..], pos + |EncodeEntry(entries[0], pos)|)
  }

  // ----- good values are read back exactly -----

  lemma SizeRoundTrip(buf: seq<byte>, pos: nat, size: nat)
    requires size < SIZE_LIMIT && At(buf, pos, SizeBytes(size))
    ensures SizeAt(buf, pos) == Parsed(size, pos + |SizeBytes(size)|)
  {
    PowValues();
    var s := SizeBytes(size);
    assert buf[pos] == s[0];
    if size >= 254 {
      var w := if size <= 0xffff then 2 else 4;
      AtSplit(buf, pos, [s[0]], s[1..]);
      assert s == [s[0]] + s[1..] && s[1..] == ToLE(size, w);
      FromToLE(size, w);
    }
  }

  lemma BlockRead(buf: seq<byte>, pos: nat, data: seq<byte>)
    requires At(buf, pos, data)
    ensures BlockAt(buf, pos, Zeros(|data|)) == Parsed(data, pos + |data|)
  {
  }

  lemma TagRead(buf: seq<byte>, pos: nat, v: Value)
    requires At(buf, pos, Encode(v, pos))
    ensures At(buf, pos + 1, Payload(v, pos + 1))
    ensures Decode(buf, pos) == DecodeOfType(buf, EncodedTypeForValue(v), pos + 1)
    ensures |Encode(v, pos)| == 1 + |Payload(v, pos + 1)|
  {
    AtSplit(buf, pos, [EncodedTypeForValue(v)], Payload(v, pos + 1));
    assert buf[pos..pos + 1][0] == EncodedTypeForValue(v);
  }

  lemma ScalarRoundTrip(buf: seq<byte>, pos: nat, v: Value)
    requires v.Null? || v.Bool? || v.Int32? || v.Int64? || v.Float64?
    requires At(buf, pos, Payload(v, pos))
    ensures DecodeOfType(buf, EncodedTypeForValue(v), pos) == Parsed(v, pos + |Payload(v, pos)|)
  {
    PowValues();
    match v {
      case Int32(w) => FromToLE(w, 4);
      case Int64(w) => FromToLE(w, 8);
      case Float64(w) =>
        AtSplit(buf, pos, Zeros(Align(pos, 8) - pos), ToLE(w, 8));
        FromToLE(w, 8);
      case _ =>
    }
  }

  lemma StrRoundTrip(buf: seq<byte>, pos: nat, chars: seq<byte>)
    requires |chars| < SIZE_LIMIT && At(buf, pos, Payload(Str(chars), pos))
    ensures DecodeOfType(buf, 7, pos) == Parsed(Str(chars), pos + |Payload(Str(chars), pos)|)
  {
    hide At, SizeAt, SizeBytes, BlockAt;
    AtSplit(buf, pos, SizeBytes(|chars|), chars);
    SizeRoundTrip(buf, pos, |chars|);
    BlockRead(buf, pos + |SizeBytes(|chars|)|, chars);
  }

  lemma VectorRoundTrip(buf: seq<byte>, pos: nat, kind: Kind, words: seq<nat>)
    requires words != [] && |words| < SIZE_LIMIT && Fits(kind, words)
    requires At(buf, pos, VectorBytes(kind, words, pos))
    ensures VectorAt(buf, pos, kind) == Parsed(Vector(kind, words), pos + |VectorBytes(kind, words, pos)|)
  {
    hide At, Align, SizeAt, SizeBytes, BlockAt, Flatten, Unflatten;
    var header, width := SizeBytes(|words|), kind.Width();
    var start := pos + |header|;
    var pad, data := Zeros(Align(start, width) - start), Flatten(words, width);
    AtSplit(buf, pos, header + pad, data);
    AtSplit(buf, pos, header, pad);
    SizeRoundTrip(buf, pos, |words|);
    UnflattenFlatten(words, width);
    BlockRead(buf, start + |pad|, data);
  }

  lemma VectorPayloadRoundTrip(buf: seq<byte>, pos: nat, kind: Kind, words: seq<nat>)
    requires |words| < SIZE_LIMIT && Fits(kind, words)
    requires words == [] && kind.Width() > 1 ==> (pos + 1) % kind.Width() == 0
    requires At(buf, pos, Payload(Vector(kind, words), pos))
    ensures DecodeOfType(buf, kind.Tag(), pos)
         == Parsed(Vector(kind, words), pos + |Payload(Vector(kind, words), pos)|)
  {
    hide At, VectorAt, VectorBytes, Fits;
    if words == [] {
      EmptyVectorRoundTrip(buf, pos, kind);
    } else {
      VectorRoundTrip(buf, pos, kind, words);
    }
  }

  lemma EmptyVectorRoundTrip(buf: seq<byte>, pos: nat, kind: Kind)
    requires kind.Width() > 1 ==> (pos + 1) % kind.Width() == 0
    requires At(buf, pos, VectorBytes(kind, [], pos))
    ensures VectorAt(buf, pos, kind) == Parsed(Vector(kind, []), pos + |VectorBytes(kind, [], pos)|)
  {
    SizeRoundTrip(buf, pos, 0);
    assert BlockAt(buf, pos + 1, Zeros(0)).value == [];
  }

  lemma {:induction false} RoundTrip(buf: seq<byte>, pos: nat, v: Value)
    requires Good(v, pos) && At(buf, pos, Encode(v, pos))
    ensures Decode(buf, pos) == Parsed(v, pos + |Encode(v, pos)|)
    decreases v
  {
    hide At, Encode, Decode, DecodeOfType, Payload, DistinctKeys, Fits, GoodItems, GoodEntries;
    TagRead(buf, pos, v);
    match v {
      case Str(chars) => StrRoundTrip(buf, pos + 1, chars);
      case Vector(kind, words) => VectorPayloadRoundTrip(buf, pos + 1, kind, words);
      case List(items) => RoundTripList(buf, pos + 1, items);
      case Map(entries) => RoundTripMap(buf, pos + 1, entries);
      case Custom => assert false;
      case _ => ScalarRoundTrip(buf, pos + 1, v);
    }
  }

  lemma {:induction false} RoundTripList(buf: seq<byte>, pos: nat, items: seq<Value>)
    requires |items| < SIZE_LIMIT && GoodItems(items, pos + |SizeBytes(|items|)|)
    requires At(buf, pos, Payload(List(items), pos))
    ensures DecodeOfType(buf, 12, pos) == Parsed(List(items), pos + |Payload(List(items), pos)|)
    decreases items, 1
  {
    hide At, SizeAt, SizeBytes, EncodeItems, DecodeItems, GoodItems;
    var header := SizeBytes(|items|);
    AtSplit(buf, pos, header, EncodeItems(items, pos + |header|));
    SizeRoundTrip(buf, pos, |items|);
    RoundTripItems(buf, pos + |header|, items);
  }

  lemma {:induction false} RoundTripMap(buf: seq<byte>, pos: nat, entries: seq<Entry>)
    requires |entries| < SIZE_LIMIT && DistinctKeys(entries) && GoodEntries(entries, pos + |SizeBytes(|entries|)|)
    requires At(buf, pos, Payload(Map(entries), pos))
    ensures DecodeOfType(buf, 13, pos) == Parsed(Map(entries), pos + |Payload(Map(entries), pos)|)
    decreases entries, 1
  {
    hide At, SizeAt, SizeBytes, EncodeEntries, DecodeEntries, GoodEntries, DistinctKeys;
    var header := SizeBytes(|entries|);
    AtSplit(buf, pos, header, EncodeEntries(entries, pos + |header|));
    SizeRoundTrip(buf, pos, |entries|);
    assert [] + entries == entries;
    RoundTripEntries(buf, pos + |header|, [], entries);
  }

  lemma {:induction false} RoundTripItems(buf: seq<byte>, pos: nat, items: seq<Value>)
    requires GoodItems(items, pos) && At(buf, pos, EncodeItems(items, pos))
    ensures DecodeItems(buf, pos, |items|) == Parsed(items, pos + |EncodeItems(items, pos)|)
    decreases items, 0
  {
    hide At, Encode, Decode;
    if items != [] {
      var first, rest := items[0], items[1..];
      var next := pos + |Encode(first, pos)|;
      AtSplit(buf, pos, Encode(first, pos), EncodeItems(rest, next));
      RoundTrip(buf, pos, first);
      RoundTripItems(buf, next, rest);
      assert items == [first] + rest;
    }
  }

  lemma {:induction false} RoundTripEntries(buf: seq<byte>, pos: nat, done: seq<Entry>, entries: seq<Entry>)
    requires DistinctKeys(done + entries)
    requires GoodEntries(entries, pos) && At(buf, pos, EncodeEntries(entries, pos))
    ensures DecodeEntries(buf, pos, |entries|, done) == Parsed(done + entries, pos + |EncodeEntries(entries, pos)|)
    decreases entries, 0
  {
    hide At, Encode, Decode, EncodeEntry;
    if entries == [] {
      assert done + entries == done;
    } else {
      var e, rest := entries[0], entries[1..];
      var next := pos + |EncodeEntry(e, pos)|;
      AtSplit(buf, pos, EncodeEntry(e, pos), EncodeEntries(rest, next));
      RoundTripEntry(buf, pos, e);
      FreshKey(done, entries);
      assert (done + [e]) + rest == done + entries;
      RoundTripEntries(buf, next, done + [e], rest);
    }
  }

  lemma {:induction false} RoundTripEntry(buf: seq<byte>, pos: nat, e: Entry)
    requires GoodEntry(e, pos) && At(buf, pos, EncodeEntry(e, pos))
    ensures var key := Decode(buf, pos);
            key.value == e.key && Decode(buf, key.next) == Parsed(e.value, pos + |EncodeEntry(e, pos)|)
    decreases e
  {
    hide At, Encode, Decode, Good;
    var key := Encode(e.key, pos);
    AtSplit(buf, pos, key, Encode(e.value, pos + |key|));
    RoundTrip(buf, pos, e.key);
    RoundTrip(buf, pos + |key|, e.value);
  }

  lemma FreshKey(done: seq<Entry>, entries: seq<Entry>)
    requires entries != [] && DistinctKeys(done + entries)
    ensures !HasKey(done, entries[0].key)
  {
    var all := done + entries;
    forall i | 0 <= i < |done| ensures done[i].key != entries[0].key {
      assert all[i] == done[i] && all[|done|] == entries[0];
    }
  }

  // ----- the encoding depends on the offset only modulo 8 -----

  lemma Mod4(q: nat, r: nat)
    requires r < 4
    ensures (4 * q + r) % 4 == r
  {
  }

  lemma Mod8(q: nat, r: nat)
    requires r < 8
    ensures (8 * q + r) % 8 == r
  {
  }

  lemma AlignShift4(p: nat, k: nat)
    ensures Align(p + 8 * k, 4) == Align(p, 4) + 8 * k
  {
    assert p + 8 * k == 4 * (p / 4 + 2 * k) + p % 4;
    Mod4(p / 4 + 2 * k, p % 4);
  }

  lemma AlignShift8(p: nat, k: nat)
    ensures Align(p + 8 * k, 8) == Align(p, 8) + 8 * k
  {
    assert p + 8 * k == 8 * (p / 8 + k) + p % 8;
    Mod8(p / 8 + k, p % 8);
  }

  lemma AlignShift(p: nat, k: nat, kind: Kind)
    ensures Align(p + 8 * k, kind.Width()) == Align(p, kind.Width()) + 8 * k
  {
    AlignShift4(p, k);
    AlignShift8(p, k);
  }

  lemma {:induction false} EncodeShift(v: Value, p: nat, k: nat)
    ensures Encode(v, p + 8 * k) == Encode(v, p)
    decreases v
  {
    hide Align, SizeBytes, EncodeItems, EncodeEntries, Flatten;
    match v {
      case Float64(_) => AlignShift8(p + 1, k);
      case Vector(kind, words) => AlignShift(p + 1 + |SizeBytes(|words|)|, k, kind);
      case List(items) => EncodeItemsShift(items, p + 1 + |SizeBytes(|items|)|, k);
      case Map(entries) => EncodeEntriesShift(entries, p + 1 + |SizeBytes(|entries|)|, k);
      case _ =>
    }
  }

  lemma {:induction false} EncodeItemsShift(items: seq<Value>, p: nat, k: nat)
    ensures EncodeItems(items, p + 8 * k) == EncodeItems(items, p)
    decreases items
  {
    if items != [] {
      EncodeShift(items[0], p, k);
      EncodeItemsShift(items[1..], p + |Encode(items[0], p)|, k);
    }
  }

  lemma {:induction false} EncodeEntriesShift(entries: seq<Entry>, p: nat, k: nat)
    ensures EncodeEntries(entries, p + 8 * k) == EncodeEntries(entries, p)
    decreases entries
  {
    if entries != [] {
      EncodeEntryShift(entries[0], p, k);
      EncodeEntriesShift(entries[1..], p + |EncodeEntry(entries[0], p)|, k);
    }
  }

  lemma {:induction false} EncodeEntryShift(e: Entry, p: nat, k: nat)
    ensures EncodeEntry(e, p + 8 * k) == EncodeEntry(e, p)
    decreases e
  {
    EncodeShift(e.key, p, k);
    EncodeShift(e.value, p + |Encode(e.key, p)|, k);
  }

  /** The encoding of a value depends on where it starts only modulo 8. */
  lemma EncodeMod8(v: Value, p: nat, q: nat)
    requires p % 8 == q % 8
    ensures Encode(v, p) == Encode(v, q)
  {
    hide Encode;
    if p <= q {
      EncodeShift(v, p, (q - p) / 8);
    } else {
      EncodeShift(v, q, (p - q) / 8);
    }
  }
}
