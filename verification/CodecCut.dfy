/** Reading what is no encoding: unknown types, and buffers that end in a size, a number, a text or a list. Missing
    bytes are read as zeros, and nothing that is cut off is skipped. */
module CodecCut {
  import opened Bytes
  import opened ByteStreams
  import opened StandardCodec
  import opened CodecRoundTrip
  import opened CodecWeight
  import opened CodecEnd
  import opened CodecFormat

  /** A null is read behind the end of the buffer, and for every type byte above 14. */
  lemma NullRead(buf: seq<byte>, at: nat)
    ensures at >= |buf| ==> Decode(buf, at) == Parsed(Null, at)
    ensures at < |buf| && (buf[at] == 0 || buf[at] > 14) ==> Decode(buf, at) == Parsed(Null, at + 1)
  {
  }

  function Nothing(n: nat): (s: seq<nat>)
    ensures |s| == n
  {
    seq(n, _ => 0)
  }

  lemma {:induction false} NothingLE(n: nat)
    ensures FromLE(Zeros(n)) == 0
  {
    if n > 0 {
      NothingLE(n - 1);
      assert Zeros(n)[1..] == Zeros(n - 1);
    }
  }

  /** A number that is cut off is 0; an 8-byte real number starts at a multiple of 8. */
  lemma NumberCut(buf: seq<byte>, at: nat)
    requires at < |buf|
    ensures buf[at] == 3 && at + 5 > |buf| ==> Decode(buf, at) == Parsed(Int32(0), at + 1)
    ensures buf[at] == 4 && at + 9 > |buf| ==> Decode(buf, at) == Parsed(Int64(0), at + 1)
    ensures buf[at] == 6 && Multiple8(at + 1) + 8 > |buf| ==> Decode(buf, at) == Parsed(Float64(0), Multiple8(at + 1))
  {
    NothingLE(4);
    NothingLE(8);
    AlignedIs(at + 1);
  }

  /** A text, or an integer that is written as one, type bytes 7 and 5: what stands behind the size, or as many zeros if
      that is not all there. */
  lemma TextRead(buf: seq<byte>, at: nat, size: nat)
    requires at < |buf| && buf[at] in {5, 7}
    requires size < 0x1_0000_0000 && SizeEnds(buf, at + 1, size).Some?
    ensures var from := SizeEnds(buf, at + 1, size).value;
            Decode(buf, at) == if from + size <= |buf| then Parsed(Str(buf[from..from + size]), from + size)
                               else Parsed(Str(Zeros(size)), from)
  {
    hide SizeEnds, SizeAt, SizeBytes, Found;
    SizeIs(buf, at + 1, size);
  }

  lemma SizeIs(buf: seq<byte>, at: nat, size: nat)
    requires size < 0x1_0000_0000 && SizeEnds(buf, at, size).Some?
    ensures SizeAt(buf, at) == Parsed(size, SizeEnds(buf, at, size).value)
  {
    hide SizeEnds, SizeAt, SizeBytes, Found;
    FoundSize(buf, at, size);
    SizeEndsAt(buf, at, size);
    SizeFound(buf, at, size);
  }

  lemma {:induction false} NoWords(n: nat, width: nat)
    ensures Unflatten(Zeros(n * width), n, width) == Nothing(n)
  {
    hide FromLE;
    if n > 0 {
      var s := Zeros(n * width);
      Rows(n, width);
      NothingLE(width);
      assert s[..width] == Zeros(width) && s[width..] == Zeros((n - 1) * width);
      NoWords(n - 1, width);
      assert Nothing(n) == [0] + Nothing(n - 1);
    }
  }

  lemma Rows(n: nat, width: nat)
    requires n > 0
    ensures n * width == width + (n - 1) * width
  {
  }

  /** A typed list that is cut off has as many zeros as its size says, and is read up to where its elements start. */
  lemma ListCut(buf: seq<byte>, at: nat, kind: Kind, n: nat)
    requires n < 0x1_0000_0000
    requires ByteIs(buf, at, TypeByte(Vector(kind, []))) && SizeEnds(buf, at + 1, n).Some?
    requires ElementAt(kind, DataStart(kind, SizeEnds(buf, at + 1, n).value), n) > |buf|
    ensures var start := DataStart(kind, SizeEnds(buf, at + 1, n).value);
            Decode(buf, at) == Parsed(Vector(kind, Nothing(n)), start)
  {
    hide SizeEnds, SizeAt, SizeBytes, Found, Unflatten, Align, DataStart;
    var size := SizeEnds(buf, at + 1, n).value;
    SizeIs(buf, at + 1, n);
    StartIs(kind, size);
    NoWords(n, kind.Width());
    AtElement(kind, DataStart(kind, size), n);
    VectorTagRead(buf, at, kind, []);
  }

  lemma AtElement(kind: Kind, start: nat, n: nat)
    ensures ElementAt(kind, start, n) == start + n * kind.Width()
  {
  }

  /** The size at the offset is cut off. */
  predicate CutSize(buf: seq<byte>, at: nat) {
    at < |buf| && ((buf[at] == 254 && at + 3 > |buf|) || (buf[at] == 255 && at + 5 > |buf|))
  }

  lemma SizeMissing(buf: seq<byte>, at: nat)
    requires CutSize(buf, at)
    ensures SizeAt(buf, at) == Parsed(0, at + 1)
  {
    NothingLE(2);
    NothingLE(4);
  }

  lemma NoItems(buf: seq<byte>, at: nat)
    ensures DecodeItems(buf, at, 0) == Parsed([], at) && DecodeEntries(buf, at, 0, []) == Parsed([], at)
  {
  }

  /** A size that is cut off is 0 and only its first byte is read. */
  lemma SizeCut(buf: seq<byte>, at: nat)
    requires at < |buf| && CutSize(buf, at + 1)
    ensures buf[at] in {5, 7} ==> Decode(buf, at) == Parsed(Str([]), at + 2)
    ensures buf[at] == 12 ==> Decode(buf, at) == Parsed(List([]), at + 2)
    ensures buf[at] == 13 ==> Decode(buf, at) == Parsed(Map([]), at + 2)
  {
    hide SizeAt, CutSize, DecodeItems, DecodeEntries;
    SizeMissing(buf, at + 1);
    NoItems(buf, at + 2);
  }

  /** A typed list is then empty, and read up to where its elements would start. */
  lemma ListSizeCut(buf: seq<byte>, at: nat, kind: Kind)
    requires ByteIs(buf, at, TypeByte(Vector(kind, []))) && CutSize(buf, at + 1)
    ensures Decode(buf, at) == Parsed(Vector(kind, []), DataStart(kind, at + 2))
  {
    hide SizeAt, CutSize, Align, DataStart;
    SizeMissing(buf, at + 1);
    StartIs(kind, at + 2);
    VectorTagRead(buf, at, kind, []);
  }

  function Nulls(n: nat): seq<Value> {
    seq(n, _ => Null)
  }

  /** A list has as many items as its size says, however early the buffer ends: those that are missing are null. */
  lemma {:induction false} ItemsCut(buf: seq<byte>, at: nat, n: nat)
    requires at >= |buf|
    ensures DecodeItems(buf, at, n) == Parsed(Nulls(n), at)
    decreases n
  {
    hide Decode;
    if n > 0 {
      NullRead(buf, at);
      ItemsCut(buf, at, n - 1);
      assert [Null] + Nulls(n - 1) == Nulls(n);
    } else {
      assert Nulls(0) == [];
    }
  }

  /** A map that is cut off before its first entry has one entry, null for null, whatever its size says. */
  lemma {:induction false} EntriesCut(buf: seq<byte>, at: nat, n: nat)
    requires at >= |buf|
    ensures DecodeEntries(buf, at, n, [Entry(Null, Null)]) == Parsed([Entry(Null, Null)], at)
    ensures n > 0 ==> DecodeEntries(buf, at, n, []) == Parsed([Entry(Null, Null)], at)
    decreases n
  {
    hide Decode;
    if n > 0 {
      NullRead(buf, at);
      EntriesCut(buf, at, n - 1);
      assert HasKey([Entry(Null, Null)], Null) by { assert [Entry(Null, Null)][0].key == Null; }
      assert [] + [Entry(Null, Null)] == [Entry(Null, Null)];
    }
  }
}
