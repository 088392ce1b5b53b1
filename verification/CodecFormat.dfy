/** The wire format of the codec, written out in numbers: what a value looks like in a buffer, from an offset on. The
    encoding is that and nothing else, and a read gives what stands there. */
module CodecFormat {
  import opened Bytes
  import opened ByteStreams
  import opened StandardCodec
  import opened CodecRoundTrip
  import opened CodecWeight
  import opened CodecEnd

  // ----- the format -----

  function Word2(s: seq<byte>, at: nat): nat
    requires at + 2 <= |s|
  {
    (s[at] as int) + 0x100 * (s[at + 1] as int)
  }

  function Word4(s: seq<byte>, at: nat): nat
    requires at + 4 <= |s|
  {
    Word2(s, at) + 0x1_0000 * Word2(s, at + 2)
  }

  function Word8(s: seq<byte>, at: nat): nat
    requires at + 8 <= |s|
  {
    Word4(s, at) + 0x1_0000_0000 * Word4(s, at + 4)
  }

  predicate ByteIs(s: seq<byte>, at: nat, b: byte) {
    at < |s| && s[at] == b
  }

  /** Where a size ends: behind its one byte, behind 254 and two bytes, or behind 255 and four, which keep it modulo
      2^32. */
  function SizeEnds(s: seq<byte>, at: nat, size: nat): Option<nat> {
    if size < 254 then if ByteIs(s, at, size) then Some(at + 1) else None
    else if size < 0x1_0000 then
      if at + 3 <= |s| && s[at] == 254 && Word2(s, at + 1) == size then Some(at + 3) else None
    else
      if at + 5 <= |s| && s[at] == 255 && Word4(s, at + 1) == size % 0x1_0000_0000 then Some(at + 5) else None
  }

  /** The first multiple of 4, and of 8, that is not before at. */
  function Multiple4(at: nat): (m: nat)
    ensures at <= m < at + 4 && m % 4 == 0
  {
    (at + 3) / 4 * 4
  }

  function Multiple8(at: nat): (m: nat)
    ensures at <= m < at + 8 && m % 8 == 0
  {
    (at + 7) / 8 * 8
  }

  predicate ZerosBetween(s: seq<byte>, a: nat, b: nat) {
    b <= |s| && forall i :: a <= i < b ==> s[i] == 0
  }

  /** Where a typed list's elements start, and where they end: one, four or eight bytes each. */
  function DataStart(kind: Kind, at: nat): nat {
    match kind
    case UInt8Kind => at
    case Int32Kind => Multiple4(at)
    case Int64Kind => Multiple8(at)
    case Float64Kind => Multiple8(at)
    case Float32Kind => Multiple4(at)
  }

  function ElementAt(kind: Kind, start: nat, i: nat): nat {
    match kind
    case UInt8Kind => start + i
    case Int32Kind => start + 4 * i
    case Int64Kind => start + 8 * i
    case Float64Kind => start + 8 * i
    case Float32Kind => start + 4 * i
  }

  /** The element stands there, its lowest byte first. */
  predicate ElementIs(s: seq<byte>, kind: Kind, at: nat, word: nat) {
    match kind
    case UInt8Kind => at < |s| && s[at] == word
    case Int32Kind => at + 4 <= |s| && Word4(s, at) == word
    case Int64Kind => at + 8 <= |s| && Word8(s, at) == word
    case Float64Kind => at + 8 <= |s| && Word8(s, at) == word
    case Float32Kind => at + 4 <= |s| && Word4(s, at) == word
  }

  predicate ElementsAre(s: seq<byte>, kind: Kind, start: nat, words: seq<nat>) {
    forall i :: 0 <= i < |words| ==> ElementIs(s, kind, ElementAt(kind, start, i), words[i])
  }

  function TypeByte(v: Value): byte {
    match v
    case Null => 0
    case Bool(flag) => if flag then 1 else 2
    case Int32(_) => 3
    case Int64(_) => 4
    case Float64(_) => 6
    case Str(_) => 7
    case Vector(UInt8Kind, _) => 8
    case Vector(Int32Kind, _) => 9
    case Vector(Int64Kind, _) => 10
    case Vector(Float64Kind, _) => 11
    case List(_) => 12
    case Map(_) => 13
    case Vector(Float32Kind, _) => 14
    case Custom => 0
  }

  /** Where the value ends, if it stands at the offset. */
  function Ends(s: seq<byte>, at: nat, v: Value): Option<nat>
    decreases v, 1
  {
    if !ByteIs(s, at, TypeByte(v)) then None else BodyEnds(s, at + 1, v)
  }

  /** The same behind the type byte. */
  function BodyEnds(s: seq<byte>, at: nat, v: Value): Option<nat>
    decreases v, 0
  {
    match v
    case Int32(w) => if at + 4 <= |s| && Word4(s, at) == w then Some(at + 4) else None
    case Int64(w) => if at + 8 <= |s| && Word8(s, at) == w then Some(at + 8) else None
    case Float64(w) =>
      var from := Multiple8(at);
      if from + 8 <= |s| && ZerosBetween(s, at, from) && Word8(s, from) == w then Some(from + 8) else None
    case Str(chars) =>
      var size := SizeEnds(s, at, |chars|);
      if size.Some? && size.value + |chars| <= |s| && s[size.value..size.value + |chars|] == chars
      then Some(size.value + |chars|) else None
    case Vector(kind, words) =>
      var size := SizeEnds(s, at, |words|);
      if size.None? || words == [] then size
      else
        var start := DataStart(kind, size.value);
        if ZerosBetween(s, size.value, start) && ElementsAre(s, kind, start, words)
        then Some(ElementAt(kind, start, |words|)) else None
    case List(items) =>
      var size := SizeEnds(s, at, |items|);
      if size.None? then None else ItemsEnd(s, size.value, items)
    case Map(entries) =>
      var size := SizeEnds(s, at, |entries|);
      if size.None? then None else EntriesEnd(s, size.value, entries)
    case _ => Some(at)
  }

  /** The values stand one behind the other. */
  function ItemsEnd(s: seq<byte>, at: nat, items: seq<Value>): Option<nat>
    decreases items
  {
    if items == [] then Some(at)
    else
      var first := Ends(s, at, items[0]);
      if first.None? then None else ItemsEnd(s, first.value, items[1..])
  }

  /** Each key has its value behind it. */
  function EntriesEnd(s: seq<byte>, at: nat, entries: seq<Entry>): Option<nat>
    decreases entries
  {
    if entries == [] then Some(at)
    else
      var first := EntryEnds(s, at, entries[0]);
      if first.None? then None else EntriesEnd(s, first.value, entries[1..])
  }

  function EntryEnds(s: seq<byte>, at: nat, e: Entry): Option<nat>
    decreases e
  {
    var key := Ends(s, at, e.key);
    if key.None? then None else Ends(s, key.value, e.value)
  }

  function ElementBound(kind: Kind): nat {
    match kind
    case UInt8Kind => 0x100
    case Int32Kind => 0x1_0000_0000
    case Int64Kind => 0x1_0000_0000_0000_0000
    case Float64Kind => 0x1_0000_0000_0000_0000
    case Float32Kind => 0x1_0000_0000
  }

  /** Every element of a typed list is a number of its element type. */
  ghost predicate Typed(v: Value)
    decreases v
  {
    match v
    case Vector(kind, words) => forall i :: 0 <= i < |words| ==> words[i] < ElementBound(kind)
    case List(items) => forall i :: i in items ==> Typed(i)
    case Map(entries) => forall e :: e in entries ==> Typed(e.key) && Typed(e.value)
    case _ => true
  }

  // ----- the encoding is in the format, and nothing else is -----

  /** s stands at the offset, and where it ends. */
  function Found(buf: seq<byte>, at: nat, s: seq<byte>): Option<nat> {
    if at + |s| <= |buf| && buf[at..at + |s|] == s then Some(at + |s|) else None
  }

  lemma FoundTwo(buf: seq<byte>, at: nat, s: seq<byte>, t: seq<byte>)
    ensures Found(buf, at, s + t)
         == if Found(buf, at, s).None? then None else Found(buf, at + |s|, t)
  {
    AtSplit(buf, at, s, t);
  }

  lemma FoundByte(buf: seq<byte>, at: nat, b: byte)
    ensures Found(buf, at, [b]) == if ByteIs(buf, at, b) then Some(at + 1) else None
  {
    if at < |buf| {
      assert buf[at..at + 1] == [buf[at]];
    }
  }

  lemma LE2(s: seq<byte>)
    requires |s| == 2
    ensures FromLE(s) == Word2(s, 0)
  {
    FromLE2(s);
  }

  lemma LE4(s: seq<byte>)
    requires |s| == 4
    ensures FromLE(s) == Word4(s, 0)
  {
    FromLE4(s);
  }

  lemma LE8(s: seq<byte>)
    requires |s| == 8
    ensures FromLE(s) == Word8(s, 0)
  {
    LESplit(s, 4);
    LE4(s[..4]);
    LE4(s[4..]);
    PowValues();
  }

  lemma {:induction false} LESplit(s: seq<byte>, k: nat)
    requires k <= |s|
    ensures FromLE(s) == FromLE(s[..k]) + Pow256(k) * FromLE(s[k..])
  {
    if k > 0 {
      LESplit(s[1..], k - 1);
      assert s[1..][..k - 1] == s[..k][1..] && s[1..][k - 1..] == s[k..];
      MulAssoc(Pow256(k - 1), FromLE(s[k..]));
    } else {
      assert s[0..] == s && s[..0] == [];
    }
  }

  lemma MulAssoc(p: nat, n: nat)
    ensures 256 * (p * n) == 256 * p * n
  {
  }

  /** A word of two, four or eight bytes stands where its bytes do. */
  lemma FoundWord(buf: seq<byte>, at: nat, w: nat, width: nat)
    requires width in [2, 4, 8] && w < Pow256(width)
    ensures var stands := at + width <= |buf| && w == match width case 2 => Word2(buf, at)
                                                                  case 4 => Word4(buf, at)
                                                                  case _ => Word8(buf, at);
            Found(buf, at, ToLE(w, width)) == if stands then Some(at + width) else None
  {
    hide ToLE, FromLE, Pow256;
    FromToLE(w, width);
    if at + width <= |buf| {
      var t := buf[at..at + width];
      ToFromLE(t);
      match width {
        case 2 => LE2(t);
        case 4 => LE4(t);
        case _ => LE8(t);
      }
    }
  }

  lemma FoundSize(buf: seq<byte>, at: nat, size: nat)
    ensures Found(buf, at, SizeBytes(size)) == SizeEnds(buf, at, size)
  {
    hide Found, ToLE, Word2, Word4;
    PowValues();
    if size < 254 {
      FoundByte(buf, at, size);
    } else if size < 0x1_0000 {
      FoundTwo(buf, at, [254], ToLE(size, 2));
      FoundByte(buf, at, 254);
      FoundWord(buf, at + 1, size, 2);
    } else {
      FoundTwo(buf, at, [255], ToLE(size % SIZE_LIMIT, 4));
      FoundByte(buf, at, 255);
      FoundWord(buf, at + 1, size % SIZE_LIMIT, 4);
    }
  }

  lemma FoundZeros(buf: seq<byte>, at: nat, n: nat)
    ensures Found(buf, at, Zeros(n)) == if ZerosBetween(buf, at, at + n) then Some(at + n) else None
  {
    if at + n <= |buf| {
      assert forall i :: at <= i < at + n ==> buf[at..at + n][i - at] == buf[i];
      if ZerosBetween(buf, at, at + n) {
        assert buf[at..at + n] == Zeros(n);
      }
    }
  }

  lemma FoundElement(buf: seq<byte>, at: nat, kind: Kind, word: nat)
    requires word < ElementBound(kind)
    ensures Found(buf, at, ToLE(word, kind.Width()))
         == if ElementIs(buf, kind, at, word) then Some(ElementAt(kind, at, 1)) else None
  {
    hide Found, Word4, Word8;
    PowValues();
    match kind {
      case UInt8Kind =>
        FoundByte(buf, at, word);
        assert ToLE(word, 1) == [word] + [] == [word];
      case Int32Kind => FoundWord(buf, at, word, 4);
      case Float32Kind => FoundWord(buf, at, word, 4);
      case _ => FoundWord(buf, at, word, 8);
    }
  }

  lemma ElementsCons(buf: seq<byte>, kind: Kind, start: nat, words: seq<nat>)
    requires words != []
    ensures ElementsAre(buf, kind, start, words) <==>
              ElementIs(buf, kind, start, words[0]) && ElementsAre(buf, kind, ElementAt(kind, start, 1), words[1..])
    ensures ElementAt(kind, ElementAt(kind, start, 1), |words| - 1) == ElementAt(kind, start, |words|)
  {
    hide ElementIs;
    var next := ElementAt(kind, start, 1);
    assert ElementAt(kind, start, 0) == start;
    if ElementsAre(buf, kind, start, words) {
      forall i | 0 <= i < |words| - 1 ensures ElementIs(buf, kind, ElementAt(kind, next, i), words[1..][i]) {
        assert ElementIs(buf, kind, ElementAt(kind, start, i + 1), words[i + 1]);
      }
    }
    if ElementIs(buf, kind, start, words[0]) && ElementsAre(buf, kind, next, words[1..]) {
      forall i | 0 <= i < |words| ensures ElementIs(buf, kind, ElementAt(kind, start, i), words[i]) {
        if i > 0 {
          assert ElementIs(buf, kind, ElementAt(kind, next, i - 1), words[1..][i - 1]);
        }
      }
    }
  }

  lemma {:induction false} FoundElements(buf: seq<byte>, start: nat, kind: Kind, words: seq<nat>)
    requires start <= |buf| && forall i :: 0 <= i < |words| ==> words[i] < ElementBound(kind)
    ensures Found(buf, start, Flatten(words, kind.Width()))
         == if ElementsAre(buf, kind, start, words) then Some(ElementAt(kind, start, |words|)) else None
    decreases |words|
  {
    hide Found, ElementIs, ElementsAre, ToLE, ElementBound, Kind.Width, Flatten;
    if words == [] {
      FlattenNothing(kind.Width());
      NoElements(buf, start, kind);
    } else {
      var rest := words[1..];
      assert words == [words[0]] + rest;
      FlattenCons(words[0], rest, kind.Width());
      FoundTwo(buf, start, ToLE(words[0], kind.Width()), Flatten(rest, kind.Width()));
      FoundElement(buf, start, kind, words[0]);
      ElementsCons(buf, kind, start, words);
      ElementWidth(buf, start, kind, words[0]);
      if Found(buf, start, ToLE(words[0], kind.Width())).Some? {
        FoundElements(buf, ElementAt(kind, start, 1), kind, rest);
      }
    }
  }

  lemma NoElements(buf: seq<byte>, start: nat, kind: Kind)
    requires start <= |buf|
    ensures Found(buf, start, []) == Some(ElementAt(kind, start, 0)) && ElementsAre(buf, kind, start, [])
  {
  }

  lemma ElementWidth(buf: seq<byte>, at: nat, kind: Kind, word: nat)
    ensures |ToLE(word, kind.Width())| == ElementAt(kind, at, 1) - at
    ensures Found(buf, at, ToLE(word, kind.Width())).Some? ==> ElementAt(kind, at, 1) <= |buf|
  {
    hide ToLE;
  }

  lemma StartIs(kind: Kind, at: nat)
    ensures Align(at, kind.Width()) == DataStart(kind, at)
  {
    hide Align, Multiple4, Multiple8;
    match kind {
      case UInt8Kind => Aligned1(at);
      case Int32Kind => Aligned4(at);
      case Float32Kind => Aligned4(at);
      case _ => AlignedIs(at);
    }
  }

  lemma Aligned1(at: nat)
    ensures Align(at, 1) == at
  {
  }

  lemma Aligned4(at: nat)
    ensures Align(at, 4) == Multiple4(at)
  {
  }

  lemma AlignedIs(at: nat)
    ensures Align(at, 8) == Multiple8(at)
  {
  }

  lemma PaddedFound(buf: seq<byte>, at: nat, start: nat, data: seq<byte>)
    requires at <= start
    ensures Found(buf, at, Zeros(start - at) + data)
         == if ZerosBetween(buf, at, start) then Found(buf, start, data) else None
  {
    hide Found, ZerosBetween, Zeros;
    FoundTwo(buf, at, Zeros(start - at), data);
    FoundZeros(buf, at, start - at);
  }

  lemma SizeEndsAt(buf: seq<byte>, at: nat, size: nat)
    ensures SizeEnds(buf, at, size).Some? ==> SizeEnds(buf, at, size).value == at + |SizeBytes(size)| <= |buf|
  {
    hide Word2, Word4;
  }

  lemma VectorFormat(buf: seq<byte>, at: nat, kind: Kind, words: seq<nat>)
    requires Typed(Vector(kind, words))
    ensures Found(buf, at, VectorBytes(kind, words, at)) == BodyEnds(buf, at, Vector(kind, words))
  {
    hide Found, SizeEnds, SizeBytes, Zeros, Flatten, ElementsAre, ElementBound, ZerosBetween, Align, DataStart,
      Kind.Width, ElementAt;
    var header := SizeBytes(|words|);
    var size, data := SizeEnds(buf, at, |words|), Flatten(words, kind.Width());
    FoundSize(buf, at, |words|);
    SizeEndsAt(buf, at, |words|);
    if words != [] {
      var start := at + |header|;
      var from := DataStart(kind, start);
      StartIs(kind, start);
      Assoc(header, Zeros(from - start), data);
      FoundTwo(buf, at, header, Zeros(from - start) + data);
      PaddedFound(buf, start, from, data);
      if ZerosBetween(buf, start, from) {
        ZerosFit(buf, start, from);
        FoundElements(buf, from, kind, words);
      }
    }
  }

  lemma ZerosFit(buf: seq<byte>, at: nat, end: nat)
    requires ZerosBetween(buf, at, end)
    ensures end <= |buf|
  {
  }

  lemma FoundEnds(buf: seq<byte>, at: nat, s: seq<byte>)
    ensures Found(buf, at, s).Some? ==> Found(buf, at, s).value == at + |s| <= |buf|
    ensures at <= |buf| ==> Found(buf, at, []) == Some(at)
  {
  }

  lemma ScalarFormat(buf: seq<byte>, at: nat, v: Value)
    requires !v.Vector? && !v.List? && !v.Map? && at <= |buf|
    ensures Found(buf, at, Payload(v, at)) == BodyEnds(buf, at, v)
  {
    hide Found, Word4, Word8, SizeEnds, SizeBytes, Zeros, ZerosBetween, ToLE, Multiple8, Align;
    PowValues();
    FoundEnds(buf, at, []);
    match v {
      case Int32(w) => FoundWord(buf, at, w, 4);
      case Int64(w) => FoundWord(buf, at, w, 8);
      case Float64(w) => Float64Format(buf, at, w);
      case Str(chars) => StrFormat(buf, at, chars);
      case _ =>
    }
  }

  lemma Float64Format(buf: seq<byte>, at: nat, w: Word64)
    ensures Found(buf, at, Payload(Float64(w), at)) == BodyEnds(buf, at, Float64(w))
  {
    hide Found, Word8, Zeros, ZerosBetween, ToLE, Multiple8, Align;
    PowValues();
    AlignedIs(at);
    PaddedFound(buf, at, Multiple8(at), ToLE(w, 8));
    FoundWord(buf, Multiple8(at), w, 8);
  }

  lemma StrFormat(buf: seq<byte>, at: nat, chars: seq<byte>)
    ensures Found(buf, at, Payload(Str(chars), at)) == BodyEnds(buf, at, Str(chars))
  {
    hide SizeEnds, SizeBytes;
    FoundTwo(buf, at, SizeBytes(|chars|), chars);
    FoundSize(buf, at, |chars|);
    SizeEndsAt(buf, at, |chars|);
  }

  lemma FoundTag(buf: seq<byte>, at: nat, v: Value)
    ensures Found(buf, at, Encode(v, at))
         == if ByteIs(buf, at, TypeByte(v)) then Found(buf, at + 1, Payload(v, at + 1)) else None
  {
    hide Found, Payload, ByteIs;
    FoundTwo(buf, at, [EncodedTypeForValue(v)], Payload(v, at + 1));
    FoundByte(buf, at, TypeByte(v));
  }

  /** A value stands where its encoding does, and ends where that ends. */
  lemma {:induction false} FormatExactly(buf: seq<byte>, at: nat, v: Value)
    requires Typed(v)
    ensures Ends(buf, at, v) == Found(buf, at, Encode(v, at))
    decreases v, 1
  {
    hide Found, Encode, Payload, BodyEnds, TypeByte, Typed;
    FoundTag(buf, at, v);
    if ByteIs(buf, at, TypeByte(v)) {
      if v.Vector? {
        VectorFormat(buf, at + 1, v.kind, v.words);
        VectorPayload(v.kind, v.words, at + 1);
      } else if v.List? {
        ListFormat(buf, at + 1, v);
      } else if v.Map? {
        MapFormat(buf, at + 1, v);
      } else {
        ScalarFormat(buf, at + 1, v);
      }
    }
  }

  lemma VectorPayload(kind: Kind, words: seq<nat>, at: nat)
    ensures Payload(Vector(kind, words), at) == VectorBytes(kind, words, at)
  {
  }

  lemma {:induction false} ListFormat(buf: seq<byte>, at: nat, v: Value)
    requires v.List? && Typed(v)
    ensures Found(buf, at, Payload(v, at)) == BodyEnds(buf, at, v)
    decreases v, 0
  {
    hide Found, SizeEnds, SizeBytes, EncodeItems, ItemsEnd;
    var header := SizeBytes(|v.items|);
    FoundSize(buf, at, |v.items|);
    SizeEndsAt(buf, at, |v.items|);
    FoundTwo(buf, at, header, EncodeItems(v.items, at + |header|));
    if SizeEnds(buf, at, |v.items|).Some? {
      ItemsFormat(buf, at + |header|, v.items);
    }
  }

  lemma {:induction false} MapFormat(buf: seq<byte>, at: nat, v: Value)
    requires v.Map? && Typed(v)
    ensures Found(buf, at, Payload(v, at)) == BodyEnds(buf, at, v)
    decreases v, 0
  {
    hide Found, SizeEnds, SizeBytes, EncodeEntries, EntriesEnd;
    var header := SizeBytes(|v.entries|);
    FoundSize(buf, at, |v.entries|);
    SizeEndsAt(buf, at, |v.entries|);
    FoundTwo(buf, at, header, EncodeEntries(v.entries, at + |header|));
    if SizeEnds(buf, at, |v.entries|).Some? {
      EntriesFormat(buf, at + |header|, v.entries);
    }
  }

  lemma {:induction false} ItemsFormat(buf: seq<byte>, at: nat, items: seq<Value>)
    requires at <= |buf| && forall i :: i in items ==> Typed(i)
    ensures ItemsEnd(buf, at, items) == Found(buf, at, EncodeItems(items, at))
    decreases items
  {
    hide Found, Encode, Ends, Typed;
    FoundEnds(buf, at, []);
    if items != [] {
      var first := Encode(items[0], at);
      FormatExactly(buf, at, items[0]);
      FoundTwo(buf, at, first, EncodeItems(items[1..], at + |first|));
      FoundEnds(buf, at, first);
      if Found(buf, at, first).Some? {
        ItemsFormat(buf, at + |first|, items[1..]);
      }
    }
  }

  lemma {:induction false} EntriesFormat(buf: seq<byte>, at: nat, entries: seq<Entry>)
    requires at <= |buf| && forall e :: e in entries ==> Typed(e.key) && Typed(e.value)
    ensures EntriesEnd(buf, at, entries) == Found(buf, at, EncodeEntries(entries, at))
    decreases entries
  {
    hide Found, EncodeEntry, EntryEnds, Typed;
    FoundEnds(buf, at, []);
    if entries != [] {
      var first := EncodeEntry(entries[0], at);
      EntryFormat(buf, at, entries[0]);
      FoundTwo(buf, at, first, EncodeEntries(entries[1..], at + |first|));
      FoundEnds(buf, at, first);
      if Found(buf, at, first).Some? {
        EntriesFormat(buf, at + |first|, entries[1..]);
      }
    }
  }

  lemma {:induction false} EntryFormat(buf: seq<byte>, at: nat, e: Entry)
    requires Typed(e.key) && Typed(e.value)
    ensures EntryEnds(buf, at, e) == Found(buf, at, EncodeEntry(e, at))
    decreases e
  {
    hide Found, Encode, Ends, Typed;
    var key := Encode(e.key, at);
    FormatExactly(buf, at, e.key);
    FoundTwo(buf, at, key, Encode(e.value, at + |key|));
    FoundEnds(buf, at, key);
    if Found(buf, at, key).Some? {
      FormatExactly(buf, at + |key|, e.value);
    }
  }

  /** What is written is in the format, from the offset where it is written to its own end. */
  lemma WrittenInFormat(before: seq<byte>, v: Value)
    requires Typed(v)
    ensures var written := before + Encode(v, |before|); Ends(written, |before|, v) == Some(|written|)
  {
    hide Encode, Ends, Typed;
    var written := before + Encode(v, |before|);
    FormatExactly(written, |before|, v);
    assert written[|before|..] == Encode(v, |before|);
  }

  // ----- what stands in a buffer is read -----

  /** A good value is read back from wherever it stands. */
  lemma StandsRead(buf: seq<byte>, at: nat, v: Value)
    requires Typed(v) && Good(v, at) && Ends(buf, at, v).Some?
    ensures Decode(buf, at) == Parsed(v, Ends(buf, at, v).value)
  {
    hide Encode, Ends, Typed, Good, Decode;
    FormatExactly(buf, at, v);
    RoundTrip(buf, at, v);
  }

  /** The elements of a typed list are read from the first multiple of their size behind the list's size, whatever
      stands in between, and the read ends behind the last one. */
  lemma ElementsRead(buf: seq<byte>, at: nat, kind: Kind, words: seq<nat>)
    requires Typed(Vector(kind, words)) && 0 < |words| < 0x1_0000_0000
    requires ByteIs(buf, at, TypeByte(Vector(kind, words))) && SizeEnds(buf, at + 1, |words|).Some?
    requires ElementsAre(buf, kind, DataStart(kind, SizeEnds(buf, at + 1, |words|).value), words)
    ensures var start := DataStart(kind, SizeEnds(buf, at + 1, |words|).value);
            Decode(buf, at) == Parsed(Vector(kind, words), ElementAt(kind, start, |words|))
  {
    hide Found, SizeEnds, SizeBytes, SizeAt, Flatten, Unflatten, ElementsAre, ElementIs, ElementBound, Align, DataStart,
      Kind.Width, ElementAt, BlockAt;
    var size := SizeEnds(buf, at + 1, |words|).value;
    var start, data := DataStart(kind, size), Flatten(words, kind.Width());
    FoundSize(buf, at + 1, |words|);
    SizeEndsAt(buf, at + 1, |words|);
    SizeFound(buf, at + 1, |words|);
    StartIs(kind, size);
    WordsFit(kind, words);
    ElementsInside(buf, kind, start, words);
    FoundElements(buf, start, kind, words);
    FoundEnds(buf, start, data);
    BlockFound(buf, start, data);
    UnflattenFlatten(words, kind.Width());
    VectorTagRead(buf, at, kind, words);
  }

  lemma SizeFound(buf: seq<byte>, at: nat, size: nat)
    requires size < SIZE_LIMIT && Found(buf, at, SizeBytes(size)).Some?
    ensures SizeAt(buf, at) == Parsed(size, at + |SizeBytes(size)|)
  {
    hide SizeAt, SizeBytes;
    SizeRoundTrip(buf, at, size);
  }

  lemma BlockFound(buf: seq<byte>, at: nat, data: seq<byte>)
    requires Found(buf, at, data).Some?
    ensures BlockAt(buf, at, Zeros(|data|)) == Parsed(data, at + |data|)
  {
  }

  lemma WordsFit(kind: Kind, words: seq<nat>)
    requires Typed(Vector(kind, words))
    ensures forall i :: 0 <= i < |words| ==> words[i] < Pow256(kind.Width())
  {
    PowValues();
  }

  /** Elements that stand in the buffer do not start behind its end. */
  lemma ElementsInside(buf: seq<byte>, kind: Kind, start: nat, words: seq<nat>)
    requires words != [] && ElementsAre(buf, kind, start, words)
    ensures start <= |buf|
  {
    assert ElementIs(buf, kind, ElementAt(kind, start, 0), words[0]);
  }

  lemma VectorTagRead(buf: seq<byte>, at: nat, kind: Kind, words: seq<nat>)
    requires ByteIs(buf, at, TypeByte(Vector(kind, words)))
    ensures Decode(buf, at) == VectorAt(buf, at + 1, kind)
  {
    hide VectorAt;
  }
}
