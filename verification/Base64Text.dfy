/** The encoding and the decoding in numbers: 24 bits at a time, as section 4 of RFC 4648 draws them, and what becomes
    of other characters in the text. */
module Base64Text {
  import opened Bytes
  import opened Base64

  const ALPHABET := "ABCDEFGHIJKLMNOPQRSTUVWXYZabcdefghijklmnopqrstuvwxyz0123456789+/"

  // ----- encoding -----

  function ByteOr0(b: seq<byte>, i: nat): byte {
    if i < |b| then b[i] else 0
  }

  /** Three bytes as one number, zeros where there are less. */
  function Bits24(b: seq<byte>, i: nat): nat {
    0x1_0000 * (ByteOr0(b, i) as int) + 0x100 * (ByteOr0(b, i + 1) as int) + (ByteOr0(b, i + 2) as int)
  }

  /** The sextets of such a number, the highest first. */
  function SextetIn(n: nat, j: nat): nat {
    (match j case 0 => n / 0x4_0000 case 1 => n / 0x1000 case 2 => n / 0x40 case _ => n) % 0x40
  }

  /** A number of four sextets. */
  lemma SextetsIn(v1: nat, v2: nat, v3: nat, v4: nat)
    requires v1 < 64 && v2 < 64 && v3 < 64 && v4 < 64
    ensures var n := 0x4_0000 * v1 + 0x1000 * v2 + 0x40 * v3 + v4;
            SextetIn(n, 0) == v1 && SextetIn(n, 1) == v2 && SextetIn(n, 2) == v3 && SextetIn(n, 3) == v4
  {
    Lowest(0x1000 * v1 + 0x40 * v2 + v3, v4);
    Middle(0x40 * v1 + v2, 0x40 * v3 + v4);
    High(v1, 0x1000 * v2 + 0x40 * v3 + v4);
  }

  lemma Lowest(high: nat, v: nat)
    requires v < 64
    ensures (0x40 * high + v) / 0x40 == high && (0x40 * high + v) % 0x40 == v
  {
  }

  lemma Middle(high: nat, low: nat)
    requires low < 0x1000
    ensures (0x1000 * high + low) / 0x1000 == high
  {
  }

  lemma High(high: nat, low: nat)
    requires low < 0x4_0000
    ensures (0x4_0000 * high + low) / 0x4_0000 == high
  {
  }

  lemma SextetsOf(c1: byte, c2: byte, c3: byte)
    ensures var n := 0x1_0000 * (c1 as int) + 0x100 * (c2 as int) + (c3 as int);
            && SextetIn(n, 0) == c1 / 4 && SextetIn(n, 1) == c1 % 4 * 16 + c2 / 16
            && SextetIn(n, 2) == c2 % 16 * 4 + c3 / 64 && SextetIn(n, 3) == c3 % 64
  {
    hide SextetIn;
    var v1, v2, v3, v4 := c1 / 4, c1 % 4 * 16 + c2 / 16, c2 % 16 * 4 + c3 / 64, c3 % 64;
    assert 0x1_0000 * (c1 as int) == 0x4_0000 * v1 + 0x1_0000 * (c1 % 4);
    assert 0x100 * (c2 as int) == 0x1000 * (c2 / 16) + 0x100 * (c2 % 16);
    assert c3 == 0x40 * (c3 / 64) + v4;
    SextetsIn(v1, v2, v3, v4);
  }

  lemma AlphabetIs(v: Sextet)
    ensures CharOf(v) == ALPHABET[v]
  {
  }

  lemma FirstGroup(b: seq<byte>, k: nat)
    requires b != [] && k < 4
    ensures var group := if |b| == 1 then Base256To64(b[0], 0, 0, 2)
                         else if |b| == 2 then Base256To64(b[0], b[1], 0, 1)
                         else Base256To64(b[0], b[1], b[2], 0);
            group[k] == if 6 * k >= 8 * |b| then '=' else ALPHABET[SextetIn(Bits24(b, 0), k)]
  {
    hide CharOf, ALPHABET, SextetIn;
    var c1, c2, c3 := ByteOr0(b, 0), ByteOr0(b, 1), ByteOr0(b, 2);
    SextetsOf(c1, c2, c3);
    AlphabetIs(c1 / 4);
    AlphabetIs(c1 % 4 * 16 + c2 / 16);
    AlphabetIs(c2 % 16 * 4 + c3 / 64);
    AlphabetIs(c3 % 64);
  }

  /** Every character of the encoding is the letter for its six bits, or an equals sign where no byte reaches them. */
  lemma {:induction false} EncodedAt(b: seq<byte>, k: nat)
    requires k < |Encode(b)|
    ensures Encode(b)[k] == if 6 * k >= 8 * |b| then '=' else ALPHABET[SextetIn(Bits24(b, k / 4 * 3), k % 4)]
    decreases |b|
  {
    hide CharOf, ALPHABET, SextetIn, Base256To64;
    EncodeCases(b);
    if k < 4 {
      FirstGroup(b, k);
    } else {
      EncodedAt(b[3..], k - 4);
      assert k / 4 * 3 == (k - 4) / 4 * 3 + 3 && k % 4 == (k - 4) % 4;
      BitsBehind(b, (k - 4) / 4 * 3);
    }
  }

  lemma BitsBehind(b: seq<byte>, i: nat)
    requires |b| >= 3
    ensures Bits24(b[3..], i) == Bits24(b, i + 3)
  {
  }

  // ----- decoding -----

  function ValueOr0(v: seq<Sextet>, i: nat): nat {
    if i < |v| then v[i] else 0
  }

  /** Four values as one number, zeros where there are less. */
  function Number(v: seq<Sextet>, i: nat): nat {
    0x4_0000 * ValueOr0(v, i) + 0x1000 * ValueOr0(v, i + 1) + 0x40 * ValueOr0(v, i + 2) + ValueOr0(v, i + 3)
  }

  /** The bytes of such a number, the highest first. */
  function ByteIn(n: nat, j: nat): byte {
    (match j case 0 => n / 0x1_0000 case 1 => n / 0x100 case _ => n) % 0x100
  }

  /** Three bytes for every four values; one for two that are left over, and two for three. */
  function BytesOf(v: seq<Sextet>): seq<byte> {
    seq(3 * |v| / 4, j requires 0 <= j => ByteIn(Number(v, j / 3 * 4), j % 3))
  }

  predicate IsLetter(c: char) {
    c in ALPHABET
  }

  ghost function LetterValue(c: char): Sextet
    requires IsLetter(c)
  {
    var v: nat :| v < |ALPHABET| && ALPHABET[v] == c;
    v
  }

  /** The values of the letters in the text, and 63 behind them if it ends in another character. */
  ghost function Values(t: string): seq<Sextet> {
    if t == "" then []
    else if IsLetter(t[0]) then [LetterValue(t[0])] + Values(t[1..])
    else if |t| == 1 then [63]
    else Values(t[1..])
  }

  lemma LetterIs(c: char)
    ensures IsLetter(c) <==> Base256Char(c) != INV
    ensures IsLetter(c) ==> LetterValue(c) == Base256Char(c)
  {
    hide ALPHABET, CharOf;
    if IsLetter(c) {
      var v := LetterValue(c);
      AlphabetSize();
      AlphabetIs(v);
      CharTable(v);
    }
    if Base256Char(c) != INV {
      CharBack(c);
      AlphabetSize();
      AlphabetIs(Base256Char(c));
      assert ALPHABET[Base256Char(c)] == c;
    }
  }

  lemma AlphabetSize()
    ensures |ALPHABET| == 64
  {
  }

  lemma CharBack(c: char)
    requires Base256Char(c) != INV
    ensures CharOf(Base256Char(c)) == c
  {
    hide UPPER, LOWER, OTHERS;
    TableLengths();
    var v := Base256Char(c);
    if v < 26 {
      UpperTable(v);
    } else if v < 52 {
      LowerTable(v - 26);
    } else {
      OthersTable(v - 52);
      OthersInjective(c, v - 52);
    }
  }

  lemma OthersInjective(c: char, k: nat)
    requires k < 12 && Base256Char(c) == k + 52
    ensures OTHERS[k] == c
  {
  }

  lemma {:induction false} NextLetter(t: string)
    requires t != ""
    ensures var next := NextValue(t);
            && Values(t) != [] && next.value % 64 == Values(t)[0] && Values(next.rest) == Values(t)[1..]
            && (next.value == INV ==> Values(t) == [63])
  {
    hide Base256Char, ALPHABET, IsLetter;
    LetterIs(t[0]);
    if !IsLetter(t[0]) && |t| > 1 {
      NextLetter(t[1..]);
    }
  }

  /** The first values of the text are those of its letters; a value that is none is the last of all. */
  lemma {:induction false} FillLetters(t: string, count: nat)
    ensures var a, v := Fill(t, count), Values(t);
            && |a.value| == (if |v| < count then |v| else count) && Values(a.rest) == v[|a.value|..]
            && forall i :: 0 <= i < |a.value| ==> a.value[i] % 64 == v[i]
    decreases count
  {
    hide NextValue, Values, Fill;
    FillCases(t, count);
    if count == 0 || t == "" {
      NoValues();
      assert Values(t)[0..] == Values(t);
    } else {
      NextLetter(t);
      var next := NextValue(t);
      FillLetters(next.rest, count - 1);
      var more, v := Fill(next.rest, count - 1), Values(t);
      assert Fill(t, count).value == [next.value] + more.value;
      assert v[1..][|more.value|..] == v[1 + |more.value|..];
      forall i | 0 <= i < 1 + |more.value| ensures ([next.value] + more.value)[i] % 64 == v[i] {
        if i > 0 {
          assert v[1..][i - 1] == v[i];
        }
      }
    }
  }

  lemma NoValues()
    ensures Values("") == []
  {
  }

  lemma HighByte(n: nat)
    ensures (n * 4) % 256 == n % 64 * 4
  {
  }

  /** The bytes of a group are those of its number. */
  lemma GroupNumber(c: seq<int>, v: seq<Sextet>)
    requires |c| == (if |v| < 4 then |v| else 4) && forall i :: 0 <= i < |c| ==> c[i] % 64 == v[i]
    ensures forall j :: 0 <= j < |GroupBytes(c)| ==> GroupBytes(c)[j] == ByteIn(Number(v, 0), j)
  {
    hide ByteIn;
    BytesIn(ValueOr0(v, 0), ValueOr0(v, 1), ValueOr0(v, 2), ValueOr0(v, 3));
    if |c| >= 2 {
      FirstIs(c[0], c[1], v[0], v[1]);
      if |c| >= 3 {
        SecondIs(c[1], c[2], v[1], v[2]);
        if |c| >= 4 {
          ThirdIs(c[2], c[3], v[2], v[3]);
        }
      }
    }
  }

  lemma FirstIs(a: int, b: int, v: Sextet, w: Sextet)
    requires a % 64 == v && b % 64 == w
    ensures (a * 4 + b % 64 / 16) % 256 == v * 4 + w / 16
  {
    var q := a / 64;
    assert a * 4 + w / 16 == 256 * q + (v * 4 + w / 16);
  }

  lemma SecondIs(a: int, b: int, v: Sextet, w: Sextet)
    requires a % 64 == v && b % 64 == w
    ensures a % 16 * 16 + b % 64 / 4 == v % 16 * 16 + w / 4
  {
  }

  lemma ThirdIs(a: int, b: int, v: Sextet, w: Sextet)
    requires a % 64 == v && b % 64 == w
    ensures a % 4 * 64 + b % 64 == v % 4 * 64 + w
  {
  }

  lemma BytesIn(v1: nat, v2: nat, v3: nat, v4: nat)
    requires v1 < 64 && v2 < 64 && v3 < 64 && v4 < 64
    ensures var n := 0x4_0000 * v1 + 0x1000 * v2 + 0x40 * v3 + v4;
            && ByteIn(n, 0) == v1 * 4 + v2 / 16 && ByteIn(n, 1) == v2 % 16 * 16 + v3 / 4
            && ByteIn(n, 2) == v3 % 4 * 64 + v4
  {
    var b1, b2, b3 := v1 * 4 + v2 / 16, v2 % 16 * 16 + v3 / 4, v3 % 4 * 64 + v4;
    assert 0x1000 * v2 == 0x1_0000 * (v2 / 16) + 0x1000 * (v2 % 16);
    assert 0x40 * v3 == 0x100 * (v3 / 4) + 0x40 * (v3 % 4);
    NumberOfBytes(b1, b2, b3);
  }

  lemma NumberOfBytes(b1: byte, b2: byte, b3: byte)
    ensures var n := 0x1_0000 * (b1 as int) + 0x100 * (b2 as int) + (b3 as int);
            ByteIn(n, 0) == b1 && ByteIn(n, 1) == b2 && ByteIn(n, 2) == b3
  {
    var n := 0x1_0000 * (b1 as int) + 0x100 * (b2 as int) + (b3 as int);
    assert n / 0x1_0000 == b1;
    assert n / 0x100 == 0x100 * (b1 as int) + (b2 as int);
  }

  lemma NumberBehind(v: seq<Sextet>, i: nat)
    requires |v| >= 4
    ensures Number(v, i + 4) == Number(v[4..], i)
  {
  }

  lemma BytesOfAt(v: seq<Sextet>, j: nat)
    requires j < |BytesOf(v)|
    ensures BytesOf(v)[j] == ByteIn(Number(v, j / 3 * 4), j % 3)
  {
    hide ByteIn, Number;
  }

  lemma FirstBytes(v: seq<Sextet>, group: seq<byte>)
    requires |group| == (if |v| >= 4 then 3 else if |v| == 0 then 0 else |v| - 1)
    requires forall j :: 0 <= j < |group| ==> group[j] == ByteIn(Number(v, 0), j)
    ensures BytesOf(v) == if |v| < 4 then group else group + BytesOf(v[4..])
  {
    hide ByteIn, Number;
    var rest := if |v| < 4 then [] else v[4..];
    assert |BytesOf(v)| == |group| + |BytesOf(rest)|;
    forall j | 0 <= j < |BytesOf(v)| ensures BytesOf(v)[j] == (group + BytesOf(rest))[j] {
      BytesOfAt(v, j);
      if j >= 3 {
        var i := j - 3;
        BytesOfAt(rest, i);
        assert j / 3 * 4 == i / 3 * 4 + 4 && j % 3 == i % 3;
        NumberBehind(v, i / 3 * 4);
      } else {
        assert j / 3 * 4 == 0 && j % 3 == j;
      }
    }
    assert BytesOf(v) == group + BytesOf(rest);
  }

  /** The decoding loop writes the bytes of the letters' values, whatever stands between the letters. */
  lemma {:induction false} GroupsDecoded(t: string)
    ensures DecodeGroups(t) == BytesOf(Values(t))
    decreases |t|
  {
    hide Values, Fill, DecodeGroups, BytesOf, ByteIn, Number;
    if t == "" {
      NoValues();
      DecodeCases([]);
      FirstBytes([], []);
    } else {
      var a, v := Fill(t, 4), Values(t);
      FillLetters(t, 4);
      DecodeCases(t);
      GroupNumber(a.value, v);
      FirstBytes(v, GroupBytes(a.value));
      if |a.value| == 4 {
        GroupsDecoded(a.rest);
      }
    }
  }

  /** However many equals signs end the text. */
  lemma {:induction false} DecodedIs(t: string, n: nat)
    requires t == "" || t[|t| - 1] != '='
    ensures Decode(t + Equals(n)) == BytesOf(Values(t))
  {
    hide Values, DecodeGroups, BytesOf;
    StripEquals(t, n);
    GroupsDecoded(t);
  }

  function Equals(n: nat): string {
    if n == 0 then "" else Equals(n - 1) + "="
  }

  lemma {:induction false} StripEquals(t: string, n: nat)
    requires t == "" || t[|t| - 1] != '='
    ensures Strip(t + Equals(n)) == t
  {
    if n == 0 {
      assert t + "" == t;
    } else {
      StripEquals(t, n - 1);
      StripOne(t + Equals(n - 1));
      Assoc(t, Equals(n - 1), "=");
    }
  }
}
