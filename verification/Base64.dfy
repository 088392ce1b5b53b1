/** Base64 as the library encodes and decodes it (section 4 of RFC 4648), on byte and character buffers.

    Shifts and masks of the source are written as divisions and remainders; a remainder of a negative number is
    never negative here, as a mask of one is not there. */
module Base64 {
  import opened Bytes

  const PADDING: char := '='
  const INV: int := -1

  const UPPER: seq<char> := "ABCDEFGHIJKLMNOPQRSTUVWXYZ"
  const LOWER: seq<char> := "abcdefghijklmnopqrstuvwxyz"
  const OTHERS: seq<char> := "0123456789+/"
  const BASE64_CHAR: seq<char> := UPPER + LOWER + OTHERS

  type Sextet = x: int | 0 <= x < 64

  function CharOf(v: Sextet): char {
    BASE64_CHAR[v]
  }

  lemma UpperTable(v: nat)
    requires v < 26
    ensures UPPER[v] as int == 'A' as int + v
  {
  }

  lemma LowerTable(v: nat)
    requires v < 26
    ensures LOWER[v] as int == 'a' as int + v
  {
  }

  lemma OthersTable(v: nat)
    requires v < 12
    ensures Base256Char(OTHERS[v]) == v + 52
  {
  }

  lemma TableLengths()
    ensures |UPPER| == |LOWER| == 26 && |OTHERS| == 12
  {
  }

  lemma CharTable(v: Sextet)
    ensures Base256Char(CharOf(v)) == v
  {
    hide UPPER, LOWER, OTHERS;
    TableLengths();
    if v < 26 {
      UpperTable(v);
    } else if v < 52 {
      LowerTable(v - 26);
    } else {
      OthersTable(v - 52);
    }
  }

  function Base256Char(c: char): (v: int)
    ensures v == INV || 0 <= v < 64
  {
    if 'A' <= c <= 'Z' then c as int - 'A' as int
    else if 'a' <= c <= 'z' then c as int - 'a' as int + 26
    else if '0' <= c <= '9' then c as int - '0' as int + 52
    else if c == '+' then 62
    else if c == '/' then 63
    else INV
  }

  // ----- encoding -----

  function Base256To64(c1: byte, c2: byte, c3: byte, padding: nat): (s: seq<char>)
    ensures |s| == 4
  {
    var v1, v2 := c1 / 4, c1 % 4 * 16 + c2 / 16;
    var v3, v4 := c2 % 16 * 4 + c3 / 64, c3 % 64;
    [CharOf(v1), CharOf(v2)] +
    (if padding == 0 then [CharOf(v3), CharOf(v4)]
     else if padding == 1 then [CharOf(v3), PADDING]
     else [PADDING, PADDING])
  }

  function Encode(b: seq<byte>): seq<char>
    decreases |b|
  {
    if |b| == 0 then []
    else if |b| == 1 then Base256To64(b[0], 0, 0, 2)
    else if |b| == 2 then Base256To64(b[0], b[1], 0, 1)
    else Base256To64(b[0], b[1], b[2], 0) + Encode(b[3..])
  }

  // ----- decoding -----

  function Strip(s: seq<char>): (t: seq<char>)
    ensures t <= s
  {
    if s != [] && s[|s| - 1] == PADDING then Strip(s[..|s| - 1]) else s
  }

  datatype Read<+T> = Read(value: T, rest: seq<char>)

  /** The next character of the alphabet; INV when only others are left. */
  function NextValue(s: seq<char>): (r: Read<int>)
    requires s != []
    ensures |r.rest| < |s| && (r.value == INV ==> r.rest == []) && (r.value == INV || 0 <= r.value < 64)
  {
    var v := Base256Char(s[0]);
    if v == INV && |s| > 1 then NextValue(s[1..]) else Read(v, s[1..])
  }

  /** Up to count values. */
  function Fill(s: seq<char>, count: nat): (r: Read<seq<int>>)
    ensures |r.value| <= count && (|r.value| < count ==> r.rest == [])
    ensures |r.rest| + |r.value| <= |s|
    decreases count
  {
    if count == 0 || s == [] then Read([], s)
    else
      var first := NextValue(s);
      var more := Fill(first.rest, count - 1);
      Read([first.value] + more.value, more.rest)
  }

  function FirstByte(c: seq<int>): byte
    requires |c| >= 2
  {
    (c[0] * 4 + c[1] % 64 / 16) % 256
  }

  function SecondByte(c: seq<int>): byte
    requires |c| >= 3
  {
    c[1] % 16 * 16 + c[2] % 64 / 4
  }

  function ThirdByte(c: seq<int>): byte
    requires |c| >= 4
  {
    c[2] % 4 * 64 + c[3] % 64
  }

  /** What is written for a group of values. */
  function GroupBytes(c: seq<int>): (s: seq<byte>)
    requires |c| <= 4
    ensures |s| == if |c| == 0 then 0 else |c| - 1
  {
    if |c| <= 1 then []
    else if |c| == 2 then [FirstByte(c)]
    else if |c| == 3 then [FirstByte(c), SecondByte(c)]
    else [FirstByte(c), SecondByte(c), ThirdByte(c)]
  }

  function DecodeGroups(s: seq<char>): (b: seq<byte>)
    ensures 4 * |b| <= 3 * |s|
    decreases |s|
  {
    if s == [] then [] else
      var group := Fill(s, 4);
      GroupBytes(group.value) + (if |group.value| < 4 then [] else DecodeGroups(group.rest))
  }

  function Decode(s: seq<char>): seq<byte> {
    DecodeGroups(Strip(s))
  }

  // ----- the two entry points -----

  datatype Status = Success | TooSmall

  method EncodeGroup(c1: byte, c2: byte, c3: byte, padding: nat, output: array<char>, po: nat)
    requires po + 4 <= output.Length
    modifies output
    ensures output[..po + 4] == old(output[..po]) + Base256To64(c1, c2, c3, padding)
    ensures output[po + 4..] == old(output[..])[po + 4..]
  {
    output[po] := CharOf(c1 / 4);
    output[po + 1] := CharOf(c1 % 4 * 16 + c2 / 16);
    match padding {
      case 0 =>
        output[po + 2] := CharOf(c2 % 16 * 4 + c3 / 64);
        output[po + 3] := CharOf(c3 % 64);
      case 1 =>
        output[po + 2] := CharOf(c2 % 16 * 4 + c3 / 64);
        output[po + 3] := PADDING;
      case _ =>
        output[po + 2] := PADDING;
        output[po + 3] := PADDING;
    }
  }

  /** pj_base64_encode; capacity is *out_len on entry and outLen on return. */
  method EncodeBuffer(input: seq<byte>, output: array<char>, capacity: nat) returns (status: Status, outLen: nat)
    requires capacity <= output.Length
    modifies output
    ensures status == if capacity >= |input| * 4 / 3 + 3 then Success else TooSmall
    ensures status == TooSmall ==> outLen == capacity && output[..] == old(output[..])
    ensures status == Success ==> outLen == |Encode(input)| <= output.Length && output[..outLen] == Encode(input)
    ensures status == Success ==> output[outLen..] == old(output[..])[outLen..]
  {
    if capacity < |input| * 4 / 3 + 3 {
      return TooSmall, capacity;
    }
    EncodeLength(input);
    outLen := EncodeLoop(input, output);
    status := Success;
  }

  method EncodeLoop(input: seq<byte>, output: array<char>) returns (po: nat)
    requires |Encode(input)| <= output.Length
    modifies output
    ensures po == |Encode(input)| && output[..po] == Encode(input) && output[po..] == old(output[..])[po..]
  {
    hide BASE64_CHAR, CharOf, Base256To64, Encode;
    var i := 0;
    po := 0;
    assert input[0..] == input;
    while i < |input|
      invariant i <= |input| && po + |Encode(input[i..])| == |Encode(input)|
      invariant output[..po] + Encode(input[i..]) == Encode(input)
      invariant output[po..] == old(output[..])[po..]
    {
      ghost var rest, done := input[i..], output[..po];
      EncodeCases(rest);
      var c1 := input[i];
      i := i + 1;
      if i == |input| {
        EncodeGroup(c1, 0, 0, 2, output, po);
        po := po + 4;
        return;
      }
      var c2 := input[i];
      i := i + 1;
      if i == |input| {
        EncodeGroup(c1, c2, 0, 1, output, po);
        po := po + 4;
        return;
      }
      var c3 := input[i];
      i := i + 1;
      assert rest[3..] == input[i..];
      EncodeGroup(c1, c2, c3, 0, output, po);
      po := po + 4;
      Assoc(done, Base256To64(c1, c2, c3, 0), Encode(input[i..]));
    }
    assert input[i..] == [];
    EncodeCases([]);
  }

  lemma EncodeCases(b: seq<byte>)
    ensures Encode(b) ==
            if |b| == 0 then []
            else if |b| == 1 then Base256To64(b[0], 0, 0, 2)
            else if |b| == 2 then Base256To64(b[0], b[1], 0, 1)
            else Base256To64(b[0], b[1], b[2], 0) + Encode(b[3..])
  {
  }

  /** Four characters for every three bytes begun. */
  lemma {:induction false} EncodeLength(b: seq<byte>)
    ensures |Encode(b)| == 4 * ((|b| + 2) / 3) <= |b| * 4 / 3 + 3
    decreases |b|
  {
    hide BASE64_CHAR, CharOf;
    if |b| >= 3 {
      EncodeLength(b[3..]);
    }
  }

  /** pj_base64_decode; capacity is *out_len on entry and outLen on return. */
  method DecodeBuffer(input: seq<char>, out: array<byte>, capacity: nat) returns (status: Status, outLen: nat)
    requires capacity <= out.Length
    modifies out
    ensures status == if capacity >= |Strip(input)| * 3 / 4 then Success else TooSmall
    ensures status == TooSmall ==> outLen == capacity && out[..] == old(out[..])
    ensures status == Success ==> outLen == |Decode(input)| <= capacity && out[..outLen] == Decode(input)
    ensures status == Success ==> out[outLen..] == old(out[..])[outLen..]
  {
    var len := |input|;
    assert input[..len] == input;
    while len > 0 && input[len - 1] == PADDING
      invariant 0 <= len <= |input| && Strip(input[..len]) == Strip(input)
    {
      assert input[..len][..len - 1] == input[..len - 1];
      len := len - 1;
    }
    assert input[..len] == Strip(input);
    if capacity < len * 3 / 4 {
      return TooSmall, capacity;
    }
    outLen := DecodeLoop(input[..len], out);
    status := Success;
  }

  method DecodeLoop(buf: seq<char>, out: array<byte>) returns (j: nat)
    requires |DecodeGroups(buf)| <= out.Length
    modifies out
    ensures j == |DecodeGroups(buf)| && out[..j] == DecodeGroups(buf) && out[j..] == old(out[..])[j..]
  {
    hide Fill, GroupBytes, DecodeGroups, Base256Char;
    var i := 0;
    j := 0;
    assert buf[0..] == buf;
    while i < |buf|
      invariant i <= |buf| && j + |DecodeGroups(buf[i..])| == |DecodeGroups(buf)|
      invariant out[..j] + DecodeGroups(buf[i..]) == DecodeGroups(buf)
      invariant out[j..] == old(out[..])[j..]
      decreases |buf| - i
    {
      ghost var done := out[..j];
      DecodeCases(buf[i..]);
      var c: seq<int>;
      c, i := FillGroup(buf, i);
      j := WriteGroup(c, out, j);
      if |c| < 4 {
        assert GroupBytes(c) + [] == GroupBytes(c);
        return;
      }
      Assoc(done, GroupBytes(c), DecodeGroups(buf[i..]));
    }
    assert buf[i..] == [];
    DecodeCases([]);
  }

  lemma DecodeCases(s: seq<char>)
    ensures var group := Fill(s, 4);
            DecodeGroups(s) == if s == [] then []
                               else GroupBytes(group.value) + if |group.value| < 4 then [] else DecodeGroups(group.rest)
    ensures s != [] ==> Fill(s, 4).value != []
  {
  }

  /** Fills c, ignoring characters outside the alphabet. */
  method FillGroup(buf: seq<char>, from: nat) returns (c: seq<int>, i: nat)
    requires from < |buf|
    ensures from < i <= |buf| && Read(c, buf[i..]) == Fill(buf[from..], 4)
  {
    hide NextValue, Fill;
    ghost var whole := Fill(buf[from..], 4);
    c := [];
    i := from;
    var k := 0;
    while k < 4 && i < |buf|
      invariant from <= i <= |buf| && |c| == k <= 4 && (k > 0 ==> from < i)
      invariant whole.value == c + Fill(buf[i..], 4 - k).value
      invariant whole.rest == Fill(buf[i..], 4 - k).rest
    {
      ghost var start := i;
      var v;
      v, i := ReadValue(buf, i);
      FillCases(buf[start..], 4 - k);
      Assoc(c, [v], Fill(buf[i..], 3 - k).value);
      c := c + [v];
      k := k + 1;
    }
    assert i == |buf| ==> buf[i..] == [];
    FillCases(buf[i..], 4 - k);
    assert c + [] == c;
  }

  lemma FillCases(s: seq<char>, count: nat)
    ensures Fill(s, count) ==
            if count == 0 || s == [] then Read([], s)
            else var first := NextValue(s);
                 var more := Fill(first.rest, count - 1);
                 Read([first.value] + more.value, more.rest)
  {
  }

  method ReadValue(buf: seq<char>, from: nat) returns (v: int, i: nat)
    requires from < |buf|
    ensures from < i <= |buf| && Read(v, buf[i..]) == NextValue(buf[from..])
  {
    hide Base256Char;
    i := from;
    v := Base256Char(buf[i]);
    i := i + 1;
    assert buf[from..][1..] == buf[i..];
    while v == INV && i < |buf|
      invariant from < i <= |buf| && v == Base256Char(buf[i - 1])
      invariant NextValue(buf[from..]) == if v == INV && i < |buf| then NextValue(buf[i..]) else Read(v, buf[i..])
    {
      assert buf[i..][1..] == buf[i + 1..];
      v := Base256Char(buf[i]);
      i := i + 1;
    }
  }

  method WriteGroup(c: seq<int>, out: array<byte>, from: nat) returns (j: nat)
    requires |c| <= 4 && from + |GroupBytes(c)| <= out.Length
    modifies out
    ensures j == from + |GroupBytes(c)| && out[..j] == old(out[..from]) + GroupBytes(c)
    ensures out[j..] == old(out[..])[j..]
  {
    j := from;
    if |c| < 4 {
      if |c| > 1 {
        out[j] := FirstByte(c);
        j := j + 1;
        if |c| > 2 {
          out[j] := SecondByte(c);
          j := j + 1;
        }
      }
      return;
    }
    out[j] := FirstByte(c);
    j := j + 1;
    out[j] := SecondByte(c);
    j := j + 1;
    out[j] := ThirdByte(c);
    j := j + 1;
  }

  // ----- decoding undoes encoding -----

  lemma NextOf(v: Sextet, rest: seq<char>)
    ensures NextValue([CharOf(v)] + rest) == Read(v, rest)
  {
    hide CharOf, Base256Char;
    CharTable(v);
    assert ([CharOf(v)] + rest)[1..] == rest;
  }

  lemma FillOf(v: Sextet, rest: seq<char>, count: nat)
    requires count > 0
    ensures Fill([CharOf(v)] + rest, count) == Read([v] + Fill(rest, count - 1).value, Fill(rest, count - 1).rest)
  {
    hide CharOf, NextValue;
    NextOf(v, rest);
  }

  /** The encoding without its padding. */
  function Bare(b: seq<byte>): seq<char>
    decreases |b|
  {
    if |b| == 0 then []
    else if |b| == 1 then Base256To64(b[0], 0, 0, 2)[..2]
    else if |b| == 2 then Base256To64(b[0], b[1], 0, 1)[..3]
    else Base256To64(b[0], b[1], b[2], 0) + Bare(b[3..])
  }

  lemma DecodeOne(c1: byte)
    ensures DecodeGroups(Base256To64(c1, 0, 0, 2)[..2]) == [c1]
  {
    hide CharOf, Fill;
    var v1, v2 := c1 / 4, c1 % 4 * 16;
    var s := Base256To64(c1, 0, 0, 2)[..2];
    assert s == [CharOf(v1)] + ([CharOf(v2)] + []);
    FillOf(v1, [CharOf(v2)] + [], 4);
    FillOf(v2, [], 3);
    FillEnd(2);
  }

  lemma FillEnd(count: nat)
    ensures Fill([], count) == Read([], [])
  {
  }

  lemma DecodeTwo(c1: byte, c2: byte)
    ensures DecodeGroups(Base256To64(c1, c2, 0, 1)[..3]) == [c1, c2]
  {
    hide CharOf, Fill, DecodeGroups, GroupBytes;
    var v1, v2, v3 := c1 / 4, c1 % 4 * 16 + c2 / 16, c2 % 16 * 4;
    var s := Base256To64(c1, c2, 0, 1)[..3];
    assert s == [CharOf(v1)] + ([CharOf(v2)] + ([CharOf(v3)] + []));
    FillOf(v1, [CharOf(v2)] + ([CharOf(v3)] + []), 4);
    FillOf(v2, [CharOf(v3)] + [], 3);
    FillOf(v3, [], 2);
    FillEnd(1);
    DecodeCases(s);
    GroupOfTwo(c1, c2);
    assert [v1] + ([v2] + ([v3] + [])) == [v1, v2, v3];
  }

  lemma FillFour(v1: Sextet, v2: Sextet, v3: Sextet, v4: Sextet, rest: seq<char>)
    ensures Fill([CharOf(v1), CharOf(v2), CharOf(v3), CharOf(v4)] + rest, 4) == Read([v1, v2, v3, v4], rest)
  {
    hide CharOf, Fill;
    var s4 := [CharOf(v4)] + rest;
    var s3 := [CharOf(v3)] + s4;
    var s2 := [CharOf(v2)] + s3;
    assert [CharOf(v1), CharOf(v2), CharOf(v3), CharOf(v4)] + rest == [CharOf(v1)] + s2;
    FillOf(v1, s2, 4);
    FillOf(v2, s3, 3);
    FillOf(v3, s4, 2);
    FillOf(v4, rest, 1);
    FillNone(rest);
    assert [v1] + ([v2] + ([v3] + ([v4] + []))) == [v1, v2, v3, v4];
  }

  lemma FirstOf(c1: byte, c2: byte)
    ensures c1 % 4 * 16 + c2 / 16 < 64
    ensures (c1 / 4 * 4 + (c1 % 4 * 16 + c2 / 16) / 16) % 256 == c1
  {
  }

  lemma LowNibble(high: nat, low: nat)
    requires high < 4 && low < 16
    ensures (high * 16 + low) % 16 == low
  {
  }

  lemma HighPart(high: nat, low: nat)
    requires high < 16 && low < 4
    ensures (high * 4 + low) / 4 == high
  {
  }

  lemma SecondOf(c1: byte, c2: byte, low: byte)
    requires low < 4
    ensures c2 % 16 * 4 + low < 64
    ensures (c1 % 4 * 16 + c2 / 16) % 16 * 16 + (c2 % 16 * 4 + low) / 4 == c2
  {
    LowNibble(c1 % 4, c2 / 16);
    HighPart(c2 % 16, low);
  }

  lemma ThirdOf(c2: byte, c3: byte)
    ensures (c2 % 16 * 4 + c3 / 64) % 4 * 64 + c3 % 64 == c3
  {
  }

  lemma GroupFrom(v: seq<int>)
    requires |v| <= 4 && forall k :: 0 <= k < |v| ==> 0 <= v[k] < 64
    ensures |v| >= 2 ==> FirstByte(v) == (v[0] * 4 + v[1] / 16) % 256
    ensures |v| >= 3 ==> SecondByte(v) == v[1] % 16 * 16 + v[2] / 4
    ensures |v| >= 4 ==> ThirdByte(v) == v[2] % 4 * 64 + v[3]
  {
  }

  lemma GroupOfTwo(c1: byte, c2: byte)
    ensures GroupBytes([c1 / 4, c1 % 4 * 16 + c2 / 16, c2 % 16 * 4]) == [c1, c2]
  {
    hide FirstByte, SecondByte;
    FirstOf(c1, c2);
    SecondOf(c1, c2, 0);
    GroupFrom([c1 / 4, c1 % 4 * 16 + c2 / 16, c2 % 16 * 4]);
  }

  lemma GroupOf(c1: byte, c2: byte, c3: byte)
    ensures GroupBytes([c1 / 4, c1 % 4 * 16 + c2 / 16, c2 % 16 * 4 + c3 / 64, c3 % 64]) == [c1, c2, c3]
  {
    hide FirstByte, SecondByte, ThirdByte;
    FirstOf(c1, c2);
    SecondOf(c1, c2, c3 / 64);
    ThirdOf(c2, c3);
    GroupFrom([c1 / 4, c1 % 4 * 16 + c2 / 16, c2 % 16 * 4 + c3 / 64, c3 % 64]);
  }

  lemma DecodeThree(c1: byte, c2: byte, c3: byte, rest: seq<char>)
    ensures DecodeGroups(Base256To64(c1, c2, c3, 0) + rest) == [c1, c2, c3] + DecodeGroups(rest)
  {
    hide CharOf, Fill, DecodeGroups, GroupBytes;
    var v1, v2 := c1 / 4, c1 % 4 * 16 + c2 / 16;
    var v3, v4 := c2 % 16 * 4 + c3 / 64, c3 % 64;
    assert Base256To64(c1, c2, c3, 0) == [CharOf(v1), CharOf(v2), CharOf(v3), CharOf(v4)];
    FillFour(c1 / 4, c1 % 4 * 16 + c2 / 16, c2 % 16 * 4 + c3 / 64, c3 % 64, rest);
    GroupOf(c1, c2, c3);
    DecodeCases(Base256To64(c1, c2, c3, 0) + rest);
  }

  lemma FillNone(s: seq<char>)
    ensures Fill(s, 0) == Read([], s)
  {
  }

  lemma {:induction false} DecodeBare(b: seq<byte>)
    ensures DecodeGroups(Bare(b)) == b
    decreases |b|
  {
    hide Base256To64, DecodeGroups;
    if |b| == 0 {
      DecodeCases([]);
    } else if |b| == 1 {
      DecodeOne(b[0]);
    } else if |b| == 2 {
      DecodeTwo(b[0], b[1]);
    } else {
      DecodeBare(b[3..]);
      DecodeThree(b[0], b[1], b[2], Bare(b[3..]));
    }
  }

  function Pad(n: nat): seq<char> {
    if n % 3 == 1 then [PADDING, PADDING] else if n % 3 == 2 then [PADDING] else []
  }

  lemma {:induction false} EncodeIsBarePadded(b: seq<byte>)
    ensures Encode(b) == Bare(b) + Pad(|b|)
    decreases |b|
  {
    hide CharOf;
    if |b| >= 3 {
      EncodeIsBarePadded(b[3..]);
      assert |b[3..]| % 3 == |b| % 3;
    }
  }

  lemma NotPadding(v: Sextet)
    ensures CharOf(v) != PADDING
  {
    hide CharOf;
    CharTable(v);
  }

  lemma {:induction false} BareNotPadded(b: seq<byte>)
    ensures b != [] ==> Bare(b) != [] && Bare(b)[|Bare(b)| - 1] != PADDING
    decreases |b|
  {
    hide CharOf;
    if |b| == 1 {
      NotPadding(b[0] % 4 * 16);
    } else if |b| == 2 {
      NotPadding(b[1] % 16 * 4);
    } else if |b| >= 3 {
      NotPadding(b[2] % 64);
      BareNotPadded(b[3..]);
    }
  }

  lemma StripOne(s: seq<char>)
    ensures Strip(s + [PADDING]) == Strip(s)
  {
    assert (s + [PADDING])[..|s|] == s;
  }

  lemma StripPad(s: seq<char>, n: nat)
    requires s == [] || s[|s| - 1] != PADDING
    ensures Strip(s + Pad(n)) == s
  {
    if n % 3 == 0 {
      assert s + [] == s;
    } else {
      StripOne(s);
      if n % 3 == 1 {
        StripOne(s + [PADDING]);
        assert s + [PADDING] + [PADDING] == s + [PADDING, PADDING];
      }
    }
  }

  lemma StripEncode(b: seq<byte>)
    ensures Strip(Encode(b)) == Bare(b)
  {
    EncodeIsBarePadded(b);
    BareNotPadded(b);
    StripPad(Bare(b), |b|);
  }

  /** Decoding undoes encoding. */
  lemma RoundTrip(b: seq<byte>)
    ensures Decode(Encode(b)) == b
  {
    StripEncode(b);
    DecodeBare(b);
  }

  /** Decoding any input fills at most three bytes for four characters left after the padding. */
  lemma DecodeLength(s: seq<char>)
    ensures |Decode(s)| <= |Strip(s)| * 3 / 4 <= |s| * 3 / 4
  {
  }

  // ----- characters outside the alphabet -----

  predicate InAlphabet(c: char) {
    Base256Char(c) != INV
  }

  function Filter(s: seq<char>): seq<char> {
    if s == [] then [] else (if InAlphabet(s[0]) then [s[0]] else []) + Filter(s[1..])
  }

  /** The text is empty or ends inside the alphabet. */
  predicate EndsInside(s: seq<char>) {
    s == [] || InAlphabet(s[|s| - 1])
  }

  lemma {:induction false} NextFiltered(s: seq<char>)
    requires s != []
    ensures var next, f := NextValue(s), Filter(s);
            && (f == [] ==> next == Read(INV, []) && !EndsInside(s))
            && (f != [] ==> next.value == Base256Char(f[0]) != INV && Filter(next.rest) == f[1..])
            && (f != [] ==> (EndsInside(next.rest) <==> EndsInside(s)))
  {
    hide Base256Char;
    if !InAlphabet(s[0]) && |s| > 1 {
      NextFiltered(s[1..]);
      assert Filter(s) == Filter(s[1..]);
    }
  }

  lemma {:induction false} AllFiltered(s: seq<char>)
    ensures Filter(Filter(s)) == Filter(s)
    ensures EndsInside(Filter(s))
  {
    hide Base256Char;
    if s != [] {
      AllFiltered(s[1..]);
      if InAlphabet(s[0]) {
        assert Filter(s) == [s[0]] + Filter(s[1..]);
        assert Filter(s)[1..] == Filter(s[1..]);
      } else {
        assert Filter(s) == [] + Filter(s[1..]) == Filter(s[1..]);
      }
    }
  }

  /** Filling a group from the text and from its alphabet characters differs only where the text runs out on a
      foreign character, which then stands in the group. */
  lemma {:induction false} FillFiltered(s: seq<char>, count: nat)
    ensures var a, b := Fill(s, count), Fill(Filter(s), count);
            && |b.value| == (if |Filter(s)| < count then |Filter(s)| else count)
            && b.rest == Filter(a.rest) && |b.rest| + |b.value| == |Filter(s)|
            && (|Filter(s)| < count && !EndsInside(s) ==> a.value == b.value + [INV])
            && (|Filter(s)| >= count || EndsInside(s) ==> a.value == b.value)
            && (|Filter(s)| >= count || EndsInside(s) ==> (EndsInside(a.rest) <==> EndsInside(s)))
    decreases count
  {
    hide Base256Char, NextValue, Filter, Fill, EndsInside;
    FillCases(s, count);
    FillCases(Filter(s), count);
    FilterEmpty();
    if count > 0 && s != [] {
      NextFiltered(s);
      var next, f := NextValue(s), Filter(s);
      FillFiltered(next.rest, count - 1);
      if f == [] {
        FillCases([], count - 1);
        assert [INV] + [] == [] + [INV];
      } else {
        NextFirst(s);
        assert NextValue(f) == Read(next.value, f[1..]);
        var b := Fill(f[1..], count - 1).value;
        Assoc([next.value], b, [INV]);
      }
    }
  }

  lemma FilterEmpty()
    ensures Filter([]) == [] && EndsInside([])
  {
  }

  lemma NextFirst(s: seq<char>)
    requires Filter(s) != []
    ensures NextValue(Filter(s)) == Read(Base256Char(Filter(s)[0]), Filter(s)[1..])
    decreases |s|
  {
    hide Base256Char;
    if !InAlphabet(s[0]) {
      assert Filter(s) == Filter(s[1..]);
      NextFirst(s[1..]);
    }
  }

  lemma {:induction false} GroupsFiltered(s: seq<char>)
    ensures DecodeGroups(s) == DecodeGroups(Filter(s)) <==> EndsInside(s) || |Filter(s)| % 4 == 0
    decreases |s|
  {
    hide Base256Char, NextValue, Filter, Fill, EndsInside, DecodeGroups, FirstByte, SecondByte, ThirdByte;
    FilterEmpty();
    if s != [] {
      var f := Filter(s);
      var a, b := Fill(s, 4), Fill(f, 4);
      FillFiltered(s, 4);
      DecodeCases(s);
      DecodeCases(f);
      DecodeCases([]);
      if |a.value| == 4 {
        GroupsFiltered(a.rest);
        var g := GroupBytes(a.value);
        SameSuffix(g, DecodeGroups(a.rest), DecodeGroups(b.rest));
      }
    }
  }

  lemma SameSuffix<T>(g: seq<T>, x: seq<T>, y: seq<T>)
    ensures g + x == g + y <==> x == y
  {
    assert (g + x)[|g|..] == x && (g + y)[|g|..] == y;
  }

  lemma {:induction false} FilterStrip(s: seq<char>)
    ensures Filter(Strip(s)) == Filter(s)
    decreases |s|
  {
    hide Base256Char;
    if s != [] && s[|s| - 1] == PADDING {
      FilterStrip(s[..|s| - 1]);
      FilterSnoc(s[..|s| - 1], PADDING);
      assert s == s[..|s| - 1] + [PADDING];
      PaddingForeign();
    }
  }

  lemma PaddingForeign()
    ensures !InAlphabet(PADDING)
  {
  }

  lemma {:induction false} FilterSnoc(s: seq<char>, c: char)
    ensures Filter(s + [c]) == Filter(s) + (if InAlphabet(c) then [c] else [])
  {
    hide InAlphabet;
    if s == [] {
      assert [] + [c] == [c] && [c][1..] == [];
    } else {
      var first, last := (if InAlphabet(s[0]) then [s[0]] else []), (if InAlphabet(c) then [c] else []);
      assert (s + [c])[0] == s[0] && (s + [c])[1..] == s[1..] + [c];
      FilterSnoc(s[1..], c);
      Assoc(first, Filter(s[1..]), last);
    }
  }

  /** Characters outside the alphabet are ignored exactly when, after the padding, the text ends inside the
      alphabet or the alphabet characters come in whole groups of four. */
  lemma ForeignIgnored(s: seq<char>)
    ensures Decode(s) == Decode(Filter(s)) <==> EndsInside(Strip(s)) || |Filter(s)| % 4 == 0
  {
    hide Base256Char, DecodeGroups, Filter;
    FilterStrip(s);
    AllFiltered(s);
    PaddingForeign();
    assert Strip(Filter(s)) == Filter(s);
    GroupsFiltered(Strip(s));
  }
}
