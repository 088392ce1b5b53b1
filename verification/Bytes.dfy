/** Bytes and fixed-width little-endian words, as the codec's memcpy calls lay them out. */
module Bytes {

  type byte = x: int | 0 <= x < 256

  datatype Option<+T> = None | Some(value: T)

  function Pow256(width: nat): (r: nat)
    ensures r > 0
  {
    if width == 0 then 1 else 256 * Pow256(width - 1)
  }

  function ToLE(n: nat, width: nat): (s: seq<byte>)
    ensures |s| == width
  {
    if width == 0 then [] else [n % 256] + ToLE(n / 256, width - 1)
  }

  function FromLE(s: seq<byte>): (n: nat)
    ensures n < Pow256(|s|)
  {
    if s == [] then 0 else s[0] + 256 * FromLE(s[1..])
  }

  lemma {:induction false} FromToLE(n: nat, width: nat)
    requires n < Pow256(width)
    ensures FromLE(ToLE(n, width)) == n
  {
    if width > 0 {
      FromToLE(n / 256, width - 1);
      assert ToLE(n, width)[1..] == ToLE(n / 256, width - 1);
    }
  }

  lemma PowValues()
    ensures Pow256(1) == 0x100
    ensures Pow256(2) == 0x1_0000
    ensures Pow256(4) == 0x1_0000_0000
    ensures Pow256(8) == 0x1_0000_0000_0000_0000
  {
    assert Pow256(4) == 256 * 256 * Pow256(2);
    assert Pow256(8) == 256 * Pow256(7) == 256 * 256 * Pow256(6) == 256 * 256 * 256 * 256 * Pow256(4);
  }

  lemma FromLE2(s: seq<byte>)
    requires |s| == 2
    ensures FromLE(s) == (s[0] as int) + 256 * (s[1] as int)
  {
    assert FromLE(s[1..]) == s[1] + 256 * FromLE(s[1..][1..]) == s[1];
  }

  lemma FromLE4(s: seq<byte>)
    requires |s| == 4
    ensures FromLE(s) == (s[0] as int) + 256 * (s[1] as int) + 0x1_0000 * (s[2] as int) + 0x100_0000 * (s[3] as int)
  {
    assert FromLE(s) == s[0] + 256 * (s[1] + 256 * FromLE(s[1..][1..]));
    assert s[1..][1..] == [s[2], s[3]];
    FromLE2(s[2..]);
  }

  /** The array of width-byte elements in memory. */
  function Flatten(words: seq<nat>, width: nat): (s: seq<byte>)
    ensures |s| == |words| * width
  {
    if words == [] then [] else
      var rest := Flatten(words[1..], width);
      assert |words| * width == width + (|words| - 1) * width;
      ToLE(words[0], width) + rest
  }

  function Unflatten(s: seq<byte>, count: nat, width: nat): (words: seq<nat>)
    requires |s| == count * width
    ensures |words| == count
    ensures forall i :: 0 <= i < count ==> words[i] < Pow256(width)
  {
    if count == 0 then [] else
      assert count * width == width + (count - 1) * width;
      [FromLE(s[..width])] + Unflatten(s[width..], count - 1, width)
  }

  lemma {:induction false} UnflattenFlatten(words: seq<nat>, width: nat)
    requires forall i :: 0 <= i < |words| ==> words[i] < Pow256(width)
    ensures Unflatten(Flatten(words, width), |words|, width) == words
  {
    if words != [] {
      var s := Flatten(words, width);
      assert s[..width] == ToLE(words[0], width);
      assert s[width..] == Flatten(words[1..], width);
      FromToLE(words[0], width);
      UnflattenFlatten(words[1..], width);
    }
  }

  lemma Assoc<T>(a: seq<T>, b: seq<T>, c: seq<T>)
    ensures (a + b) + c == a + (b + c)
  {
  }

  function Zeros(n: nat): (s: seq<byte>)
    ensures |s| == n && forall i :: 0 <= i < n ==> s[i] == 0
  {
    seq(n, _ => 0)
  }

  lemma {:induction false} FromLEZeros(n: nat)
    ensures FromLE(Zeros(n)) == 0
  {
    if n > 0 {
      assert Zeros(n)[1..] == Zeros(n - 1);
      FromLEZeros(n - 1);
    }
  }
}
