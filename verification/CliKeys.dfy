/** The keys of the CLI command hash: a group's id in decimal, followed by a name. */
module CliKeys {
  import opened Bytes

  predicate IsLetter(c: char) {
    'a' <= c <= 'z' || 'A' <= c <= 'Z'
  }

  lemma Letters(c: char)
    ensures IsLetter(c) <==> 65 <= c as int <= 90 || 97 <= c as int <= 122
  {
  }

  predicate LetterFirst(s: string) {
    s != "" && IsLetter(s[0])
  }

  function Digit(n: nat): char
    requires n < 10
  {
    '0' + n as char
  }

  function Digits(n: nat): (s: string)
    ensures s != "" && (n >= 10 ==> |s| > 1)
    ensures forall c :: c in s ==> '0' <= c <= '9'
  {
    if n < 10 then [Digit(n)] else Digits(n / 10) + [Digit(n % 10)]
  }

  /** What snprintf's "%d" writes. */
  function Decimal(n: int): (s: string)
    ensures s != "" && forall c :: c in s ==> !IsLetter(c)
  {
    if n < 0 then ['-'] + Digits(-n) else Digits(n)
  }

  /** group is the id of the group, None where the pointer is NULL. */
  function KeyOf(group: Option<int>, name: string): string {
    (if group.None? then "" else Decimal(group.value)) + name
  }

  function Number(s: string): int {
    if s == "" then 0 else 10 * Number(s[..|s| - 1]) + (s[|s| - 1] as int - 48)
  }

  /** A number is written in decimal, without zeros in front. */
  lemma {:induction false} DigitsRead(n: nat)
    ensures Number(Digits(n)) == n && (Digits(n)[0] == '0' ==> n == 0)
  {
    if n < 10 {
      assert Digits(n)[..0] == "";
    } else {
      DigitsRead(n / 10);
      assert Digits(n)[..|Digits(n)| - 1] == Digits(n / 10);
    }
  }

  lemma {:induction false} DigitsInjective(a: nat, b: nat)
    requires Digits(a) == Digits(b)
    ensures a == b
  {
    var s, t := Digits(a), Digits(b);
    if a < 10 || b < 10 {
      assert s[0] == t[0];
    } else {
      assert s[|s| - 1] == t[|t| - 1];
      assert s[..|s| - 1] == Digits(a / 10) && t[..|t| - 1] == Digits(b / 10);
      DigitsInjective(a / 10, b / 10);
    }
  }

  lemma SignFirst(n: int)
    ensures Decimal(n)[0] == '-' <==> n < 0
    ensures n < 0 ==> Decimal(n)[1..] == Digits(-n)
  {
    if n >= 0 {
      assert Digits(n)[0] in Digits(n);
    }
  }

  lemma DecimalInjective(a: int, b: int)
    requires Decimal(a) == Decimal(b)
    ensures a == b
  {
    hide Decimal, Digits;
    SignFirst(a);
    SignFirst(b);
    if a < 0 {
      DigitsInjective(-a, -b);
    } else {
      DecimalIsDigits(a);
      DecimalIsDigits(b);
      DigitsInjective(a, b);
    }
  }

  lemma DecimalIsDigits(n: nat)
    ensures Decimal(n) == Digits(n)
  {
  }

  /** How many characters stand before the first letter. */
  function Lead(s: string): nat {
    if s == "" || IsLetter(s[0]) then 0 else 1 + Lead(s[1..])
  }

  lemma {:induction false} LeadOf(p: string, x: string)
    requires LetterFirst(x) && forall c :: c in p ==> !IsLetter(c)
    ensures Lead(p + x) == |p|
  {
    hide IsLetter;
    if p == "" {
      assert p + x == x;
    } else {
      assert p[0] in p && (p + x)[1..] == p[1..] + x;
      LeadOf(p[1..], x);
    }
  }

  lemma PrefixUnique(p: string, x: string, q: string, y: string)
    requires p + x == q + y && LetterFirst(x) && LetterFirst(y)
    requires forall c :: c in p || c in q ==> !IsLetter(c)
    ensures p == q && x == y
  {
    hide IsLetter;
    LeadOf(p, x);
    LeadOf(q, y);
    assert (p + x)[..|p|] == p && (q + y)[..|q|] == q;
    assert (p + x)[|p|..] == x && (q + y)[|q|..] == y;
  }

  /** A key tells its group and its name, as long as names start with a letter. */
  lemma KeyInjective(g: Option<int>, x: string, h: Option<int>, y: string)
    requires LetterFirst(x) && LetterFirst(y)
    ensures KeyOf(g, x) == KeyOf(h, y) <==> g == h && x == y
  {
    hide LetterFirst, Decimal;
    if KeyOf(g, x) == KeyOf(h, y) {
      var p, q := (if g.None? then "" else Decimal(g.value)), (if h.None? then "" else Decimal(h.value));
      PrefixUnique(p, x, q, y);
      if g.Some? && h.Some? {
        DecimalInjective(g.value, h.value);
      }
    }
  }

  /** Without that, the names of two groups can meet in one key. */
  lemma DigitsCollide()
    ensures KeyOf(Some(1), "1x") == KeyOf(Some(11), "x")
  {
    assert Digits(11) == Digits(1) + ['1'];
  }
}
