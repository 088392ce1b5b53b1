/** Which passwords masking leaves in a text. */
module SipMaskLeaks {
  import opened Bytes
  import opened SipMask
  import opened SipMaskLaws

  /** The text holds a URI with a password: what stands before and behind it does not matter. */
  ghost predicate Leak(t: string, before: string, scheme: string, user: string, password: string, behind: string) {
    && t == before + scheme + user + ":" + password + "@" + behind
    && ((|scheme| == 4 && StartsWith(scheme, SIP)) || (|scheme| == 5 && StartsWith(scheme, SIPS)))
    && NoDelimiter(user) && NoDelimiter(password)
    && ':' !in user && '@' !in user && '@' !in password && password != STARS
  }

  ghost predicate Leaks(t: string) {
    exists before, scheme, user, password, behind :: Leak(t, before, scheme, user, password, behind)
  }

  /** One of them starts among the first n characters. */
  ghost predicate LeaksBefore(t: string, n: nat) {
    exists before, scheme, user, password, behind ::
      Leak(t, before, scheme, user, password, behind) && |before| < n
  }

  // ----- the same, read off from the left -----

  /** What follows a scheme is a user, a password that is not masked, and an at sign. */
  predicate Secret(r: string) {
    var at := Find(r, '@');
    var colon := Find(r[..at], ':');
    at < |r| && NoDelimiter(r[..at]) && colon < at && r[colon + 1..at] != STARS
  }

  /** A URI with a password stands at the start. */
  predicate LeakHead(t: string) {
    (StartsWith(t, SIP) && Secret(t[4..])) || (StartsWith(t, SIPS) && Secret(t[5..]))
  }

  /** One starts among the first n characters. */
  predicate LeakyIn(t: string, n: nat) {
    n > 0 && t != "" && (LeakHead(t) || LeakyIn(t[1..], n - 1))
  }

  predicate Leaky(t: string) {
    LeakyIn(t, |t|)
  }

  lemma SecretIs(user: string, password: string, behind: string)
    requires NoDelimiter(user) && NoDelimiter(password)
    requires ':' !in user && '@' !in user && '@' !in password && password != STARS
    ensures Secret(user + ":" + password + "@" + behind)
  {
    hide Find, IsDelimiter;
    var info := user + ":" + password;
    Assoc(info, "@", behind);
    FindIs(info, '@', "@" + behind);
    var r := info + ("@" + behind);
    assert r[..|info|] == info && info == user + (":" + password);
    FindIs(user, ':', ":" + password);
    assert info[|user| + 1..] == password;
    ColonPlain();
  }

  lemma ColonPlain()
    ensures !IsDelimiter(':')
  {
  }

  lemma SecretParts(r: string) returns (user: string, password: string, behind: string)
    requires Secret(r)
    ensures r == user + ":" + password + "@" + behind && NoDelimiter(user) && NoDelimiter(password)
    ensures ':' !in user && '@' !in user && '@' !in password && password != STARS
  {
    hide Find, IsDelimiter;
    var at := Find(r, '@');
    var info := r[..at];
    var colon := Find(info, ':');
    user, password, behind := info[..colon], info[colon + 1..], r[at + 1..];
    assert info == user + ":" + password;
    assert r == info + "@" + behind;
  }

  lemma {:induction false} LeakyInAt(t: string, n: nat, i: nat)
    requires i < n && i < |t| && LeakHead(t[i..])
    ensures LeakyIn(t, n)
  {
    hide LeakHead;
    if i == 0 {
      assert t[0..] == t;
    } else {
      assert t[1..][i - 1..] == t[i..];
      LeakyInAt(t[1..], n - 1, i - 1);
    }
  }

  lemma {:induction false} LeakyInWhere(t: string, n: nat) returns (i: nat)
    requires LeakyIn(t, n)
    ensures i < n && i < |t| && LeakHead(t[i..])
  {
    hide LeakHead;
    if LeakHead(t) {
      assert t[0..] == t;
      i := 0;
    } else {
      var k := LeakyInWhere(t[1..], n - 1);
      assert t[1..][k..] == t[k + 1..];
      i := k + 1;
    }
  }

  /** Reading from the left finds a URI with a password exactly if there is one. */
  lemma LeaksIsLeaky(t: string, n: nat)
    ensures Leaks(t) <==> Leaky(t)
    ensures LeaksBefore(t, n) <==> LeakyIn(t, n)
  {
    hide LeakHead, LeakyIn, Leak;
    if Leaks(t) {
      var before, scheme, user, password, behind :| Leak(t, before, scheme, user, password, behind);
      LeakFound(t, before, scheme, user, password, behind, |t|);
    }
    if LeaksBefore(t, n) {
      var before, scheme, user, password, behind :|
        Leak(t, before, scheme, user, password, behind) && |before| < n;
      LeakFound(t, before, scheme, user, password, behind, n);
    }
    if Leaky(t) {
      var i := LeakyInWhere(t, |t|);
      LeakMade(t, i, n);
    }
    if LeakyIn(t, n) {
      var i := LeakyInWhere(t, n);
      LeakMade(t, i, n);
    }
  }

  lemma LeakFound(t: string, before: string, scheme: string, user: string, password: string, behind: string, n: nat)
    requires Leak(t, before, scheme, user, password, behind)
    ensures |before| < |t| && (|before| < n ==> LeakyIn(t, n))
  {
    hide LeakyIn, Secret, IsDelimiter, LowerChar;
    var r := user + ":" + password + "@" + behind;
    SecretIs(user, password, behind);
    Assoc5(before + scheme, user, password, behind);
    assert before + scheme + r == t;
    var v := t[|before|..];
    Assoc(before, scheme, r);
    assert v == scheme + r && v[|scheme|..] == r && v[..|scheme|] == scheme;
    if |scheme| == 4 {
      StartsSame(v, scheme, SIP);
    } else {
      StartsSame(v, scheme, SIPS);
    }
    assert LeakHead(v);
    if |before| < n {
      LeakyInAt(t, n, |before|);
    }
  }

  lemma LeakMade(t: string, i: nat, n: nat)
    requires i < |t| && LeakHead(t[i..])
    ensures Leaks(t) && (i < n ==> LeaksBefore(t, n))
  {
    hide Secret, IsDelimiter, LowerChar;
    var v := t[i..];
    var n := if StartsWith(v, SIP) && Secret(v[4..]) then 4 else 5;
    var user, password, behind := SecretParts(v[n..]);
    var before, scheme := t[..i], v[..n];
    if n == 4 {
      StartsSame(v, scheme, SIP);
    } else {
      StartsSame(v, scheme, SIPS);
    }
    var r := v[n..];
    assert t == before + v && v == scheme + r;
    Assoc(before, scheme, r);
    Assoc5(before + scheme, user, password, behind);
    assert Leak(t, before, scheme, user, password, behind);
  }

  // ----- parts of a text -----

  lemma {:induction false} LeakySplit(x: string, y: string)
    ensures Leaky(x + y) <==> LeakyIn(x + y, |x|) || Leaky(y)
  {
    hide LeakHead;
    if x == "" {
      assert x + y == y;
    } else {
      assert (x + y)[1..] == x[1..] + y;
      LeakySplit(x[1..], y);
    }
  }

  lemma {:induction false} FindIn(a: string, c: char, b: string)
    requires c in a
    ensures Find(a + b, c) == Find(a, c) < |a|
  {
    assert (a + b)[0] == a[0];
    if a[0] != c {
      assert (a + b)[1..] == a[1..] + b;
      assert a == [a[0]] + a[1..];
      FindIn(a[1..], c, b);
    }
  }

  lemma {:induction false} FindNotIn(a: string, c: char, b: string)
    requires c !in a
    ensures Find(a + b, c) == |a| + Find(b, c)
  {
    if a == "" {
      assert a + b == b;
    } else {
      assert (a + b)[0] == a[0] && a[0] in a && (a + b)[1..] == a[1..] + b;
      FindNotIn(a[1..], c, b);
    }
  }

  lemma FindNone(a: string, c: char)
    ensures c !in a <==> Find(a, c) == |a|
  {
    if Find(a, c) == |a| {
      assert a[..|a|] == a;
    }
  }

  lemma SchemePlain(t: string, p: string, i: nat)
    requires p == SIP || p == SIPS
    requires StartsWith(t, p) && i < |p|
    ensures t[i] != '@' && !IsDelimiter(t[i]) && (t[i] == ':' <==> i == |p| - 1)
  {
    assert LowerChar(t[i]) == p[i];
  }

  lemma NoSchemeAt(t: string)
    requires t == "" || t[0] == '@' || IsDelimiter(t[0])
    ensures !LeakHead(t)
  {
    hide Secret;
    if StartsWith(t, SIP) {
      SchemePlain(t, SIP, 0);
    } else if StartsWith(t, SIPS) {
      SchemePlain(t, SIPS, 0);
    }
  }

  lemma {:induction false} NoAtNotLeaky(t: string, n: nat)
    requires '@' !in t
    ensures !LeakyIn(t, n)
  {
    hide IsDelimiter, StartsWith;
    if n > 0 && t != "" {
      NoAtNotLeaky(t[1..], n - 1);
      if |t| >= 4 {
        FindNone(t[4..], '@');
      }
      if |t| >= 5 {
        FindNone(t[5..], '@');
      }
      StartsLong(t);
    }
  }

  lemma StartsLong(t: string)
    ensures StartsWith(t, SIP) ==> |t| >= 4
    ensures StartsWith(t, SIPS) ==> |t| >= 5
  {
  }

  // ----- the user part of the first "sip:" -----

  /** Behind the first colon there is none, or one and the stars. */
  predicate Hidden(h: string) {
    var colon := Find(h, ':');
    colon < |h| ==>
      var r := h[colon + 1..];
      ':' in r ==> r[Find(r, ':') + 1..] == STARS
  }

  lemma HiddenTail(h: string)
    requires Hidden(h) && h != ""
    ensures Hidden(h[1..])
  {
    var colon := Find(h, ':');
    if colon == 0 {
      var r := h[1..];
      FindNone(r, ':');
      assert ':' !in STARS;
    } else {
      assert Find(h[1..], ':') == colon - 1;
      if colon < |h| {
        assert h[1..][colon..] == h[colon + 1..];
      }
    }
  }

  lemma HiddenNoHead(h: string, b: string, p: string)
    requires '@' !in h && Hidden(h) && (p == SIP || p == SIPS) && StartsWith(h + "@" + b, p)
    ensures |p| <= |h| && !Secret((h + "@" + b)[|p|..])
  {
    hide StartsWith, IsDelimiter, Find;
    var v := h + "@" + b;
    Assoc(h, "@", b);
    StartsLong(v);
    SchemeInside(h, b, p);
    var r := h[|p|..];
    assert v[|p|..] == r + ("@" + b);
    FindIs(r, '@', "@" + b);
    assert (r + ("@" + b))[..|r|] == r;
    assert h == h[..|p|] + r;
    SchemeColon(h, p);
    FindNone(r, ':');
    assert h[Find(h, ':') + 1..] == r;
  }

  /** The scheme ends before the at sign. */
  lemma SchemeInside(h: string, b: string, p: string)
    requires (p == SIP || p == SIPS) && StartsWith(h + "@" + b, p)
    ensures |p| <= |h| && StartsWith(h, p)
  {
    hide LowerChar;
    var v := h + "@" + b;
    if |h| < |p| {
      SchemePlain(v, p, |h|);
    }
    StartsSame(v, h, p);
  }

  lemma SchemeColon(h: string, p: string)
    requires (p == SIP || p == SIPS) && StartsWith(h, p)
    ensures Find(h, ':') == |p| - 1 < |h|
  {
    hide StartsWith, IsDelimiter;
    StartsLong(h);
    forall i | 0 <= i < |p|
      ensures h[i] == ':' <==> i == |p| - 1
    {
      SchemePlain(h, p, i);
    }
    assert ':' !in h[..|p| - 1];
    assert h == h[..|p| - 1] + h[|p| - 1..];
    FindIs(h[..|p| - 1], ':', h[|p| - 1..]);
  }

  lemma {:induction false} HiddenNotLeaky(h: string, b: string)
    requires '@' !in h && Hidden(h)
    ensures !LeakyIn(h + "@" + b, |h| + 1)
  {
    hide StartsWith, Secret, Hidden;
    var v := h + "@" + b;
    if h == "" {
      assert v[0] == '@';
      NoSchemeAt(v);
    } else {
      assert v[1..] == h[1..] + "@" + b;
      HiddenTail(h);
      HiddenNotLeaky(h[1..], b);
      if StartsWith(v, SIP) {
        HiddenNoHead(h, b, SIP);
      }
      if StartsWith(v, SIPS) {
        HiddenNoHead(h, b, SIPS);
      }
    }
  }

  /** The user part of a URI, and what masking makes of it: both hide what they hold. */
  lemma MaskedHead(u: string) returns (head: string, behind: string)
    requires StartsWith(u, SIP) && '@' in u
    ensures MaskUri(u) == head + "@" + behind && '@' !in head && Hidden(head)
    ensures behind == u[Find(u, '@') + 1..]
  {
    hide StartsWith, IsDelimiter, MaskUri, Hidden;
    var at := Find(u, '@');
    behind := u[at + 1..];
    FindNone(u, '@');
    assert u == u[..at] + "@" + behind;
    if MaskUri(u) == u {
      head := u[..at];
      UnmaskedHidden(u);
    } else {
      var user, password, host := Masked(u);
      SchemeStarts(u);
      SchemeNoAt(u);
      var scheme := u[..4];
      PasswordReplaced(scheme, user, password, host);
      head := scheme + user + ":" + STARS;
      assert '@' !in STARS;
      AtIs(scheme, user, password, host);
      MaskedHidden(scheme, user);
    }
  }

  lemma SchemeNoAt(u: string)
    requires StartsWith(u, SIP)
    ensures |u| >= 4 && '@' !in u[..4] && u[3] == ':' && Find(u, ':') == 3
  {
    hide StartsWith, IsDelimiter;
    StartsLong(u);
    SchemeColon(u, SIP);
    forall i | 0 <= i < 4
      ensures u[i] != '@'
    {
      SchemePlain(u, SIP, i);
    }
  }

  lemma AtIs(scheme: string, user: string, password: string, host: string)
    requires '@' !in scheme && '@' !in user && '@' !in password
    ensures var u := scheme + user + ":" + password + "@" + host;
            Find(u, '@') == |scheme + user + ":" + password| && u[Find(u, '@') + 1..] == host
  {
    hide Find;
    var x := scheme + user + ":" + password;
    Assoc(x, "@", host);
    FindIs(x, '@', "@" + host);
    assert (x + ("@" + host))[|x| + 1..] == host;
  }

  lemma UnmaskedHidden(u: string)
    requires StartsWith(u, SIP) && '@' in u && MaskUri(u) == u
    ensures Hidden(u[..Find(u, '@')])
  {
    hide StartsWith, IsDelimiter, MaskUri, Find;
    SchemeNoAt(u);
    UriSameExactly(u);
    var at, body := Find(u, '@'), u[4..];
    var scheme := u[..4];
    assert u == scheme + body;
    FindNotIn(scheme, '@', body);
    var h := u[..at];
    assert h == scheme + body[..at - 4] && h[3] == ':';
    assert u[..4] == h[..4];
    StartsSame(u, h, SIP);
    FirstColon(scheme, body[..at - 4]);
    var r := h[4..];
    assert r == body[..at - 4];
    FindNone(body, '@');
    FindNone(r, ':');
  }

  lemma FirstColon(scheme: string, r: string)
    requires |scheme| == 4 && StartsWith(scheme + r, SIP)
    ensures Find(scheme + r, ':') == 3
  {
    SchemeColon(scheme + r, SIP);
  }

  lemma MaskedHidden(scheme: string, user: string)
    requires |scheme| == 4 && StartsWith(scheme, SIP) && ':' !in user
    ensures Hidden(scheme + user + ":" + STARS)
  {
    hide StartsWith, IsDelimiter, Find;
    var r := user + (":" + STARS);
    var h := scheme + r;
    Assoc(scheme, user, ":");
    Assoc(scheme, user + ":", STARS);
    Assoc(user, ":", STARS);
    assert h[..4] == scheme;
    StartsSame(h, scheme, SIP);
    FirstColon(scheme, r);
    assert h[4..] == r;
    FindIs(user, ':', ":" + STARS);
    assert r[|user| + 1..] == STARS;
  }

  /** Behind the scheme of the first "sip:" of a word, only what stands behind its first at sign can leak. */
  lemma UriLeaks(u: string)
    requires StartsWith(u, SIP)
    ensures var at := Find(u, '@');
            Leaky(MaskUri(u)) <==> at < |u| && Leaky(u[at + 1..])
  {
    hide StartsWith, Secret, IsDelimiter, MaskUri, Hidden, LeakyIn;
    var at := Find(u, '@');
    FindNone(u, '@');
    if at < |u| {
      var head, behind := MaskedHead(u);
      HiddenNotLeaky(head, behind);
      LeakySplit(head + "@", behind);
    } else {
      NoAtUnmasked(u);
      NoAtNotLeaky(u, |u|);
    }
  }

  lemma NoAtUnmasked(u: string)
    requires StartsWith(u, SIP) && '@' !in u
    ensures MaskUri(u) == u
  {
    hide StartsWith, IsDelimiter, MaskUri, Find;
    UriSameExactly(u);
    FindNone(u[4..], '@');
  }

  // ----- before the first "sip:" -----

  /** A URI that starts before the first "sip:" keeps its password, if it has one. */
  lemma HeadKept(a: string, u: string)
    requires a != "" && StartsWith(u, SIP) && FindSip(a + u) == |a| && NoDelimiter(a + u)
    ensures LeakHead(a + MaskUri(u)) <==> LeakHead(a + u)
  {
    hide StartsWith, Secret, IsDelimiter, MaskUri, FindSip, Find;
    var v, v' := a + u, a + MaskUri(u);
    assert NoDelimiter(u) by {
      forall k | 0 <= k < |u| ensures !IsDelimiter(u[k]) {
        assert v[|a| + k] == u[k];
      }
    }
    SchemeStarts(u);
    MaskUriTwice(u);
    assert v[..|a| + 4] == a + u[..4] && v'[..|a| + 4] == a + MaskUri(u)[..4];
    FindSipSame(v, v', |a|);
    NotAtFirst(v);
    NotAtFirst(v');
    assert v[..5] == v[..|a| + 4][..5] == v'[..|a| + 4][..5] == v'[..5];
    StartsSame(v, v', SIPS);
    if StartsWith(v, SIPS) {
      SipsBefore(a, u);
      var a2 := a[5..];
      assert v[5..] == a2 + u && v'[5..] == a2 + MaskUri(u);
      assert NoDelimiter(a2 + u) by {
        forall k | 0 <= k < |a2 + u| ensures !IsDelimiter((a2 + u)[k]) {
          assert v[k + 5] == (a2 + u)[k];
        }
      }
      SecretKept(a2, u);
    }
  }

  lemma NotAtFirst(v: string)
    requires FindSip(v) > 0
    ensures !StartsWith(v, SIP)
  {
  }

  lemma NotFromOne(a: string, u: string)
    requires |a| == 1 && StartsWith(u, SIP)
    ensures !StartsWith(a + u, SIPS)
  {
    assert (a + u)[1] == u[0] && LowerChar(u[0]) == SIP[0] != SIPS[1];
  }

  /** "sips:" and the first "sip:" do not overlap. */
  lemma SipsBefore(a: string, u: string)
    requires a != "" && StartsWith(u, SIP) && StartsWith(a + u, SIPS)
    ensures |a| >= 5
  {
    hide IsDelimiter, StartsWith;
    var n := |a|;
    StartsLong(a + u);
    StartsLong(u);
    if n == 1 {
      NotFromOne(a, u);
    } else if n < 5 {
      SchemePlain(a + u, SIPS, 4);
      SchemePlain(u, SIP, 4 - n);
    }
  }

  lemma SecretKept(a: string, u: string)
    requires StartsWith(u, SIP) && NoDelimiter(a + u)
    ensures Secret(a + MaskUri(u)) <==> Secret(a + u)
  {
    hide StartsWith, IsDelimiter, MaskUri, Find;
    if MaskUri(u) != u {
      if '@' in a {
        FindIn(a, '@', u);
        FindIn(a, '@', MaskUri(u));
        var at := Find(a, '@');
        assert (a + u)[..at] == a[..at] == (a + MaskUri(u))[..at];
      } else {
        SecretMasked(a, u);
      }
    }
  }

  lemma SecretMasked(a: string, u: string)
    requires StartsWith(u, SIP) && NoDelimiter(a + u) && '@' !in a && MaskUri(u) != u
    ensures Secret(a + MaskUri(u)) && Secret(a + u)
  {
    hide StartsWith, IsDelimiter, MaskUri, Find, Secret;
    var user, password, host := Masked(u);
    SchemeStarts(u);
    SchemeNoAt(u);
    var scheme := u[..4];
    PasswordReplaced(scheme, user, password, host);
    var x := a + scheme + user;
    Regroup(a, scheme, user, password, host);
    Regroup(a, scheme, user, STARS, host);
    StarsPlain();
    assert NoDelimiter(x + ":" + password) by {
      forall k | 0 <= k < |x + ":" + password| ensures !IsDelimiter((x + ":" + password)[k]) {
        assert (a + u)[k] == (x + ":" + password)[k];
      }
    }
    assert NoDelimiter(x + ":" + STARS) by {
      forall k | 0 <= k < |x| ensures !IsDelimiter(x[k]) {
        assert (x + ":" + password)[k] == x[k];
      }
    }
    assert x[|a| + 3] == ':';
    TwoColons(x, password, host);
    TwoColons(x, STARS, host);
  }

  lemma Regroup(a: string, scheme: string, user: string, password: string, host: string)
    ensures a + (scheme + user + ":" + password + "@" + host) == (a + scheme + user) + ":" + password + "@" + host
  {
    Assoc(a, scheme, user);
    Assoc(a, scheme + user, ":");
    Assoc(a, scheme + user + ":", password);
    Assoc(a, scheme + user + ":" + password, "@");
    Assoc(a, scheme + user + ":" + password + "@", host);
  }

  /** What stands behind the first of two colons is never just the stars. */
  lemma TwoColons(x: string, password: string, host: string)
    requires ':' in x && '@' !in x && '@' !in password && NoDelimiter(x + ":" + password)
    ensures Secret(x + ":" + password + "@" + host)
  {
    hide IsDelimiter, Find;
    var info := x + ":" + password;
    Assoc(info, "@", host);
    FindIs(info, '@', "@" + host);
    assert (info + ("@" + host))[..|info|] == info;
    Assoc(x, ":", password);
    FindIn(x, ':', ":" + password);
    var colon := Find(info, ':');
    var behind := info[colon + 1..];
    assert behind[|x| - colon - 1] == ':';
    assert ':' in behind && ':' !in STARS;
  }

  lemma {:induction false} BeforeKept(a: string, u: string)
    requires StartsWith(u, SIP) && FindSip(a + u) == |a| && NoDelimiter(a + u)
    ensures LeakyIn(a + MaskUri(u), |a|) <==> LeakyIn(a + u, |a|)
  {
    hide StartsWith, LeakHead, IsDelimiter, MaskUri, FindSip;
    if a != "" {
      HeadKept(a, u);
      assert (a + u)[1..] == a[1..] + u && (a + MaskUri(u))[1..] == a[1..] + MaskUri(u);
      FindSipTail(a + u);
      BeforeKept(a[1..], u);
    }
  }

  lemma FindSipTail(s: string)
    requires s != "" && FindSip(s) > 0
    ensures FindSip(s[1..]) == FindSip(s) - 1
  {
  }

  // ----- one word -----

  /** The word holds a URI with a password that starts before its first "sip:", anywhere if it has none, or that stands
      behind the first at sign after that "sip:". */
  ghost predicate Survives(w: string) {
    var sip := FindSip(w);
    var at := sip + Find(w[sip..], '@');
    LeaksBefore(w, sip) || (sip < |w| && at < |w| && Leaks(w[at + 1..]))
  }

  lemma WordLeaks(w: string)
    requires NoDelimiter(w)
    ensures Leaks(MaskUris(w)) <==> Survives(w)
  {
    hide MaskUris, MaskUri, LeakyIn, IsDelimiter, FindSip, Leaks, LeaksBefore, Find, StartsWith;
    var n := FindSip(w);
    LeaksIsLeaky(w, n);
    LeaksIsLeaky(MaskUris(w), 0);
    MaskUrisCases(w);
    if n < |w| {
      var a, u := w[..n], w[n..];
      assert w == a + u;
      assert MaskUris(w) == a + MaskUri(u) by {
        assert NoDelimiter(u) by {
          forall k | 0 <= k < |u| ensures !IsDelimiter(u[k]) {
            assert w[n + k] == u[k];
          }
        }
        assert a + u + "" == w && a + MaskUri(u) + "" == a + MaskUri(u);
        MaskUrisAt(a, u, "");
        MaskUrisCases("");
      }
      LeakySplit(a, MaskUri(u));
      BeforeKept(a, u);
      UriLeaks(u);
      var at := Find(u, '@');
      if at < |u| {
        assert w[n + at + 1..] == u[at + 1..];
        LeaksIsLeaky(u[at + 1..], 0);
      }
    }
  }

  // ----- a text of words -----

  /** A delimiter before the text is kept. */
  lemma MaskUrisCons(d: char, y: string)
    requires IsDelimiter(d)
    ensures MaskUris([d] + y) == [d] + MaskUris(y)
  {
    hide MaskUris, MaskUri, IsDelimiter, FindSip, StartsWith;
    var s := [d] + y;
    assert s[1..] == y;
    DelimiterNotSip(s);
    FindSipTail(s);
    if FindSip(y) < |y| {
      var pre, uri, rest := Parts(y);
      assert [d] + pre + uri + rest == s by {
        Assoc([d], pre, uri);
        Assoc([d], pre + uri, rest);
      }
      SchemeStarts(uri);
      MaskUrisAt([d] + pre, uri, rest);
      Assoc([d], pre, MaskUri(uri));
      Assoc([d], pre + MaskUri(uri), MaskUris(rest));
    } else {
      MaskUrisCases(y);
      MaskUrisCases(s);
    }
  }

  lemma {:induction false} FindSipAcross(w: string, y: string)
    requires NoDelimiter(w) && FindSip(w) == |w| && AtDelimiter(y)
    ensures FindSip(w + y) == |w| + FindSip(y)
  {
    hide IsDelimiter, StartsWith;
    if w == "" {
      assert w + y == y;
    } else {
      assert (w + y)[1..] == w[1..] + y;
      FindSipTail(w);
      FindSipAcross(w[1..], y);
      HeadAcross(w, y, SIP);
    }
  }

  /** A scheme does not reach over the end of a word. */
  lemma HeadAcross(w: string, y: string, p: string)
    requires NoDelimiter(w) && AtDelimiter(y) && (p == SIP || p == SIPS)
    ensures StartsWith(w + y, p) <==> StartsWith(w, p)
  {
    hide IsDelimiter, LowerChar;
    if |w| >= |p| {
      StartsSame(w, w + y, p);
    } else if |w| < |p| <= |w + y| && StartsWith(w + y, p) {
      SchemePlain(w + y, p, |w|);
    }
  }

  lemma WordMasked(w: string, y: string)
    requires NoDelimiter(w) && AtDelimiter(y)
    ensures MaskUris(w + y) == MaskUris(w) + MaskUris(y)
  {
    hide MaskUris, MaskUri, IsDelimiter, FindSip, StartsWith, UriEnd;
    if FindSip(w) < |w| {
      var pre, uri, rest := Parts(w);
      WordRest(pre, uri, rest, w);
      assert pre + uri == w && pre + uri + "" == w && pre + uri + y == w + y;
      SchemeStarts(uri);
      FindSipSame(w, w + y, |pre|);
      MaskUrisAt(pre, uri, y);
      MaskUrisAt(pre, uri, "");
      MaskUrisCases("");
      assert pre + MaskUri(uri) + "" == pre + MaskUri(uri);
    } else {
      FindSipAcross(w, y);
      MaskUrisCases(w);
      MaskUrisCases(w + y);
      MaskUrisCases(y);
      if FindSip(y) < |y| {
        var pre, uri, rest := Parts(y);
        SchemeStarts(uri);
        assert w + y == w + pre + uri + rest by {
          Assoc(w, pre, uri);
          Assoc(w, pre + uri, rest);
        }
        MaskUrisAt(w + pre, uri, rest);
        Assoc(w, pre, MaskUri(uri));
        Assoc(w, pre + MaskUri(uri), MaskUris(rest));
      }
    }
  }

  /** The URI of a word reaches to its end. */
  lemma WordRest(pre: string, uri: string, rest: string, w: string)
    requires NoDelimiter(w) && w == pre + uri + rest && AtDelimiter(rest)
    ensures rest == ""
  {
    assert w[|pre + uri|..] == rest;
  }

  lemma SecretAcross(r: string, y: string)
    requires NoDelimiter(r) && AtDelimiter(y)
    ensures Secret(r + y) <==> Secret(r)
  {
    hide Find, IsDelimiter;
    if '@' in r {
      FindIn(r, '@', y);
      var at := Find(r, '@');
      assert (r + y)[..at] == r[..at];
    } else {
      FindNone(r, '@');
      FindNotIn(r, '@', y);
      AtIsNoDelimiter();
      var at := Find(r + y, '@');
      if at < |r + y| {
        assert y[0] != '@' && (r + y)[..at][|r|] == y[0];
      }
    }
  }

  lemma AtIsNoDelimiter()
    ensures !IsDelimiter('@')
  {
  }

  lemma LeakHeadAcross(w: string, y: string)
    requires NoDelimiter(w) && AtDelimiter(y)
    ensures LeakHead(w + y) <==> LeakHead(w)
  {
    hide Secret, IsDelimiter, StartsWith;
    HeadAcross(w, y, SIP);
    HeadAcross(w, y, SIPS);
    StartsLong(w);
    if StartsWith(w, SIP) {
      assert (w + y)[4..] == w[4..] + y;
      SecretAcross(w[4..], y);
    }
    if StartsWith(w, SIPS) {
      assert (w + y)[5..] == w[5..] + y;
      SecretAcross(w[5..], y);
    }
  }

  lemma {:induction false} WordLeaky(w: string, y: string)
    requires NoDelimiter(w) && AtDelimiter(y)
    ensures LeakyIn(w + y, |w|) <==> Leaky(w)
  {
    hide LeakHead, IsDelimiter;
    if w != "" {
      assert (w + y)[1..] == w[1..] + y;
      LeakHeadAcross(w, y);
      WordLeaky(w[1..], y);
    }
  }

  /** A text leaks exactly if its first word does, or what follows the delimiter behind it. */
  lemma LeaksJoin(w: string, d: char, y: string)
    requires NoDelimiter(w) && IsDelimiter(d)
    ensures Leaks(w + ([d] + y)) <==> Leaks(w) || Leaks(y)
  {
    hide LeakHead, LeakyIn, Leaks, LeaksBefore, IsDelimiter;
    var z := [d] + y;
    LeaksIsLeaky(w + z, 0);
    LeaksIsLeaky(w, 0);
    LeaksIsLeaky(y, 0);
    LeakySplit(w, z);
    WordLeaky(w, z);
    NoSchemeAt(z);
    LeakyTail(z);
    assert z[1..] == y;
  }

  lemma LeakyTail(z: string)
    requires z != "" && !LeakHead(z)
    ensures Leaky(z) <==> Leaky(z[1..])
  {
    hide LeakHead;
  }

  /** The text cut at every delimiter. */
  function Words(s: string): seq<string>
    decreases |s|
  {
    var n := UriEnd(s);
    if n == |s| then [s] else [s[..n]] + Words(s[n + 1..])
  }

  ghost predicate SomeSurvives(words: seq<string>) {
    exists w :: w in words && Survives(w)
  }

  lemma SurvivesCons(w: string, words: seq<string>)
    ensures SomeSurvives([w] + words) <==> Survives(w) || SomeSurvives(words)
  {
    hide Survives;
    if Survives(w) {
      assert w in [w] + words;
    }
    if SomeSurvives(words) {
      var v :| v in words && Survives(v);
      assert v in [w] + words;
    }
  }

  /** Masking leaves a password in a text if and only if one of its words holds one before its first "sip:", or
      anywhere if it has none, or behind the first at sign after that "sip:". */
  lemma {:induction false} LeaksExactly(s: string)
    ensures Leaks(MaskUris(s)) <==> SomeSurvives(Words(s))
    decreases |s|
  {
    hide MaskUris, IsDelimiter, Leaks, Survives, SomeSurvives, UriEnd;
    var n := UriEnd(s);
    var w := s[..n];
    assert NoDelimiter(w);
    WordLeaks(w);
    SurvivesCons(w, []);
    NoneSurvives();
    if n == |s| {
      assert w == s && [w] + [] == [s];
    } else {
      var d, y := s[n], s[n + 1..];
      assert s == w + ([d] + y);
      WordMasked(w, [d] + y);
      MaskUrisCons(d, y);
      MaskedWordPlain(w);
      LeaksJoin(MaskUris(w), d, MaskUris(y));
      LeaksExactly(y);
      SurvivesCons(w, Words(y));
    }
  }

  lemma NoneSurvives()
    ensures !SomeSurvives([])
  {
  }

  lemma MaskedWordPlain(w: string)
    requires NoDelimiter(w)
    ensures NoDelimiter(MaskUris(w))
  {
    hide MaskUris, MaskUri, IsDelimiter, FindSip, StartsWith;
    if FindSip(w) < |w| {
      var pre, uri, rest := Parts(w);
      WordRest(pre, uri, rest, w);
      MaskUriTwice(uri);
      MaskUrisCases("");
      forall k | 0 <= k < |pre| ensures !IsDelimiter(pre[k]) {
        assert w[k] == pre[k];
      }
    } else {
      MaskUrisCases(w);
    }
  }

  // ----- a line of the log -----

  lemma {:induction false} NoAtSame(s: string)
    requires '@' !in s
    ensures MaskUris(s) == s
    decreases |s|
  {
    hide MaskUris, MaskUri, IsDelimiter, FindSip, StartsWith;
    if FindSip(s) < |s| {
      var pre, uri, rest := Parts(s);
      NoAtUnmasked(uri);
      NoAtSame(rest);
    } else {
      MaskUrisCases(s);
    }
  }

  lemma SipHasColon(s: string)
    requires FindSip(s) < |s|
    ensures ':' in s
  {
    hide StartsWith, FindSip;
    SchemeWord();
    StartsLong(s[FindSip(s)..]);
    SipColon(s, FindSip(s));
  }

  /** The three tests before masking a line save work only. */
  lemma LineMaskedAsText(line: string)
    requires !IsCredentials(line)
    ensures MaskLine(line) == MaskUris(line)
  {
    hide MaskUris, FindSip, IsCredentials, MaskLine;
    MaskLineCases(line);
    MaskUrisCases(line);
    if '@' !in line {
      NoAtSame(line);
    }
    if FindSip(line) < |line| {
      SipHasColon(line);
    }
  }

  lemma HeaderPlain(line: string, p: string)
    requires (p == AUTHORIZATION || p == PROXY_AUTHORIZATION) && StartsWith(line, p)
    ensures '@' !in line[..|p|]
  {
    NoAtInHeaders();
    forall k | 0 <= k < |p|
      ensures line[k] != '@'
    {
      assert LowerChar(line[k]) == p[k];
    }
  }

  lemma NoAtInHeaders()
    ensures '@' !in AUTHORIZATION && '@' !in PROXY_AUTHORIZATION && '@' !in MASKED
  {
  }

  lemma CredentialsKeepNothing(line: string)
    requires IsCredentials(line)
    ensures !Leaks(MaskLine(line))
  {
    hide StartsWith, MaskLine, Leaks;
    NoAtInHeaders();
    var p := if StartsWith(line, AUTHORIZATION) then AUTHORIZATION else PROXY_AUTHORIZATION;
    CredentialsTwice(line, p);
    HeaderPlain(line, p);
    LeaksIsLeaky(MaskLine(line), 0);
    NoAtNotLeaky(MaskLine(line), |MaskLine(line)|);
  }

  /** A masked line keeps a password exactly if it is no credentials header and one of its words keeps one. */
  lemma LineLeaksExactly(line: string)
    ensures Leaks(MaskLine(line)) <==> !IsCredentials(line) && SomeSurvives(Words(line))
  {
    hide MaskUris, MaskLine, IsCredentials, Leaks, SomeSurvives, Words;
    if IsCredentials(line) {
      CredentialsKeepNothing(line);
    } else {
      LineMaskedAsText(line);
      LeaksExactly(line);
    }
  }

  // ----- two texts that keep a password -----

  /** A second URI in the same word keeps its password, and the text stays as it is. */
  lemma SecondUriSurvives(first: string, scheme: string, user: string, password: string, behind: string)
    requires |scheme| == 4 && StartsWith(scheme, SIP) && ':' !in first && '@' !in first && NoDelimiter(first)
    requires NoDelimiter(user) && NoDelimiter(password) && NoDelimiter(behind)
    requires ':' !in user && '@' !in user && '@' !in password && password != STARS
    ensures var second := SIP + user + ":" + password + "@" + behind;
            var t := scheme + first + "@" + second;
            MaskUris(t) == t && Leaks(t)
  {
    hide MaskUris, MaskUri, IsDelimiter, Find, StartsWith, FindSip;
    var second := SIP + user + ":" + password + "@" + behind;
    var t := scheme + first + "@" + second;
    SchemeWord();
    assert Leak(t, scheme + first + "@", SIP, user, password, behind) by {
      Assoc5(scheme + first + "@" + SIP, user, password, behind);
      Assoc5(SIP, user, password, behind);
      Assoc(scheme + first + "@", SIP, user + ":" + password + "@" + behind);
    }
    FirstUriPlain(scheme, first, second);
    assert NoDelimiter(t) by {
      StarsPlain();
      PlainScheme(scheme);
      NoDelimiterJoin(SIP, user, password, behind);
    }
    assert "" + t + "" == t;
    FirstSip(t, scheme);
    MaskUrisAt("", t, "");
    MaskUrisCases("");
    assert "" + MaskUri(t) + "" == MaskUri(t);
  }

  /** A "sips:" URI keeps its password where no "sip:" follows its scheme. */
  lemma SipsSurvives(user: string, password: string, behind: string)
    requires NoDelimiter(user) && NoDelimiter(password)
    requires ':' !in user && '@' !in user && '@' !in password && password != STARS
    requires var rest := user + ":" + password + "@" + behind; FindSip(rest) == |rest|
    ensures Leaks(MaskUris(SIPS + (user + ":" + password + "@" + behind)))
  {
    hide MaskUris, IsDelimiter, StartsWith, FindSip;
    SipsUntouched(user + ":" + password + "@" + behind);
    SipsWord();
    assert Leak(SIPS + (user + ":" + password + "@" + behind), "", SIPS, user, password, behind) by {
      assert "" + SIPS == SIPS;
      Assoc5(SIPS, user, password, behind);
    }
  }

  lemma SipsWord()
    ensures |SIPS| == 5 && StartsWith(SIPS, SIPS)
  {
  }

  lemma SchemeWord()
    ensures |SIP| == 4 && StartsWith(SIP, SIP) && NoDelimiter(SIP)
  {
  }

  lemma PlainScheme(scheme: string)
    requires |scheme| == 4 && StartsWith(scheme, SIP)
    ensures NoDelimiter(scheme)
  {
    forall k | 0 <= k < 4 ensures !IsDelimiter(scheme[k]) {
      SchemePlain(scheme, SIP, k);
    }
  }

  lemma FirstSip(t: string, scheme: string)
    requires |scheme| == 4 <= |t| && t[..4] == scheme && StartsWith(scheme, SIP)
    ensures FindSip(t) == 0
  {
    StartsSame(t, scheme, SIP);
  }

  lemma FirstUriPlain(scheme: string, first: string, second: string)
    requires |scheme| == 4 && StartsWith(scheme, SIP) && ':' !in first && '@' !in first
    ensures MaskUri(scheme + first + "@" + second) == scheme + first + "@" + second
  {
    hide StartsWith, Find, MaskUri;
    var t := scheme + first + "@" + second;
    assert t[..4] == scheme;
    StartsSame(t, scheme, SIP);
    UriSameExactly(t);
    var body := t[4..];
    assert body == first + ("@" + second);
    FindIs(first, '@', "@" + second);
    assert body[..|first|] == first;
    FindNone(first, ':');
  }
}
