/** What masking keeps, what it hides, and when masking again changes nothing. */
module SipMaskLaws {
  import opened Bytes
  import opened SipMask

  predicate NoDelimiter(s: string) {
    forall k :: 0 <= k < |s| ==> !IsDelimiter(s[k])
  }

  predicate AtDelimiter(s: string) {
    s == "" || IsDelimiter(s[0])
  }

  // ----- finding -----

  lemma {:induction false} FindIs(a: string, c: char, b: string)
    requires c !in a && (b == "" || b[0] == c)
    ensures Find(a + b, c) == |a|
  {
    if a == "" {
      assert a + b == b;
    } else {
      assert (a + b)[0] == a[0] && a[0] in a && (a + b)[1..] == a[1..] + b;
      FindIs(a[1..], c, b);
    }
  }

  lemma {:induction false} UriEndIs(a: string, b: string)
    requires NoDelimiter(a) && AtDelimiter(b)
    ensures UriEnd(a + b) == |a|
  {
    hide IsDelimiter;
    if a == "" {
      assert a + b == b;
    } else {
      assert (a + b)[0] == a[0] && (a + b)[1..] == a[1..] + b;
      UriEndIs(a[1..], b);
    }
  }

  lemma {:induction false} FindSipSame(s: string, t: string, n: nat)
    requires n + 4 <= |s| && n + 4 <= |t| && s[..n + 4] == t[..n + 4] && FindSip(s) == n
    ensures FindSip(t) == n
  {
    hide StartsWith;
    StartsSame(s, t, SIP);
    if n > 0 {
      assert s[1..][..n + 3] == s[..n + 4][1..] == t[..n + 4][1..] == t[1..][..n + 3];
      FindSipSame(s[1..], t[1..], n - 1);
    }
  }

  lemma StartsSame(s: string, t: string, p: string)
    requires |p| <= |s| && |p| <= |t| && s[..|p|] == t[..|p|]
    ensures StartsWith(s, p) <==> StartsWith(t, p)
  {
    hide LowerChar;
    assert forall k :: 0 <= k < |p| ==> s[k] == s[..|p|][k] == t[..|p|][k] == t[k];
  }

  lemma DelimiterNotSip(s: string)
    requires s != "" && IsDelimiter(s[0])
    ensures FindSip(s) > 0
  {
    assert SIP[0] == 's';
  }

  // ----- one URI -----

  /** The password of a URI is replaced, whatever it is. */
  lemma PasswordReplaced(scheme: string, user: string, password: string, host: string)
    requires |scheme| == 4 && StartsWith(scheme, SIP)
    requires ':' !in user && '@' !in user && '@' !in password
    ensures MaskUri(scheme + user + ":" + password + "@" + host) == scheme + user + ":" + STARS + "@" + host
  {
    hide LowerChar, StartsWith, Find;
    var info := user + ":" + password;
    var body := info + ("@" + host);
    var uri := scheme + body;
    Assoc5(scheme, user, password, host);
    Assoc(info, "@", host);
    assert uri[..4] == scheme && uri[4..] == body;
    SchemeStarts(uri);
    FindIs(info, '@', "@" + host);
    assert body[..|info|] == info && info == user + (":" + password);
    FindIs(user, ':', ":" + password);
    assert info[..|user|] == user && body[|info|..] == "@" + host && body[..|user|] == user;
    Assoc(scheme + user + ":" + STARS, "@", host);
  }

  /** Every URI that changes is of the form that PasswordReplaced describes. */
  lemma Masked(uri: string) returns (user: string, password: string, host: string)
    requires StartsWith(uri, SIP) && MaskUri(uri) != uri
    ensures uri == uri[..4] + user + ":" + password + "@" + host
    ensures ':' !in user && '@' !in user && '@' !in password
  {
    hide StartsWith, MaskBody;
    SchemeStarts(uri);
    assert uri[..4] + uri[4..] == uri;
    user, password, host := MaskedBody(uri[..4], uri[4..]);
    Assoc5(uri[..4], user, password, host);
  }

  lemma MaskedBody(prefix: string, body: string) returns (user: string, password: string, host: string)
    requires MaskBody(prefix, body) != prefix + body
    ensures body == user + ":" + password + "@" + host
    ensures ':' !in user && '@' !in user && '@' !in password
  {
    hide Find;
    var at := Find(body, '@');
    var info := body[..at];
    var colon := Find(info, ':');
    user, password, host := info[..colon], info[colon + 1..], body[at + 1..];
    assert info == user + ":" + password;
    assert body == info + "@" + host;
  }

  lemma Assoc5(a: string, b: string, c: string, d: string)
    ensures a + (b + ":" + c + "@" + d) == a + b + ":" + c + "@" + d
  {
    Assoc(a, b, ":");
    Assoc(a, b + ":", c);
    Assoc(a, b + ":" + c, "@");
    Assoc(a, b + ":" + c + "@", d);
  }

  /** What the second masking sees of a masked URI. */
  lemma MaskUriTwice(uri: string)
    requires StartsWith(uri, SIP) && NoDelimiter(uri)
    ensures var t := MaskUri(uri);
            && |t| >= 4 && t[..4] == uri[..4] && StartsWith(t, SIP) && NoDelimiter(t) && MaskUri(t) == t
            && t[|t| - 1] == uri[|uri| - 1]
  {
    hide StartsWith, IsDelimiter, MaskUri;
    var t := MaskUri(uri);
    SchemeStarts(uri);
    if t != uri {
      var user, password, host := Masked(uri);
      var scheme := uri[..4];
      PasswordReplaced(scheme, user, password, host);
      PasswordReplaced(scheme, user, STARS, host);
      StarsPlain();
      assert t == scheme + user + ":" + STARS + "@" + host;
      SchemeStarts(t);
      PartsPlain(scheme, user, password, host);
      NoDelimiterJoin(scheme, user, STARS, host);
    }
  }

  lemma SchemeStarts(uri: string)
    requires |uri| >= 4 || StartsWith(uri, SIP)
    ensures |uri| >= 4 && (StartsWith(uri, SIP) <==> StartsWith(uri[..4], SIP))
  {
    StartsSame(uri, uri[..4], SIP);
  }

  lemma StarsPlain()
    ensures NoDelimiter(STARS) && '@' !in STARS && !IsDelimiter(':') && !IsDelimiter('@')
  {
  }

  lemma PartsPlain(scheme: string, user: string, password: string, host: string)
    requires NoDelimiter(scheme + user + ":" + password + "@" + host)
    ensures NoDelimiter(scheme) && NoDelimiter(user) && NoDelimiter(host)
  {
    hide IsDelimiter;
    var s := scheme + user + ":" + password + "@" + host;
    assert s[..|scheme|] == scheme && s[|scheme|..|scheme| + |user|] == user && s[|s| - |host|..] == host;
  }

  lemma NoDelimiterJoin(scheme: string, user: string, password: string, host: string)
    requires NoDelimiter(scheme) && NoDelimiter(user) && NoDelimiter(password) && NoDelimiter(host)
    ensures NoDelimiter(scheme + user + ":" + password + "@" + host)
  {
    hide IsDelimiter;
    StarsPlain();
  }

  // ----- a text with URIs -----

  lemma MaskUrisAt(pre: string, uri: string, rest: string)
    requires FindSip(pre + uri + rest) == |pre| && uri != "" && NoDelimiter(uri) && AtDelimiter(rest)
    ensures MaskUris(pre + uri + rest) == pre + MaskUri(uri) + MaskUris(rest)
  {
    hide FindSip, UriEnd, MaskUri, MaskUris, StartsWith, NoDelimiter, AtDelimiter;
    var t := uri + rest;
    Assoc(pre, uri, rest);
    MaskUrisCases(pre + t);
    assert (pre + t)[|pre|..] == t && (pre + t)[..|pre|] == pre;
    UriEndIs(uri, rest);
    assert t[..|uri|] == uri && t[|uri|..] == rest;
  }

  /** In a text the password of the first URI is replaced, and the text after the URI is masked in turn. */
  lemma PasswordsMasked(pre: string, scheme: string, user: string, password: string, host: string, rest: string)
    requires |scheme| == 4 && StartsWith(scheme, SIP)
    requires ':' !in user && '@' !in user && '@' !in password && AtDelimiter(rest)
    requires NoDelimiter(scheme) && NoDelimiter(user) && NoDelimiter(password) && NoDelimiter(host)
    requires FindSip(pre + (scheme + user + ":" + password + "@" + host) + rest) == |pre|
    ensures MaskUris(pre + (scheme + user + ":" + password + "@" + host) + rest)
         == pre + (scheme + user + ":" + STARS + "@" + host) + MaskUris(rest)
  {
    hide FindSip, StartsWith, NoDelimiter, AtDelimiter, MaskUris, MaskUri;
    NoDelimiterJoin(scheme, user, password, host);
    MaskUrisAt(pre, scheme + user + ":" + password + "@" + host, rest);
    PasswordReplaced(scheme, user, password, host);
  }

  /** The parts of a text that holds a URI. */
  lemma Parts(s: string) returns (pre: string, uri: string, rest: string)
    requires FindSip(s) < |s|
    ensures s == pre + uri + rest && |pre| == FindSip(s) && |rest| < |s|
    ensures StartsWith(uri, SIP) && NoDelimiter(uri) && AtDelimiter(rest)
    ensures MaskUris(s) == pre + MaskUri(uri) + MaskUris(rest)
  {
    hide MaskUris, MaskUri, IsDelimiter, FindSip;
    MaskUrisCases(s);
    var t := s[FindSip(s)..];
    pre, uri, rest := s[..FindSip(s)], t[..UriEnd(t)], t[UriEnd(t)..];
    StartsSame(t, uri, SIP);
  }

  lemma MaskUrisFirst(s: string)
    requires AtDelimiter(s)
    ensures AtDelimiter(MaskUris(s))
  {
    hide IsDelimiter, MaskUri, StartsWith, UriEnd, FindSip;
    if s != "" {
      DelimiterNotSip(s);
      MaskUrisCases(s);
    }
  }

  /** The text up to the end of the first "sip:" is kept. */
  lemma StartKept(s: string)
    requires FindSip(s) < |s|
    ensures var n, t := FindSip(s), MaskUris(s);
            n + 4 <= |t| && n + 4 <= |s| && t[..n + 4] == s[..n + 4] && FindSip(t) == n
  {
    hide MaskUris, MaskUri, IsDelimiter, FindSip, StartsWith;
    var pre, uri, rest := Parts(s);
    MaskUriTwice(uri);
    SchemeStarts(uri);
    var masked := MaskUri(uri);
    var t := pre + masked + MaskUris(rest);
    assert s[..|pre| + 4] == pre + uri[..4] && t[..|pre| + 4] == pre + masked[..4];
    FindSipSame(s, t, |pre|);
  }

  /** Masking URIs twice is masking them once. */
  lemma {:induction false} MaskUrisTwice(s: string)
    ensures MaskUris(MaskUris(s)) == MaskUris(s)
    decreases |s|
  {
    hide MaskUris, MaskUri, IsDelimiter, FindSip, StartsWith;
    if FindSip(s) < |s| {
      var pre, uri, rest := Parts(s);
      MaskUrisTwice(rest);
      StartKept(s);
      MaskUriTwice(uri);
      MaskUrisFirst(rest);
      MaskUrisAt(pre, MaskUri(uri), MaskUris(rest));
    } else {
      MaskUrisCases(s);
    }
  }

  lemma {:induction false} FindSipSnoc(s: string, d: char)
    requires IsDelimiter(d)
    ensures FindSip(s + [d]) == if FindSip(s) == |s| then |s| + 1 else FindSip(s)
  {
    if s == "" {
      assert s + [d] == [d] && [d][1..] == "" && !StartsWith([d], SIP);
    } else {
      assert (s + [d])[1..] == s[1..] + [d];
      if |s| >= 4 {
        StartsSame(s, s + [d], SIP);
      } else if |s| == 3 {
        assert (s + [d])[3] == d && LowerChar(d) != SIP[3];
      }
      FindSipSnoc(s[1..], d);
    }
  }

  /** A delimiter after the text is kept and changes nothing before it. */
  lemma {:induction false} MaskUrisSnoc(s: string, d: char)
    requires IsDelimiter(d)
    ensures MaskUris(s + [d]) == MaskUris(s) + [d]
    decreases |s|
  {
    hide MaskUris, MaskUri, IsDelimiter, FindSip, StartsWith;
    FindSipSnoc(s, d);
    if FindSip(s) < |s| {
      var pre, uri, rest := Parts(s);
      assert pre + uri + (rest + [d]) == s + [d];
      SchemeStarts(uri);
      MaskUrisAt(pre, uri, rest + [d]);
      MaskUrisSnoc(rest, d);
      Assoc(pre + MaskUri(uri), MaskUris(rest), [d]);
    } else {
      MaskUrisCases(s);
      MaskUrisCases(s + [d]);
    }
  }

  lemma {:induction false} MaskUrisLast(s: string)
    requires s != ""
    ensures MaskUris(s) != "" && MaskUris(s)[|MaskUris(s)| - 1] == s[|s| - 1]
    decreases |s|
  {
    hide MaskUris, MaskUri, IsDelimiter, FindSip, StartsWith;
    if FindSip(s) < |s| {
      var pre, uri, rest := Parts(s);
      MaskUriTwice(uri);
      SchemeStarts(uri);
      if rest != "" {
        MaskUrisLast(rest);
      } else {
        MaskUrisCases("");
      }
    } else {
      MaskUrisCases(s);
    }
  }

  // ----- one line -----

  predicate MasksUris(line: string) {
    FindSip(line) < |line| && '@' in line && ':' in line
  }

  /** A header's name and its colon, the first one. */
  predicate HeaderName(p: string) {
    |p| >= 14 && p[|p| - 1] == ':' && forall k :: 0 <= k < |p| - 1 ==> p[k] != ':'
  }

  lemma HeaderNames()
    ensures HeaderName(AUTHORIZATION) && HeaderName(PROXY_AUTHORIZATION)
    ensures |AUTHORIZATION| == 14 && |PROXY_AUTHORIZATION| == 20
  {
  }

  lemma LowerColon(c: char)
    ensures LowerChar(c) == ':' <==> c == ':'
  {
  }

  lemma HeaderColon(line: string, p: string)
    requires HeaderName(p) && StartsWith(line, p)
    ensures Find(line, ':') == |p| - 1 < |line|
  {
    hide LowerChar, Find;
    var n := |p| - 1;
    forall k | 0 <= k <= n
      ensures line[k] == ':' <==> p[k] == ':'
    {
      LowerColon(line[k]);
    }
    assert forall c :: c in line[..n] ==> c != ':';
    assert line[n..][0] == line[n] && line[..n] + line[n..] == line;
    FindIs(line[..n], ':', line[n..]);
  }

  lemma CredentialsColon(line: string)
    requires IsCredentials(line)
    ensures Find(line, ':') < |line|
  {
    hide StartsWith, HeaderName, Find;
    HeaderNames();
    if StartsWith(line, AUTHORIZATION) {
      HeaderColon(line, AUTHORIZATION);
    } else {
      HeaderColon(line, PROXY_AUTHORIZATION);
    }
  }

  lemma MaskLineCases(line: string)
    ensures IsCredentials(line) ==> var c := Find(line, ':'); c < |line| && MaskLine(line) == line[..c + 1] + MASKED
    ensures !IsCredentials(line) ==> MaskLine(line) == if MasksUris(line) then MaskUris(line) else line
  {
    hide MaskUris, FindSip, Find, IsCredentials;
    if IsCredentials(line) {
      CredentialsColon(line);
    }
  }

  /** Masking a credentials header again changes nothing. */
  lemma CredentialsTwice(line: string, p: string)
    requires p == AUTHORIZATION || p == PROXY_AUTHORIZATION
    requires StartsWith(line, p)
    ensures MaskLine(line) == line[..|p|] + MASKED
    ensures IsCredentials(MaskLine(line)) && MaskLine(MaskLine(line)) == MaskLine(line)
  {
    hide MaskLine, StartsWith, HeaderName, Find;
    HeaderNames();
    HeaderColon(line, p);
    MaskLineCases(line);
    var m := line[..|p|] + MASKED;
    assert m[..|p|] == line[..|p|];
    StartsSame(line, m, p);
    HeaderColon(m, p);
    MaskLineCases(m);
  }

  lemma {:induction false} FindFirst(s: string, c: char, k: nat)
    requires k < |s| && s[k] == c
    ensures Find(s, c) <= k
  {
    if k > 0 && s[0] != c {
      FindFirst(s[1..], c, k - 1);
    }
  }

  /** Masking URIs makes no credentials header of a line. */
  lemma NotMadeCredentials(line: string, p: string)
    requires HeaderName(p) && FindSip(line) < |line|
    ensures StartsWith(MaskUris(line), p) ==> StartsWith(line, p)
  {
    hide MaskUris, FindSip, StartsWith, HeaderName, Find;
    StartKept(line);
    var n, m := FindSip(line), MaskUris(line);
    if StartsWith(m, p) {
      SipColon(m, n);
      HeaderColon(m, p);
      FindFirst(m, ':', n + 3);
      assert m[..|p|] == m[..n + 4][..|p|] == line[..n + 4][..|p|] == line[..|p|];
      StartsSame(m, line, p);
    }
  }

  lemma SipColon(s: string, n: nat)
    requires n + 4 <= |s| && StartsWith(s[n..], SIP)
    ensures s[n + 3] == ':'
  {
    hide LowerChar;
    assert LowerChar(s[n..][3]) == SIP[3] == ':';
    LowerColon(s[n + 3]);
  }

  /** Masking a line twice is masking it once. */
  lemma MaskLineTwice(line: string)
    ensures MaskLine(MaskLine(line)) == MaskLine(line)
    ensures IsCredentials(MaskLine(line)) <==> IsCredentials(line)
  {
    hide MaskLine, StartsWith, HeaderName, FindSip, Find, MaskUris;
    HeaderNames();
    if StartsWith(line, AUTHORIZATION) {
      CredentialsTwice(line, AUTHORIZATION);
    } else if StartsWith(line, PROXY_AUTHORIZATION) {
      CredentialsTwice(line, PROXY_AUTHORIZATION);
    } else {
      MaskLineCases(line);
      if MasksUris(line) {
        var m := MaskUris(line);
        NotMadeCredentials(line, AUTHORIZATION);
        NotMadeCredentials(line, PROXY_AUTHORIZATION);
        MaskUrisTwice(line);
        MaskLineCases(m);
      }
    }
  }

  // ----- the log -----

  lemma {:induction false} MaskUrisNoFeed(s: string)
    requires '\n' !in s
    ensures '\n' !in MaskUris(s)
    decreases |s|
  {
    hide MaskUris, MaskUri, FindSip, StartsWith, AtDelimiter;
    if FindSip(s) < |s| {
      var pre, uri, rest := Parts(s);
      MaskUriTwice(uri);
      assert forall c :: c in MaskUri(uri) ==> !IsDelimiter(c);
      assert IsDelimiter('\n');
      MaskUrisNoFeed(rest);
    } else {
      MaskUrisCases(s);
    }
  }

  /** A masked line is one line, and empty only if the line was. */
  lemma MaskLineIsLine(line: string)
    requires '\n' !in line
    ensures '\n' !in MaskLine(line) && (MaskLine(line) == "" <==> line == "")
  {
    hide MaskLine, StartsWith, FindSip, Find, MaskUris, IsCredentials;
    MaskLineCases(line);
    if IsCredentials(line) {
      assert '\n' !in MASKED;
    } else if MasksUris(line) {
      MaskUrisNoFeed(line);
      MaskUrisLast(line);
    }
  }

  lemma CredentialsSnoc(line: string)
    ensures IsCredentials(line + "\r") <==> IsCredentials(line)
  {
    hide StartsWith, HeaderName;
    HeaderNames();
    StartsSnoc(line, AUTHORIZATION);
    StartsSnoc(line, PROXY_AUTHORIZATION);
  }

  lemma StartsSnoc(line: string, p: string)
    requires HeaderName(p)
    ensures StartsWith(line + "\r", p) <==> StartsWith(line, p)
  {
    var s := line + "\r";
    if |p| <= |line| {
      StartsSame(line, s, p);
    } else if |p| == |s| {
      assert s[|p| - 1] == '\r';
      LowerColon(s[|p| - 1]);
    }
  }

  /** A carriage return after a line that is no credentials header stays, and is all that it adds. */
  lemma MaskLineSnoc(line: string)
    requires !IsCredentials(line)
    ensures MaskLine(line + "\r") == MaskLine(line) + "\r"
  {
    hide MaskLine, FindSip, MaskUris, IsCredentials;
    CredentialsSnoc(line);
    MaskLineCases(line);
    MaskLineCases(line + "\r");
    FindSipSnoc(line, '\r');
    MaskUrisSnoc(line, '\r');
  }

  /** A line's second masking, after it has lost a carriage return, gives it back as it was exactly if it lost none. */
  lemma MaskChomped(line: string)
    ensures var m := MaskLine(line);
            MaskLine(Chomp(m)) == m <==> IsCredentials(line) || !EndsWith(line, '\r')
  {
    hide MaskLine, IsCredentials, MasksUris, MaskUris;
    MaskLineTwice(line);
    MaskLineCases(line);
    if IsCredentials(line) {
      assert MaskLine(line)[|MaskLine(line)| - 1] == '*';
    } else if EndsWith(line, '\r') {
      var init := line[..|line| - 1];
      assert line == init + "\r";
      CredentialsSnoc(init);
      MaskLineSnoc(init);
      MaskLineTwice(init);
      assert Chomp(MaskLine(line)) == MaskLine(init);
    } else if line == "" {
      EmptyLine();
    } else {
      MaskUrisLast(line);
    }
  }

  /** No line other than a credentials header ends in a carriage return before its line end. */
  predicate NoDoubleReturn(s: string)
    decreases |s|
  {
    var k := Find(s, '\n');
    k == |s|
    || (NoDoubleReturn(s[k + 1..]) && (IsCredentials(Chomp(s[..k])) || !EndsWith(Chomp(s[..k]), '\r')))
  }

  lemma LogCons(line: string, rest: string)
    requires '\n' !in line
    ensures MaskLog(line + "\n" + rest) == MaskLine(Chomp(line)) + "\n" + MaskLog(rest)
    ensures Lines(line + "\n" + rest) == [Chomp(line)] + Lines(rest)
  {
    hide MaskLine, Find, Chomp;
    var s := line + "\n" + rest;
    Assoc(line, "\n", rest);
    FindIs(line, '\n', "\n" + rest);
    assert s[..|line|] == line && s[|line| + 1..] == rest;
  }

  lemma SplitUnique(a: string, b: string, x: string, y: string)
    requires '\n' !in a && '\n' !in x
    ensures a + "\n" + b == x + "\n" + y <==> a == x && b == y
  {
    hide Find;
    var s, t := a + "\n" + b, x + "\n" + y;
    Assoc(a, "\n", b);
    Assoc(x, "\n", y);
    FindIs(a, '\n', "\n" + b);
    FindIs(x, '\n', "\n" + y);
    assert s[..|a|] == a && s[|a| + 1..] == b && t[..|x|] == x && t[|x| + 1..] == y;
  }

  lemma ChompNoFeed(line: string)
    requires '\n' !in line
    ensures '\n' !in Chomp(line)
  {
  }

  /** Masking a log twice is masking it once exactly when only credentials headers end in two carriage returns and a
      line feed. */
  lemma {:induction false} MaskLogTwice(s: string)
    ensures MaskLog(MaskLog(s)) == MaskLog(s) <==> NoDoubleReturn(s)
    decreases |s|
  {
    hide MaskLine, MaskLog, Chomp, Find, IsCredentials, Lines;
    var k := Find(s, '\n');
    MaskLogCases(s);
    if k == |s| {
      assert s[..k] == s;
      MaskLineIsLine(s);
      MaskLineTwice(s);
      OneLine(MaskLine(s));
    } else {
      var line, rest := Chomp(s[..k]), s[k + 1..];
      var m := MaskLine(line);
      ChompNoFeed(s[..k]);
      MaskLineIsLine(line);
      ChompNoFeed(m);
      MaskLineIsLine(Chomp(m));
      MaskLogTwice(rest);
      LogCons(m, MaskLog(rest));
      SplitUnique(MaskLine(Chomp(m)), MaskLog(MaskLog(rest)), m, MaskLog(rest));
      MaskChomped(line);
    }
  }

  lemma OneLine(line: string)
    requires '\n' !in line
    ensures MaskLog(line) == MaskLine(line) && Lines(line) == if line == "" then [] else [line]
  {
    hide MaskLine, Find;
    assert line + "" == line;
    FindIs(line, '\n', "");
  }

  /** The log keeps its number of lines. */
  lemma {:induction false} LineCountKept(s: string)
    ensures |Lines(MaskLog(s))| == |Lines(s)|
    decreases |s|
  {
    hide MaskLine, MaskLog, Lines, Chomp, Find;
    var k := Find(s, '\n');
    LinesCases(s);
    MaskLogCases(s);
    if k == |s| {
      assert s[..k] == s;
      MaskLineIsLine(s);
      OneLine(MaskLine(s));
    } else {
      ChompNoFeed(s[..k]);
      MaskLineIsLine(Chomp(s[..k]));
      LineCountKept(s[k + 1..]);
      LogCons(MaskLine(Chomp(s[..k])), MaskLog(s[k + 1..]));
    }
  }

  /** A plain line that ends in two carriage returns and a line feed loses one of them each time. */
  lemma DoubleReturnLost(line: string)
    requires ':' !in line && '@' !in line && '\n' !in line
    ensures MaskLog(line + "\r\r" + "\n") == line + "\r" + "\n" && MaskLog(line + "\r" + "\n") == line + "\n"
  {
    hide MaskLine, MaskLog, Find, Lines;
    PlainLine(line);
    PlainLine(line + "\r");
    OneLine("");
    EmptyLine();
    LoseOne(line + "\r");
    LoseOne(line);
    assert line + "\r" + "\r" == line + "\r\r";
  }

  lemma LoseOne(line: string)
    requires '\n' !in line && MaskLine(line) == line && MaskLog("") == ""
    ensures MaskLog(line + "\r" + "\n") == line + "\n"
  {
    hide MaskLine, MaskLog, Find, Lines;
    LogCons(line + "\r", "");
    assert line + "\r" + "\n" + "" == line + "\r" + "\n" && line + "\n" + "" == line + "\n";
    assert (line + "\r")[..|line|] == line;
  }

  lemma PlainLine(line: string)
    requires ':' !in line && '@' !in line
    ensures MaskLine(line) == line
  {
    hide StartsWith, HeaderName, Find;
    HeaderNames();
    if StartsWith(line, AUTHORIZATION) {
      HeaderColon(line, AUTHORIZATION);
    } else if StartsWith(line, PROXY_AUTHORIZATION) {
      HeaderColon(line, PROXY_AUTHORIZATION);
    }
  }

  // ----- what is left alone -----

  /** The URI has a password, and it is not masked yet. */
  predicate PasswordIn(uri: string)
    requires |uri| >= 4
  {
    var body := uri[4..];
    var at := Find(body, '@');
    var colon := Find(body[..at], ':');
    at < |body| && colon < at && body[colon + 1..at] != STARS
  }

  lemma UriSameExactly(uri: string)
    requires StartsWith(uri, SIP)
    ensures |uri| >= 4 && (MaskUri(uri) == uri <==> !PasswordIn(uri))
  {
    hide StartsWith, Find;
    SchemeStarts(uri);
    var prefix, body := uri[..4], uri[4..];
    assert prefix + body == uri;
    var at := Find(body, '@');
    var colon := Find(body[..at], ':');
    if at < |body| && colon < at {
      var user, password, host := body[..colon], body[colon + 1..at], body[at..];
      assert body == user + ":" + password + host;
      var masked := prefix + user + ":" + STARS + host;
      assert MaskUri(uri) == masked;
      assert uri == prefix + user + ":" + password + host by {
        Assoc(prefix, user, ":");
        Assoc(prefix, user + ":", password);
        Assoc(prefix, user + ":" + password, host);
      }
      var n := |prefix + user + ":"|;
      assert masked[n..|masked| - |host|] == STARS && uri[n..|uri| - |host|] == password;
    }
  }

  /** Some "sip:" URI in the text has a password that is not masked yet. */
  predicate HasPassword(s: string)
    decreases |s|
  {
    FindSip(s) < |s|
    && var uri := s[FindSip(s)..];
       var end := UriEnd(uri);
       end >= 4 && (PasswordIn(uri[..end]) || HasPassword(uri[end..]))
  }

  lemma PartsPassword(s: string, pre: string, uri: string, rest: string)
    requires FindSip(s) == |pre| && s == pre + uri + rest && |uri| >= 4 && NoDelimiter(uri) && AtDelimiter(rest)
    ensures HasPassword(s) <==> PasswordIn(uri) || HasPassword(rest)
  {
    hide FindSip, PasswordIn, NoDelimiter, AtDelimiter, UriEnd;
    assert s[|pre|..] == uri + rest;
    UriEndIs(uri, rest);
    assert (uri + rest)[..|uri|] == uri && (uri + rest)[|uri|..] == rest;
  }

  /** Masking leaves a text alone if and only if no "sip:" URI in it has a password left to mask. */
  lemma {:induction false} UntouchedExactly(s: string)
    ensures MaskUris(s) == s <==> !HasPassword(s)
    decreases |s|
  {
    hide MaskUris, MaskUri, IsDelimiter, FindSip, StartsWith, PasswordIn, NoDelimiter, AtDelimiter, HasPassword;
    if FindSip(s) < |s| {
      var pre, uri, rest := Parts(s);
      UntouchedExactly(rest);
      UriSameExactly(uri);
      PartsPassword(s, pre, uri, rest);
      MaskUriTwice(uri);
      MaskUrisFirst(rest);
      UriEndIs(uri, rest);
      UriEndIs(MaskUri(uri), MaskUris(rest));
      SplitSame(pre, uri, rest, MaskUri(uri), MaskUris(rest));
    } else {
      MaskUrisCases(s);
      NoSipNoPassword(s);
    }
  }

  lemma NoSipNoPassword(s: string)
    requires FindSip(s) == |s|
    ensures !HasPassword(s)
  {
  }

  /** Two texts that end at the same place are equal in both parts. */
  lemma SplitSame(pre: string, a: string, b: string, x: string, y: string)
    requires UriEnd(a + b) == |a| && UriEnd(x + y) == |x|
    ensures pre + a + b == pre + x + y <==> a == x && b == y
  {
    hide UriEnd;
    Assoc(pre, a, b);
    Assoc(pre, x, y);
    assert (pre + (a + b))[|pre|..] == a + b && (pre + (x + y))[|pre|..] == x + y;
    assert (a + b)[..|a|] == a && (a + b)[|a|..] == b && (x + y)[..|x|] == x && (x + y)[|x|..] == y;
  }

  /** A "sips:" URI is left alone, password and all, where no "sip:" follows its scheme. */
  lemma SipsUntouched(rest: string)
    requires FindSip(rest) == |rest|
    ensures MaskUris(SIPS + rest) == SIPS + rest
  {
    hide MaskUris, FindSip, StartsWith;
    SipsSkipped(rest);
    MaskUrisCases(SIPS + rest);
  }

  lemma SipsSkipped(rest: string)
    ensures FindSip(SIPS + rest) == 5 + FindSip(rest)
  {
    hide FindSip, StartsWith, LowerChar;
    var s := SIPS + rest;
    SipsChars(s, rest);
    MissAt(s, 0, 3);
    MissAt(s, 1, 0);
    MissAt(s, 2, 0);
    MissAt(s, 3, 1);
    MissAt(s, 4, 0);
    assert s[0..] == s && s[5..] == rest;
  }

  lemma SipsChars(s: string, rest: string)
    requires s == SIPS + rest
    ensures |s| >= 5 && LowerChar(s[3]) != SIP[3] && LowerChar(s[1]) != SIP[0] && LowerChar(s[2]) != SIP[0]
    ensures LowerChar(s[4]) != SIP[1] && LowerChar(s[4]) != SIP[0]
  {
    assert s[1] == 'i' && s[2] == 'p' && s[3] == 's' && s[4] == ':';
  }

  /** "sip:" does not start at i, where the k-th character is another one. */
  lemma MissAt(s: string, i: nat, k: nat)
    requires i + k < |s| && k < 4 && LowerChar(s[i + k]) != SIP[k]
    ensures FindSip(s[i..]) == 1 + FindSip(s[i + 1..])
  {
    hide LowerChar;
    var t := s[i..];
    assert t[k] == s[i + k] && t[1..] == s[i + 1..];
    FindSipSkip(t);
  }

  lemma FindSipSkip(s: string)
    requires s != "" && !StartsWith(s, SIP)
    ensures FindSip(s) == 1 + FindSip(s[1..])
  {
  }
}
