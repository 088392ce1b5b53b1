/** Credentials and passwords in the masked text, in the characters of the text itself. */
module SipMaskText {
  import opened Bytes
  import opened SipMask
  import opened SipMaskLaws

  /** The character is the given lower-case one, or its capital. */
  predicate Same(c: char, lower: char) {
    c == lower || ('a' <= lower <= 'z' && c as int == lower as int - 32)
  }

  predicate InAnyCase(s: string, lower: string) {
    |s| == |lower| && forall k :: 0 <= k < |s| ==> Same(s[k], lower[k])
  }

  predicate NamesCredentials(name: string) {
    InAnyCase(name, "authorization:") || InAnyCase(name, "proxy-authorization:")
  }

  lemma SameIs(c: char, lower: char)
    requires lower in "authorization:proxy-s"
    ensures Same(c, lower) <==> LowerChar(c) == lower
  {
  }

  lemma InAnyCaseIs(name: string, rest: string, p: string)
    requires |name| == |p| && forall k :: 0 <= k < |p| ==> p[k] in "authorization:proxy-s"
    ensures InAnyCase(name, p) <==> StartsWith(name + rest, p)
  {
    hide LowerChar, Same;
    var line := name + rest;
    forall k | 0 <= k < |p| ensures Same(name[k], p[k]) <==> LowerChar(line[k]) == p[k] {
      SameIs(name[k], p[k]);
      assert line[k] == name[k];
    }
  }

  /** A header with credentials is masked behind its name. */
  lemma HeaderLine(name: string, value: string)
    requires NamesCredentials(name)
    ensures MaskLine(name + value) == name + " ***MASKED***"
  {
    hide MaskLine, StartsWith, InAnyCase;
    var p := if InAnyCase(name, "authorization:") then "authorization:" else "proxy-authorization:";
    SameLength(name, p);
    InAnyCaseIs(name, value, p);
    CredentialsTwice(name + value, p);
    assert (name + value)[..|p|] == name;
  }

  lemma SameLength(name: string, p: string)
    requires InAnyCase(name, p)
    ensures |name| == |p|
  {
  }

  // ----- in a log -----

  /** The text ends where a line does. */
  predicate AtLineStart(before: string) {
    before == "" || before[|before| - 1] == '\n'
  }

  /** A log that is cut where a line ends is masked in two parts. */
  lemma {:induction false} LogJoin(before: string, behind: string)
    requires AtLineStart(before)
    ensures MaskLog(before + behind) == MaskLog(before) + MaskLog(behind)
    decreases |before|
  {
    hide MaskLog, MaskLine, Chomp, Find, Lines;
    if before == "" {
      EmptyLog();
      assert before + behind == behind && "" + MaskLog(behind) == MaskLog(behind);
    } else {
      var line, rest := FirstLine(before);
      assert before + behind == line + "\n" + (rest + behind);
      LogCons(line, rest);
      LogCons(line, rest + behind);
      LogJoin(rest, behind);
      Assoc(MaskLine(Chomp(line)) + "\n", MaskLog(rest), MaskLog(behind));
    }
  }

  lemma EmptyLog()
    ensures MaskLog("") == ""
  {
    EmptyLine();
  }

  lemma FirstLine(s: string) returns (line: string, rest: string)
    requires s != "" && AtLineStart(s)
    ensures s == line + "\n" + rest && '\n' !in line && AtLineStart(rest)
  {
    hide Find;
    var k := Find(s, '\n');
    assert s[..|s|] == s && s[|s| - 1] in s;
    line, rest := s[..k], s[k + 1..];
    assert s == line + "\n" + rest;
  }

  lemma NameEnds(name: string, p: string)
    requires InAnyCase(name, p) && p != "" && p[|p| - 1] == ':' && '\n' !in p
    ensures name != "" && name[|name| - 1] == ':' && '\n' !in name
  {
    assert Same(name[|name| - 1], ':');
    forall k | 0 <= k < |name| ensures name[k] != '\n' {
      assert Same(name[k], p[k]) && p[k] in p;
    }
  }

  lemma ChompBehind(name: string, value: string)
    requires name != "" && name[|name| - 1] == ':'
    ensures Chomp(name + value) == name + Chomp(value)
  {
    var line := name + value;
    if value == "" {
      assert line == name;
    } else if value[|value| - 1] == '\r' {
      assert line[..|line| - 1] == name + value[..|value| - 1];
    }
  }

  /** Wherever a line of the log starts with "authorization:" or "proxy-authorization:", in any case, the masked log has
      that name followed by " ***MASKED***" and nothing of what stood behind it. */
  lemma CredentialsMasked(before: string, name: string, value: string, behind: string)
    requires AtLineStart(before) && '\n' !in value
    requires InAnyCase(name, "authorization:") || InAnyCase(name, "proxy-authorization:")
    ensures MaskLog(before + (name + value + "\n" + behind))
         == MaskLog(before) + (name + " ***MASKED***" + "\n" + MaskLog(behind))
    ensures MaskLog(before + (name + value)) == MaskLog(before) + (name + " ***MASKED***")
  {
    hide MaskLog, MaskLine, Chomp, Lines, InAnyCase;
    NameEnds(name, if InAnyCase(name, "authorization:") then "authorization:" else "proxy-authorization:");
    LogJoin(before, name + value + "\n" + behind);
    LogCons(name + value, behind);
    ChompBehind(name, value);
    HeaderLine(name, Chomp(value));
    LogJoin(before, name + value);
    OneLine(name + value);
    HeaderLine(name, value);
  }

  /** Two logs that differ only in credentials have one masked log. */
  lemma CredentialsDropped(before: string, name: string, value: string, other: string, behind: string)
    requires AtLineStart(before) && '\n' !in value && '\n' !in other
    requires InAnyCase(name, "authorization:") || InAnyCase(name, "proxy-authorization:")
    ensures MaskLog(before + (name + value + "\n" + behind)) == MaskLog(before + (name + other + "\n" + behind))
  {
    hide MaskLog, InAnyCase;
    CredentialsMasked(before, name, value, behind);
    CredentialsMasked(before, name, other, behind);
  }

  // ----- in a text -----

  /** White space, angle brackets and quotation marks end a URI. */
  predicate Stops(c: char) {
    c in [9 as char, 10 as char, 11 as char, 12 as char, 13 as char, ' ', '<', '>', '"']
  }

  predicate Unstopped(s: string) {
    forall c :: c in s ==> !Stops(c)
  }

  predicate SipAt(s: string, i: nat) {
    i + 4 <= |s| && InAnyCase(s[i..i + 4], "sip:")
  }

  /** No "sip:" in any case starts in the text before the scheme. */
  predicate NoneBefore(before: string, scheme: string) {
    forall i :: 0 <= i < |before| ==> !SipAt(before + scheme, i)
  }

  lemma StopsIs(c: char)
    ensures Stops(c) <==> IsDelimiter(c)
  {
  }

  lemma UnstoppedIs(s: string)
    ensures Unstopped(s) <==> NoDelimiter(s)
  {
    hide Stops, IsDelimiter;
    forall k | 0 <= k < |s| ensures Stops(s[k]) <==> IsDelimiter(s[k]) {
      StopsIs(s[k]);
    }
  }

  lemma SipIs(s: string)
    ensures StartsWith(s, SIP) <==> |s| >= 4 && InAnyCase(s[..4], "sip:")
  {
    if |s| >= 4 {
      assert s[..4] + s[4..] == s;
      InAnyCaseIs(s[..4], s[4..], "sip:");
    }
  }

  lemma {:induction false} FirstFound(s: string, n: nat)
    requires n < |s| && StartsWith(s[n..], SIP) && forall i :: 0 <= i < n ==> !StartsWith(s[i..], SIP)
    ensures FindSip(s) == n
  {
    hide StartsWith;
    assert s[0..] == s;
    if n > 0 {
      forall i | 0 <= i < n - 1 ensures !StartsWith(s[1..][i..], SIP) {
        assert s[1..][i..] == s[i + 1..];
      }
      assert s[1..][n - 1..] == s[n..];
      FirstFound(s[1..], n - 1);
    }
  }

  lemma FirstScheme(before: string, scheme: string, behind: string)
    requires |scheme| == 4 && InAnyCase(scheme, "sip:") && NoneBefore(before, scheme)
    ensures FindSip(before + scheme + behind) == |before|
  {
    hide StartsWith, InAnyCase, FindSip;
    var s := before + scheme + behind;
    SipIs(s[|before|..]);
    assert s[|before|..][..4] == scheme;
    forall i | 0 <= i < |before| ensures !StartsWith(s[i..], SIP) {
      SipIs(s[i..]);
      assert !SipAt(before + scheme, i) && s[i..][..4] == (before + scheme)[i..i + 4];
    }
    FirstFound(s, |before|);
  }

  /** In a text the password of the first "sip:" URI, in any case, gives way to three stars, and what follows the URI is
      masked in turn. */
  lemma PasswordStarred(before: string, scheme: string, user: string, password: string, host: string, behind: string)
    requires |scheme| == 4 && InAnyCase(scheme, "sip:") && NoneBefore(before, scheme)
    requires Unstopped(user) && Unstopped(password) && Unstopped(host) && (behind == "" || Stops(behind[0]))
    requires ':' !in user && '@' !in user && '@' !in password
    ensures MaskUris(before + (scheme + user + ":" + password + "@" + host) + behind)
         == before + (scheme + user + ":***@" + host) + MaskUris(behind)
  {
    hide StartsWith, InAnyCase, FindSip, Stops, Unstopped, IsDelimiter, MaskUris, NoDelimiter, NoneBefore;
    var rest := user + ":" + password + "@" + host;
    UnstoppedIs(scheme);
    UnstoppedIs(user);
    UnstoppedIs(password);
    UnstoppedIs(host);
    SchemeUnstopped(scheme);
    if behind != "" {
      StopsIs(behind[0]);
    }
    SipIs(scheme);
    assert scheme[..4] == scheme;
    FirstScheme(before, scheme, rest + behind);
    Assoc5(scheme, user, password, host);
    assert before + scheme + (rest + behind) == before + (scheme + user + ":" + password + "@" + host) + behind;
    PasswordsMasked(before, scheme, user, password, host, behind);
    assert scheme + user + ":" + "***" + "@" + host == scheme + user + ":***@" + host;
  }

  lemma SchemeUnstopped(scheme: string)
    requires |scheme| == 4 && InAnyCase(scheme, "sip:")
    ensures Unstopped(scheme)
  {
    assert Same(scheme[0], 's') && Same(scheme[1], 'i') && Same(scheme[2], 'p') && Same(scheme[3], ':');
  }

  /** In a URI of its own, "sip:" or "sips:", three stars stand in place of the password. */
  lemma UriStarred(scheme: string, user: string, password: string, host: string)
    requires InAnyCase(scheme, "sip:") || InAnyCase(scheme, "sips:")
    requires ':' !in user && '@' !in user && '@' !in password
    ensures MaskUri(scheme + user + ":" + password + "@" + host) == scheme + user + ":***@" + host
  {
    hide InAnyCase, StartsWith;
    var info := user + ":" + password;
    var body := info + ("@" + host);
    var uri := scheme + body;
    var p := if InAnyCase(scheme, "sip:") then "sip:" else "sips:";
    SameLength(scheme, p);
    InAnyCaseIs(scheme, body, p);
    SchemesDiffer(scheme, uri, p);
    assert uri == scheme + user + ":" + password + "@" + host;
    assert uri[..|p|] == scheme && uri[|p|..] == body;
    FindIs(info, '@', "@" + host);
    assert body[..|info|] == info && info == user + (":" + password);
    FindIs(user, ':', ":" + password);
    assert body[..|user|] == user && body[|info|..] == "@" + host;
    assert scheme + user + ":" + "***" + ("@" + host) == scheme + user + ":***@" + host;
  }

  lemma SchemesDiffer(scheme: string, uri: string, p: string)
    requires scheme <= uri && InAnyCase(scheme, p) && p in ["sip:", "sips:"] && StartsWith(uri, p)
    ensures StartsWith(uri, "sip:") <==> p == "sip:"
  {
    if p == "sips:" {
      assert Same(scheme[3], 's');
      assert uri[3] == scheme[3];
      assert LowerChar(uri[3]) == 's';
    }
  }
}
