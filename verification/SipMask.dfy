/** Masking passwords and credentials in SIP messages before they are logged, on ASCII text. */
module SipMask {
  import opened Bytes

  const SIP := "sip:"
  const SIPS := "sips:"
  const AUTHORIZATION := "authorization:"
  const PROXY_AUTHORIZATION := "proxy-authorization:"
  const STARS := "***"
  const MASKED := " ***MASKED***"

  function LowerChar(c: char): char {
    if 'A' <= c <= 'Z' then 'a' + (c as int - 'A' as int) as char else c
  }

  predicate IsWhitespace(c: char) {
    '\t' <= c <= '\r' || c == ' '
  }

  /** What ends a URI. */
  predicate IsDelimiter(c: char) {
    IsWhitespace(c) || c == '>' || c == '<' || c == '"'
  }

  /** t starts with p, which is in lower case, in any case. */
  predicate StartsWith(t: string, p: string) {
    |p| <= |t| && forall k :: 0 <= k < |p| ==> LowerChar(t[k]) == p[k]
  }

  /** Where the character first stands; the length if nowhere. */
  function Find(s: string, c: char): (n: nat)
    ensures n <= |s| && c !in s[..n] && (n < |s| ==> s[n] == c)
  {
    if s == "" || s[0] == c then 0
    else
      var n := Find(s[1..], c);
      assert s[..n + 1] == [s[0]] + s[1..][..n];
      n + 1
  }

  function FindSip(s: string): (n: nat)
    ensures n <= |s| && (n < |s| ==> StartsWith(s[n..], SIP))
  {
    if s == "" || StartsWith(s, SIP) then 0 else 1 + FindSip(s[1..])
  }

  function UriEnd(s: string): (n: nat)
    ensures n <= |s| && (n < |s| ==> IsDelimiter(s[n])) && forall k :: 0 <= k < n ==> !IsDelimiter(s[k])
  {
    if s == "" || IsDelimiter(s[0]) then 0 else 1 + UriEnd(s[1..])
  }

  function MaskBody(prefix: string, body: string): string {
    var at := Find(body, '@');
    if at == |body| then prefix + body
    else
      var colon := Find(body[..at], ':');
      if colon == at then prefix + body else prefix + body[..colon] + ":" + STARS + body[at..]
  }

  function MaskUri(uri: string): string {
    if StartsWith(uri, SIP) then MaskBody(uri[..4], uri[4..])
    else if StartsWith(uri, SIPS) then MaskBody(uri[..5], uri[5..])
    else uri
  }

  lemma UriNotEmpty(s: string)
    requires StartsWith(s, SIP)
    ensures UriEnd(s) >= 4
  {
    assert LowerChar(s[0]) == SIP[0] && LowerChar(s[1]) == SIP[1];
    assert LowerChar(s[2]) == SIP[2] && LowerChar(s[3]) == SIP[3];
  }

  function MaskUris(s: string): string
    decreases |s|
  {
    var start := FindSip(s);
    if start == |s| then s
    else
      var uri := s[start..];
      UriNotEmpty(uri);
      s[..start] + MaskUri(uri[..UriEnd(uri)]) + MaskUris(uri[UriEnd(uri)..])
  }

  lemma MaskUrisCases(s: string)
    ensures var start := FindSip(s);
            if start == |s| then MaskUris(s) == s
            else
              var uri, end := s[start..], UriEnd(s[start..]);
              end >= 4 && MaskUris(s) == s[..start] + MaskUri(uri[..end]) + MaskUris(uri[end..])
  {
    hide MaskUri, StartsWith, UriEnd, FindSip;
    if FindSip(s) < |s| {
      UriNotEmpty(s[FindSip(s)..]);
    }
  }

  method MaskSipUriPasswords(s: string) returns (result: string)
    ensures result == MaskUris(s)
  {
    hide MaskUris, MaskUri, FindSip, UriEnd, StartsWith;
    result := "";
    var remaining := s;
    var start := FindSip(remaining);
    assert "" + MaskUris(s) == MaskUris(s);
    while start < |remaining|
      invariant start == FindSip(remaining)
      invariant result + MaskUris(remaining) == MaskUris(s)
      decreases |remaining|
    {
      MaskUrisCases(remaining);
      var uriStart := remaining[start..];
      var uriEnd := UriEnd(uriStart);
      var uri := uriStart[..uriEnd];
      ghost var before, was := result, remaining;
      result := result + remaining[..start];
      result := result + MaskUri(uri);
      remaining := uriStart[uriEnd..];
      Assoc(before, was[..start], MaskUri(uri));
      Assoc(before, was[..start] + MaskUri(uri), MaskUris(remaining));
      start := FindSip(remaining);
    }
    MaskUrisCases(remaining);
    result := result + remaining;
  }

  // ----- lines -----

  predicate IsCredentials(line: string) {
    StartsWith(line, AUTHORIZATION) || StartsWith(line, PROXY_AUTHORIZATION)
  }

  function MaskLine(line: string): string {
    if IsCredentials(line) then
      var colon := Find(line, ':');
      if colon < |line| then line[..colon + 1] + MASKED else line
    else if FindSip(line) < |line| && '@' in line && ':' in line then MaskUris(line)
    else line
  }

  /** Without a carriage return at the end. */
  function Chomp(line: string): string {
    if line != "" && line[|line| - 1] == '\r' then line[..|line| - 1] else line
  }

  /** str::lines: a line feed or the pair ends a line; the last line may have none. */
  function Lines(s: string): seq<string>
    decreases |s|
  {
    var k := Find(s, '\n');
    if s == "" then [] else if k == |s| then [s] else [Chomp(s[..k])] + Lines(s[k + 1..])
  }

  function MaskLog(s: string): string
    decreases |s|
  {
    var k := Find(s, '\n');
    if k == |s| then MaskLine(s) else MaskLine(Chomp(s[..k])) + "\n" + MaskLog(s[k + 1..])
  }

  function MaskLines(lines: seq<string>): string {
    if lines == [] then "" else MaskLines(lines[..|lines| - 1]) + MaskLine(lines[|lines| - 1]) + "\n"
  }

  predicate EndsWith(s: string, c: char) {
    s != "" && s[|s| - 1] == c
  }

  method MaskSipLog(input: string) returns (out: string)
    ensures out == MaskLog(input)
  {
    hide Lines, MaskUris, StartsWith, FindSip;
    out := "";
    var lines := Lines(input);
    assert lines[..0] == [];
    for i := 0 to |lines|
      invariant out == MaskLines(lines[..i])
    {
      assert lines[..i + 1][..i] == lines[..i];
      var masked;
      if IsCredentials(lines[i]) {
        var colon := Find(lines[i], ':');
        masked := if colon < |lines[i]| then lines[i][..colon + 1] + MASKED else lines[i];
      } else if FindSip(lines[i]) < |lines[i]| && '@' in lines[i] && ':' in lines[i] {
        masked := MaskSipUriPasswords(lines[i]);
      } else {
        masked := lines[i];
      }
      assert masked == MaskLine(lines[i]);
      out := out + masked;
      out := out + "\n";
    }
    hide MaskLine, MaskLines;
    assert lines[..|lines|] == lines;
    LinesMasked(input);
    LogEnd(input);
    if !EndsWith(input, '\n') && EndsWith(out, '\n') {
      out := out[..|out| - 1];
    }
  }

  lemma {:induction false} MaskLinesCons(first: string, rest: seq<string>)
    ensures MaskLines([first] + rest) == MaskLine(first) + "\n" + MaskLines(rest)
  {
    hide MaskLine;
    if rest == [] {
      assert [first][..0] == [];
    } else {
      var init, last := rest[..|rest| - 1], rest[|rest| - 1];
      assert ([first] + rest)[..|rest|] == [first] + init;
      MaskLinesCons(first, init);
      Assoc(MaskLine(first) + "\n", MaskLines(init), MaskLine(last));
      Assoc(MaskLine(first) + "\n", MaskLines(init) + MaskLine(last), "\n");
    }
  }

  lemma LinesCases(s: string)
    ensures s == "" ==> Lines(s) == []
    ensures s != "" && Find(s, '\n') == |s| ==> Lines(s) == [s]
    ensures var k := Find(s, '\n');
            k < |s| ==> Lines(s) == [Chomp(s[..k])] + Lines(s[k + 1..])
  {
    hide Chomp, Find;
  }

  lemma MaskLogCases(s: string)
    ensures Find(s, '\n') == |s| ==> MaskLog(s) == MaskLine(s)
    ensures var k := Find(s, '\n');
            k < |s| ==> MaskLog(s) == MaskLine(Chomp(s[..k])) + "\n" + MaskLog(s[k + 1..])
  {
    hide Chomp, Find, MaskLine;
  }

  lemma FeedAtEnd(s: string)
    ensures var k := Find(s, '\n');
            && (k == |s| ==> !EndsWith(s, '\n'))
            && (k < |s| ==> (EndsWith(s, '\n') <==> s[k + 1..] == "" || EndsWith(s[k + 1..], '\n')))
  {
    var k := Find(s, '\n');
    if k < |s| && s[k + 1..] != "" {
      assert s[k + 1..][|s| - k - 2] == s[|s| - 1];
    }
  }

  /** The line feed that the loop adds behind the last line. */
  function Added(s: string): string {
    if s == "" || EndsWith(s, '\n') then "" else "\n"
  }

  /** The loop over the lines, with the line feed that it adds at the end. */
  lemma {:induction false} LinesMasked(s: string)
    ensures MaskLines(Lines(s)) == MaskLog(s) + Added(s)
    decreases |s|
  {
    hide MaskLine, MaskLines, MaskLog, Lines, Chomp, Find, EndsWith;
    var k := Find(s, '\n');
    LinesCases(s);
    MaskLogCases(s);
    FeedAtEnd(s);
    if s == "" {
      MaskNoLines();
      EmptyLine();
    } else if k == |s| {
      MaskLinesCons(s, []);
      MaskNoLines();
      assert [s] + [] == [s];
    } else {
      var first, rest := Chomp(s[..k]), s[k + 1..];
      LinesMasked(rest);
      MaskLinesCons(first, Lines(rest));
      Assoc(MaskLine(first) + "\n", MaskLog(rest), Added(rest));
    }
  }

  lemma MaskNoLines()
    ensures MaskLines([]) == ""
  {
  }

  lemma LogEnd(s: string)
    ensures s == "" ==> MaskLog(s) == ""
  {
    EmptyLine();
  }

  lemma EmptyLine()
    ensures MaskLine("") == ""
  {
  }
}
