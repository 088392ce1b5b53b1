/** A telnet session from its first byte: a desk with the keys read from the bytes, the lines that were entered, and
    nothing kept but those. What the session keeps is what follows from them. */
module TelnetEntered {
  import opened Bytes
  import opened TelnetLine
  import opened TelnetHistory
  import opened TelnetNegotiation
  import opened TelnetSession

  // ----- the commands among the lines -----

  function Trimmed(t: Text): Text {
    if t == [] then t
    else if t[0] in [9, 10, 11, 12, 13, 32] then Trimmed(t[1..])
    else if t[|t| - 1] in [9, 10, 11, 12, 13, 32] then Trimmed(t[..|t| - 1])
    else t
  }

  /** The lines that are not blank, trimmed. */
  function Used(lines: seq<Text>): seq<Text>
    decreases |lines|
  {
    if lines == [] then []
    else Used(lines[..|lines| - 1]) + if Trimmed(lines[|lines| - 1]) == [] then [] else [Trimmed(lines[|lines| - 1])]
  }

  function Except(used: seq<Text>, c: Text): seq<Text> {
    if used == [] then [] else (if used[0] == c then [] else [used[0]]) + Except(used[1..], c)
  }

  /** Each command once, the latest first. */
  function Latest(used: seq<Text>): seq<Text>
    decreases |used|
  {
    if used == [] then [] else [used[|used| - 1]] + Except(Latest(used[..|used| - 1]), used[|used| - 1])
  }

  function FirstOf(s: seq<Text>, n: nat): seq<Text> {
    if |s| <= n then s else s[..n]
  }

  /** The sixteen commands used last. */
  function Recent(lines: seq<Text>): seq<Text> {
    FirstOf(Latest(Used(lines)), 16)
  }

  lemma {:induction false} TrimmedIs(t: Text)
    ensures Trimmed(t) == Trim(t)
    decreases |t|
  {
    if t != [] && IsSpace(t[0]) {
      TrimmedIs(t[1..]);
    } else {
      RightTrimmed(t);
    }
  }

  lemma {:induction false} RightTrimmed(t: Text)
    requires t == [] || !IsSpace(t[0])
    ensures Trimmed(t) == TrimRight(t)
    decreases |t|
  {
    if t != [] && IsSpace(t[|t| - 1]) {
      RightTrimmed(t[..|t| - 1]);
    }
  }

  lemma ExceptCons(x: Text, rest: seq<Text>, c: Text)
    ensures Except([x] + rest, c) == if x == c then Except(rest, c) else [x] + Except(rest, c)
  {
    assert ([x] + rest)[1..] == rest;
  }

  lemma {:induction false} ExceptIs(s: seq<Text>, c: Text)
    ensures forall x :: x in Except(s, c) <==> x in s && x != c
    ensures c !in s ==> Except(s, c) == s
  {
    hide Except;
    if s == [] {
      ExceptNothing(c);
    } else {
      assert s == [s[0]] + s[1..];
      ExceptCons(s[0], s[1..], c);
      ExceptIs(s[1..], c);
    }
  }

  lemma ExceptNothing(c: Text)
    ensures Except([], c) == []
  {
  }

  lemma {:induction false} ExceptDistinct(s: seq<Text>, c: Text)
    requires Distinct(s)
    ensures Distinct(Except(s, c))
  {
    hide Except;
    if s == [] {
      ExceptNothing(c);
    } else {
      assert s == [s[0]] + s[1..];
      ExceptCons(s[0], s[1..], c);
      ExceptIs(s[1..], c);
      ExceptDistinct(s[1..], c);
      assert s[0] != c ==> Except(s, c)[1..] == Except(s[1..], c);
    }
  }

  ghost predicate Distinct(s: seq<Text>) {
    s != [] ==> s[0] !in s[1..] && Distinct(s[1..])
  }

  lemma {:induction false} LatestDistinct(used: seq<Text>)
    ensures Distinct(Latest(used))
    decreases |used|
  {
    if used != [] {
      var init, last := used[..|used| - 1], used[|used| - 1];
      LatestDistinct(init);
      ExceptIs(Latest(init), last);
      ExceptDistinct(Latest(init), last);
      assert Latest(used)[1..] == Except(Latest(init), last);
    }
  }

  lemma FirstCons(x: Text, rest: seq<Text>, n: nat)
    requires n > 0
    ensures FirstOf([x] + rest, n) == [x] + FirstOf(rest, n - 1)
  {
  }

  lemma FirstNone(s: seq<Text>)
    ensures FirstOf(s, 0) == []
  {
  }

  lemma FirstFits(s: seq<Text>, n: nat)
    ensures |FirstOf(s, n)| <= n && forall x :: x in FirstOf(s, n) ==> x in s
  {
  }

  lemma WithoutCons(x: Text, rest: seq<Text>, c: Text)
    ensures Without([x] + rest, c) == if x == c then rest else [x] + Without(rest, c)
  {
    assert ([x] + rest)[1..] == rest;
  }

  /** The first of the commands, without one that is among them, or without the last where there are n. */
  function Fewer(first: seq<Text>, c: Text, n: nat): seq<Text>
    requires n > 0 && |first| <= n
  {
    if c in first then Without(first, c) else if |first| < n then first else first[..n - 1]
  }

  lemma FewerCons(x: Text, rest: seq<Text>, c: Text, n: nat)
    requires n > 1 && |rest| < n && x != c
    ensures Fewer([x] + rest, c, n) == [x] + Fewer(rest, c, n - 1)
  {
    hide Without;
    WithoutCons(x, rest, c);
  }

  /** Taking a command out of distinct ones takes it out of the first n, or makes room for one less. */
  lemma {:induction false} FirstWithout(s: seq<Text>, c: Text, n: nat)
    requires Distinct(s) && n > 0
    ensures |FirstOf(s, n)| <= n && FirstOf(Except(s, c), n - 1) == Fewer(FirstOf(s, n), c, n)
    decreases |s|
  {
    hide Except, Without, FirstOf;
    FirstFits(s, n);
    if s == [] {
      ExceptNothing(c);
      NothingFirst(n);
      NothingFirst(n - 1);
    } else {
      var x, rest := s[0], s[1..];
      assert s == [x] + rest;
      FirstCons(x, rest, n);
      FirstFits(rest, n - 1);
      ExceptCons(x, rest, c);
      ExceptIs(rest, c);
      if x == c {
        WithoutCons(x, FirstOf(rest, n - 1), c);
      } else if n == 1 {
        FirstNone(Except(s, c));
        FirstNone(rest);
      } else {
        FirstWithout(rest, c, n - 1);
        FewerCons(x, FirstOf(rest, n - 1), c, n);
        FirstCons(x, Except(rest, c), n - 1);
      }
    }
  }

  lemma NothingFirst(n: nat)
    ensures FirstOf([], n) == []
  {
  }

  lemma EnterRecent(lines: seq<Text>, shown: Option<nat>, line: Text)
    ensures var h := TelnetHistory.Insert(History(Recent(lines), shown), line);
            h == History(Recent(lines + [line]), if Trimmed(line) == [] then shown else None)
  {
    hide Trim, Trimmed, Except, Without, FirstOf, Latest;
    TrimmedIs(line);
    assert (lines + [line])[..|lines|] == lines;
    var cmd, latest := Trim(line), Latest(Used(lines));
    if cmd == [] {
      assert Used(lines) + [] == Used(lines);
    } else {
      LatestDistinct(Used(lines));
      FirstWithout(latest, cmd, 16);
      LatestSnoc(Used(lines), cmd);
      FirstCons(cmd, Except(latest, cmd), 16);
      assert Used(lines + [line]) == Used(lines) + [cmd];
    }
  }

  lemma LatestSnoc(used: seq<Text>, c: Text)
    ensures Latest(used + [c]) == [c] + Except(Latest(used), c)
  {
    assert (used + [c])[..|used|] == used;
  }

  // ----- the desk -----

  /** What the bytes have come to: those of a key or command that is not complete, the text before and after the cursor,
      the lines that were entered, the recent command that is shown, and whether the session has ended. */
  datatype Desk = Desk(pending: seq<byte>, left: Text, right: Text, entered: seq<Text>, shown: Option<nat>, ended: bool)
  {
    predicate Valid() {
      shown.Some? ==> shown.value < |Recent(entered)|
    }
  }

  const CLEAR := Desk([], [], [], [], None, false)

  /** The text up to its first NUL. */
  function BeforeNul(t: Text): (s: Text)
    ensures s <= t && 0 !in s && (|s| < |t| ==> t[|s|] == 0)
  {
    if t == [] || t[0] == 0 then [] else
      var s := BeforeNul(t[1..]);
      assert t == [t[0]] + t[1..];
      [t[0]] + s
  }

  /** A byte goes in at the cursor while the text has less than 511; tab, question mark and return go to its end. Tab
      and question mark complete the text. */
  function Typed(env: Env, d: Desk, c: byte): Desk {
    if |d.left| + |d.right| >= 511 then d
    else
      var text := if c in [9, 13, 63] then d.left + d.right + [c] else d.left + [c] + d.right;
      if c in [9, 63] then d.(left := env.complete(BeforeNul(text)), right := [])
      else d.(pending := if c == 13 then [13] else [], left := text[..|d.left| + 1], right := text[|d.left| + 1..])
  }

  /** The line is entered: it is the latest one, and then it is empty or the session is over. */
  function Entered(env: Env, d: Desk): Desk {
    var text := BeforeNul(d.left + d.right);
    var done := d.(entered := d.entered + [text], shown := if Trimmed(text) == [] then d.shown else None);
    if env.exits(text) then done.(ended := true) else done.(left := [], right := [])
  }

  /** The recent command that is shown next, going round in either direction. */
  function Shown(d: Desk, up: bool): Desk
    requires d.Valid()
  {
    var recent := Recent(d.entered);
    if recent == [] then d
    else
      var last := |recent| - 1;
      var i := if up then if d.shown.None? || d.shown.value == last then 0 else d.shown.value + 1
               else if d.shown.None? || d.shown.value == 0 then last else d.shown.value - 1;
      d.(left := recent[i], right := [], shown := Some(i))
  }

  function Moved(d: Desk, key: byte): Desk
    requires d.Valid()
  {
    match key
    case 65 => Shown(d, true)
    case 66 => Shown(d, false)
    case 67 => if d.right == [] then d else d.(left := d.left + d.right[..1], right := d.right[1..])
    case 68 =>
      if d.left == [] then d
      else d.(left := d.left[..|d.left| - 1], right := d.left[|d.left| - 1..] + d.right)
    case _ => d
  }

  /** One more byte. */
  function Next(env: Env, d: Desk, c: byte): Desk
    requires d.Valid()
  {
    var whole := d.(pending := []);
    if d.ended then d
    else if d.pending == [] then
      if c == 255 || c == 27 then d.(pending := [c])
      else if c == 127 then (if d.left == [] then d else d.(left := d.left[..|d.left| - 1]))
      else Typed(env, d, c)
    else if d.pending == [13] then if c == 0 || c == 10 then Entered(env, whole) else whole
    else if d.pending == [27] then if c == 91 then d.(pending := [27, 91]) else whole
    else if d.pending == [27, 91] then Moved(whole, c)
    else if d.pending == [255] then if 251 <= c <= 254 then d.(pending := [255, c]) else whole
    else whole
  }

  // ----- the session is the desk -----

  function Pending(p: ParseState): seq<byte> {
    match p
    case Normal => []
    case SawCR => [13]
    case SawEsc => [27]
    case Vt100 => [27, 91]
    case SawIAC => [255]
    case SawVerb(Will) => [255, 251]
    case SawVerb(Wont) => [255, 252]
    case SawVerb(Do) => [255, 253]
    case SawVerb(Dont) => [255, 254]
  }

  /** The session keeps what the desk shows, and the recent commands. */
  ghost predicate Keeps(k: Keyboard, d: Desk) {
    && d.Valid() && k.line == Line(d.left, d.right) && k.ended == d.ended
    && k.history == History(Recent(d.entered), d.shown) && Pending(k.parse) == d.pending
  }

  lemma {:induction false} BeforeNulIs(t: Text)
    ensures BeforeNul(t) == CString(t)
  {
    if t != [] && t[0] != 0 {
      BeforeNulIs(t[1..]);
    }
  }

  lemma TypedKeeps(env: Env, k: Keyboard, d: Desk, c: byte)
    requires Keeps(k, d) && d.pending == [] && !d.ended && c !in [255, 27, 127]
    ensures Keeps(NormalKey(env, k, c), Typed(env, d, c))
  {
    hide Recent, CString, BeforeNul;
    var l := k.line;
    if !Full(l) {
      var typed := TelnetLine.Insert(l, c);
      BeforeNulIs(typed.Text());
      if GoesToEnd(c) {
        EndInsertAppends(l, c);
      } else {
        assert typed.Text() == d.left + [c] + d.right;
      }
      var text := typed.Text();
      assert text[..|d.left| + 1] == typed.left && text[|d.left| + 1..] == typed.right;
    }
  }

  lemma EnteredKeeps(env: Env, k: Keyboard, d: Desk)
    requires Keeps(k, d)
    ensures Keeps(Return(env, k), Entered(env, d))
  {
    hide Recent, CString, BeforeNul, TelnetHistory.Insert, Trimmed;
    BeforeNulIs(k.line.Text());
    EnterRecent(d.entered, d.shown, CString(k.line.Text()));
    if Trimmed(CString(k.line.Text())) == [] {
      BlankKeeps(d.entered, CString(k.line.Text()));
    }
  }

  lemma BlankKeeps(lines: seq<Text>, line: Text)
    requires Trimmed(line) == []
    ensures Recent(lines + [line]) == Recent(lines)
  {
    assert (lines + [line])[..|lines|] == lines;
    assert Used(lines) + [] == Used(lines);
  }

  lemma ShownKeeps(k: Keyboard, d: Desk, up: bool)
    requires Keeps(k, d)
    ensures Keeps(Recall(k, if up then Up(k.history) else Down(k.history)), Shown(d, up))
  {
    hide Recent;
  }

  lemma MovedKeeps(k: Keyboard, d: Desk, c: byte)
    requires Keeps(k, d)
    ensures Keeps(Vt100Key(k, c), Moved(d, c))
  {
    hide Recent, Shown, Recall;
    if c == 65 {
      ShownKeeps(k, d, true);
    } else if c == 66 {
      ShownKeeps(k, d, false);
    }
    if d.right != [] {
      assert d.right[..1] == [d.right[0]];
    }
    if d.left != [] {
      assert d.left[|d.left| - 1..] == [d.left[|d.left| - 1]];
    }
  }

  lemma ByteKeeps(env: Env, s: Session, d: Desk, c: byte)
    requires s.table.Valid() && Keeps(s.keys, d)
    ensures Keeps(Feed(env, s, c).keys, Next(env, d, c))
  {
    hide Recent, NormalKey, Typed, Return, Entered, Vt100Key, Moved, Receive;
    var idle, whole := s.keys.(parse := Normal), d.(pending := []);
    if !d.ended {
      match s.keys.parse {
        case Normal =>
          if c !in [255, 27, 127] {
            TypedKeeps(env, s.keys, d, c);
          } else if c != 255 {
            ControlKey(env, s.keys, d, c);
          }
        case SawCR => EnteredKeeps(env, idle, whole);
        case Vt100 => MovedKeeps(idle, whole, c);
        case _ =>
      }
    }
  }

  lemma ControlKey(env: Env, k: Keyboard, d: Desk, c: byte)
    requires Keeps(k, d) && d.pending == [] && c in [27, 127]
    ensures Keeps(NormalKey(env, k, c),
                  if c == 27 then d.(pending := [27])
                  else if d.left == [] then d else d.(left := d.left[..|d.left| - 1]))
  {
    hide Recent;
  }

  function AllBytes(env: Env, bytes: seq<byte>): (d: Desk)
    ensures d.Valid()
    decreases |bytes|
  {
    if bytes == [] then CLEAR
    else
      var before := AllBytes(env, bytes[..|bytes| - 1]);
      NextValid(env, before, bytes[|bytes| - 1]);
      Next(env, before, bytes[|bytes| - 1])
  }

  lemma NextValid(env: Env, d: Desk, c: byte)
    requires d.Valid()
    ensures Next(env, d, c).Valid()
  {
    hide Recent, BeforeNul, Trimmed;
    if d.pending == [13] && Trimmed(BeforeNul(d.left + d.right)) == [] {
      BlankKeeps(d.entered, BeforeNul(d.left + d.right));
    }
  }

  /** A session before its first byte. */
  predicate Fresh(s: Session) {
    s.table.Valid() && s.keys == Keyboard(Normal, Line([], []), History([], None), false)
  }

  /** Whatever bytes come: the line, its cursor, the key under way and the end of the session are the desk's, and the
      history is the sixteen commands used last among the lines that were entered. */
  lemma {:induction false} EveryByteKeeps(env: Env, s: Session, bytes: seq<byte>)
    requires Fresh(s)
    ensures Keeps(FeedAll(env, s, bytes).keys, AllBytes(env, bytes))
    decreases |bytes|
  {
    hide Recent, Feed, Next;
    if bytes == [] {
      NothingRecent();
    } else {
      var before := bytes[..|bytes| - 1];
      EveryByteKeeps(env, s, before);
      ByteKeeps(env, FeedAll(env, s, before), AllBytes(env, before), bytes[|bytes| - 1]);
    }
  }

  lemma NothingRecent()
    ensures Recent([]) == []
  {
  }

  /** A return that is completed: the line is the latest one entered and the history starts with its command; the
      session has ended, or the line is empty, as running the command says. */
  lemma ReturnEnters(env: Env, s: Session, bytes: seq<byte>, c: byte)
    requires Fresh(s) && (c == 0 || c == 10)
    requires var k := FeedAll(env, s, bytes).keys; k.parse == SawCR && !k.ended
    ensures var line := BeforeNul(FeedAll(env, s, bytes).keys.line.Text());
            var after := FeedAll(env, s, bytes + [c]).keys;
            && AllBytes(env, bytes + [c]).entered == AllBytes(env, bytes).entered + [line]
            && after.history.entries == Recent(AllBytes(env, bytes).entered + [line])
            && (Trimmed(line) != [] ==> after.history.entries != [] && after.history.entries[0] == Trimmed(line))
            && after.ended == env.exits(line) && (!after.ended ==> after.line == Line([], []))
  {
    hide Recent, BeforeNul, Trimmed, Latest;
    EveryByteKeeps(env, s, bytes);
    EveryByteKeeps(env, s, bytes + [c]);
    assert (bytes + [c])[..|bytes|] == bytes;
    var d := AllBytes(env, bytes);
    var line := BeforeNul(d.left + d.right);
    assert AllBytes(env, bytes + [c]) == Entered(env, d.(pending := []));
    if Trimmed(line) != [] {
      LatestCommand(d.entered, line);
    }
  }

  lemma LatestCommand(lines: seq<Text>, line: Text)
    requires Trimmed(line) != []
    ensures Recent(lines + [line]) != [] && Recent(lines + [line])[0] == Trimmed(line)
  {
    hide Trimmed, Except, Latest, Used, FirstOf;
    UsedSnoc(lines, line);
    LatestSnoc(Used(lines), Trimmed(line));
    FirstCons(Trimmed(line), Except(Latest(Used(lines)), Trimmed(line)), 16);
  }

  lemma UsedSnoc(lines: seq<Text>, line: Text)
    ensures Used(lines + [line]) == Used(lines) + if Trimmed(line) == [] then [] else [Trimmed(line)]
  {
    hide Trimmed;
    assert (lines + [line])[..|lines|] == lines;
  }
}
