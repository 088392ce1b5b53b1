/** The byte-at-a-time input of a telnet session: keys, escape sequences and negotiation on one stream. */
module TelnetSession {
  import opened Bytes
  import opened TelnetLine
  import opened TelnetHistory
  import opened TelnetNegotiation
  import opened TelnetAgreement

  const IAC: byte := 255
  const ESC: byte := 27
  const DEL: byte := 127

  datatype ParseState = Normal | SawCR | SawEsc | Vt100 | SawIAC | SawVerb(verb: Verb)

  /** How the command layer answers a line: what completion makes of it, and whether running it ends the session. */
  datatype Env = Env(complete: Text -> Text, exits: Text -> bool)

  ghost predicate EnvFits(env: Env) {
    forall t :: |env.complete(t)| < PJ_CLI_MAX_CMDBUF
  }

  /** What the keys act on. */
  datatype Keyboard = Keyboard(parse: ParseState, line: Line, history: History, ended: bool)

  datatype Session = Session(keys: Keyboard, table: Table, sent: seq<Command>)

  /** The text as a C string. */
  function CString(t: Text): (s: Text)
    ensures |s| <= |t|
  {
    if t == [] || t[0] == 0 then [] else [t[0]] + CString(t[1..])
  }

  function VerbOf(c: byte): Option<Verb> {
    if c == 251 then Some(Will)
    else if c == 252 then Some(Wont)
    else if c == 253 then Some(Do)
    else if c == 254 then Some(Dont)
    else None
  }

  function ByteOf(v: Verb): byte {
    match v case Will => 251 case Wont => 252 case Do => 253 case Dont => 254
  }

  function Recall(k: Keyboard, h: History): Keyboard
    requires h.Valid() && (h.entries != [] ==> h.active.Some?)
  {
    if h.entries == [] then k else k.(history := h, line := Line(h.entries[h.active.value], []))
  }

  function Vt100Key(k: Keyboard, c: byte): Keyboard
    requires k.history.Valid()
  {
    if c == 65 then Recall(k, Up(k.history))
    else if c == 66 then Recall(k, Down(k.history))
    else if c == 67 then k.(line := Right(k.line))
    else if c == 68 then k.(line := Left(k.line))
    else k
  }

  function Return(env: Env, k: Keyboard): Keyboard {
    var text := CString(k.line.Text());
    var entered := k.(history := TelnetHistory.Insert(k.history, text));
    if env.exits(text) then entered.(ended := true) else entered.(line := Line([], []))
  }

  function NormalKey(env: Env, k: Keyboard, c: byte): Keyboard {
    if c == DEL then k.(line := Backspace(k.line))
    else if c == ESC then k.(parse := SawEsc)
    else if Full(k.line) then k
    else
      var typed := k.(line := TelnetLine.Insert(k.line, c));
      if c == CR then typed.(parse := SawCR)
      else if c == TAB || c == QUESTION_MARK then
        typed.(line := Line(env.complete(CString(typed.line.Text())), []))
      else typed
  }

  /** What one byte of the stream does. */
  function Feed(env: Env, s: Session, c: byte): (s': Session)
    requires s.keys.history.Valid() && s.table.Valid()
    ensures s'.keys.history.Valid() && s'.table.Valid()
  {
    if s.keys.ended then s
    else
      var idle := s.keys.(parse := Normal);
      match s.keys.parse
      case Normal => s.(keys := if c == IAC then s.keys.(parse := SawIAC) else NormalKey(env, s.keys, c))
      case SawCR => s.(keys := if c == 0 || c == 10 then Return(env, idle) else idle)
      case SawEsc => s.(keys := s.keys.(parse := if c == 91 then Vt100 else Normal))
      case Vt100 => s.(keys := Vt100Key(idle, c))
      case SawIAC => s.(keys := s.keys.(parse := if VerbOf(c).Some? then SawVerb(VerbOf(c).value) else Normal))
      case SawVerb(verb) =>
        var r := Receive(s.table, Command(verb, c));
        Session(idle, r.table, s.sent + r.commands)
  }

  class TelnetSess {
    const rcmd: RecvBuf
    const history: CommandHistory
    const options: TelnetOptions
    var parseState: ParseState
    var ended: bool

    ghost predicate Valid()
      reads this, rcmd, rcmd.rbuf, history, options
    {
      && rcmd.Valid() && options.Valid() && history.Contents().Valid()
      && forall e :: e in history.entries ==> |e| < PJ_CLI_MAX_CMDBUF
    }

    ghost function Contents(): (s: Session)
      requires Valid()
      reads this, rcmd, rcmd.rbuf, history
      reads options, options.localState, options.peerState, options.localIsEnable, options.peerIsEnable
      ensures s.keys.history.Valid() && s.table.Valid()
    {
      Session(Keyboard(parseState, rcmd.Contents(), history.Contents(), ended), options.Contents(), options.sent)
    }

    constructor ()
      ensures Valid()
      ensures Contents().keys == Keyboard(Normal, Line([], []), History([], None), false)
      ensures forall k: Key :: Contents().table.State(k) == if k in OPENING_OFFERS then ExpectEnable else Disable
      ensures forall k: Key :: Contents().table.Allowed(k) == OpensAllowed(k)
    {
      rcmd := new RecvBuf();
      history := new CommandHistory();
      options := new TelnetOptions();
      parseState := Normal;
      ended := false;
      new;
      options.Open();
    }

    method HandleUpDown(isUp: bool)
      requires Valid() && parseState == Normal
      modifies rcmd, rcmd.rbuf, history
      ensures Valid()
      ensures Contents() == old(Contents().(keys := Vt100Key(Contents().keys, if isUp then 65 else 66)))
    {
      var shown := history.GetPrevHistory(isUp);
      if shown.Some? {
        rcmd.Replace(shown.value);
      }
    }

    method ProcessVt100Cmd(c: byte)
      requires Valid() && parseState == Normal
      modifies rcmd, rcmd.rbuf, history
      ensures Valid()
      ensures Contents() == old(Contents().(keys := Vt100Key(Contents().keys, c)))
    {
      match c {
        case 65 => HandleUpDown(true);
        case 66 => HandleUpDown(false);
        case 67 => var _ := rcmd.RightKey();
        case 68 => var _ := rcmd.LeftKey();
        case _ =>
      }
    }

    function CommandLine(): Text
      requires rcmd.rbuf.Length == PJ_CLI_MAX_CMDBUF && rcmd.len < PJ_CLI_MAX_CMDBUF
      reads rcmd, rcmd.rbuf
    {
      CString(rcmd.rbuf[..rcmd.len])
    }

    lemma CommandLineText()
      requires Valid()
      ensures CommandLine() == CString(Contents().keys.line.Text())
    {
      assert rcmd.rbuf[..rcmd.len] == rcmd.rbuf[..rcmd.curPos] + rcmd.rbuf[rcmd.curPos..rcmd.len];
    }

    method HandleReturn(env: Env)
      requires Valid() && parseState == Normal
      modifies this, rcmd, rcmd.rbuf, history
      ensures Valid()
      ensures Contents() == old(Contents().(keys := Return(env, Contents().keys)))
    {
      hide TelnetHistory.Trim, Without, CString;
      CommandLineText();
      var text := CommandLine();
      InsertFits(history.Contents(), text, PJ_CLI_MAX_CMDBUF);
      history.InsertHistory(text);
      if env.exits(text) {
        ended := true;
      } else {
        rcmd.Replace([]);
      }
    }

    method HandleTab(env: Env)
      requires Valid() && EnvFits(env)
      modifies rcmd, rcmd.rbuf
      ensures Valid()
      ensures Contents() == old(Contents().(keys :=
                Contents().keys.(line := Line(env.complete(CString(Contents().keys.line.Text())), []))))
    {
      CommandLineText();
      rcmd.Replace(env.complete(CommandLine()));
    }

    method HandleNormal(env: Env, c: byte)
      requires Valid() && EnvFits(env) && parseState == Normal && c != IAC
      modifies this, rcmd, rcmd.rbuf
      ensures Valid()
      ensures Contents() == old(Contents().(keys := NormalKey(env, Contents().keys, c)))
    {
      if c == DEL {
        var _ := rcmd.BackspaceByte();
      } else if c == ESC {
        parseState := SawEsc;
      } else {
        var inserted := rcmd.InsertByte(c);
        if inserted {
          if c == CR {
            parseState := SawCR;
          } else if c == TAB || c == QUESTION_MARK {
            HandleTab(env);
          }
        }
      }
    }

    method OnDataRead(env: Env, c: byte)
      requires Valid() && EnvFits(env) && !ended
      modifies this, rcmd, rcmd.rbuf, history, options, options.localState, options.peerState
      ensures Valid()
      ensures Contents() == old(Feed(env, Contents(), c))
    {
      hide Receive, NormalKey, Vt100Key, Return;
      match parseState {
        case SawCR =>
          parseState := Normal;
          if c == 0 || c == 10 {
            HandleReturn(env);
          }
        case Normal =>
          if c == IAC {
            parseState := SawIAC;
          } else {
            HandleNormal(env, c);
          }
        case SawEsc => parseState := if c == 91 then Vt100 else Normal;
        case Vt100 =>
          parseState := Normal;
          ProcessVt100Cmd(c);
        case SawIAC =>
          var verb := VerbOf(c);
          parseState := if verb.Some? then SawVerb(verb.value) else Normal;
        case SawVerb(verb) =>
          match verb {
            case Do => options.ReceiveEnableOption(true, c);
            case Dont => options.ReceiveDisableOption(true, c);
            case Will => options.ReceiveEnableOption(false, c);
            case Wont => options.ReceiveDisableOption(false, c);
          }
          parseState := Normal;
      }
    }
  }

  lemma InsertFits(h: History, line: Text, limit: nat)
    requires |line| < limit && forall e :: e in h.entries ==> |e| < limit
    ensures forall e :: e in TelnetHistory.Insert(h, line).entries ==> |e| < limit
  {
    hide TelnetHistory.Trim;
    TrimFits(line);
    WithoutSubset(h.entries, TelnetHistory.Trim(line));
  }

  lemma TrimFits(line: Text)
    ensures |TelnetHistory.Trim(line)| <= |line|
  {
    TrimLeftResult(line);
    TrimRightResult(TelnetHistory.TrimLeft(line));
  }

  lemma {:induction false} WithoutSubset(entries: seq<Text>, cmd: Text)
    ensures forall e :: e in Without(entries, cmd) ==> e in entries
  {
    if entries != [] && entries[0] != cmd {
      WithoutSubset(entries[1..], cmd);
    }
  }

  // ----- keys and negotiation share the stream without touching each other -----

  /** A key, or a negotiation command standing between two keys. */
  datatype Piece = Typed(key: byte) | Negotiated(command: Command)

  function Encode(p: Piece): seq<byte> {
    match p
    case Typed(c) => [c]
    case Negotiated(c) => [IAC, ByteOf(c.verb), c.option]
  }

  function FeedAll(env: Env, s: Session, bytes: seq<byte>): (s': Session)
    requires s.keys.history.Valid() && s.table.Valid()
    ensures s'.keys.history.Valid() && s'.table.Valid()
    decreases |bytes|
  {
    if bytes == [] then s else Feed(env, FeedAll(env, s, bytes[..|bytes| - 1]), bytes[|bytes| - 1])
  }

  function Stream(pieces: seq<Piece>): seq<byte>
    decreases |pieces|
  {
    if pieces == [] then [] else Stream(pieces[..|pieces| - 1]) + Encode(pieces[|pieces| - 1])
  }

  function Keys(pieces: seq<Piece>): seq<byte>
    decreases |pieces|
  {
    if pieces == [] then [] else
      var last := pieces[|pieces| - 1];
      Keys(pieces[..|pieces| - 1]) + (if last.Typed? then [last.key] else [])
  }

  function Negotiations(pieces: seq<Piece>): seq<Command>
    decreases |pieces|
  {
    if pieces == [] then [] else
      var last := pieces[|pieces| - 1];
      Negotiations(pieces[..|pieces| - 1]) + (if last.Negotiated? then [last.command] else [])
  }

  lemma Snoc(init: seq<Piece>, last: Piece)
    ensures Stream(init + [last]) == Stream(init) + Encode(last)
    ensures Keys(init + [last]) == Keys(init) + (if last.Typed? then [last.key] else [])
    ensures Negotiations(init + [last]) == Negotiations(init) + (if last.Negotiated? then [last.command] else [])
  {
    assert (init + [last])[..|init|] == init;
  }

  /** No key is the IAC byte, negotiation comes only where no key sequence is under way, and the session has not
      ended before the last piece. */
  predicate WellMixed(env: Env, s: Session, pieces: seq<Piece>)
    requires s.keys.history.Valid() && s.table.Valid()
    decreases |pieces|
  {
    pieces != [] ==>
      var init, last := pieces[..|pieces| - 1], pieces[|pieces| - 1];
      var keys := FeedAll(env, s, Stream(init)).keys;
      && WellMixed(env, s, init)
      && !keys.ended
      && (if last.Typed? then last.key != IAC else keys.parse.Normal?)
  }

  predicate BetweenCommands(k: Keyboard) {
    !k.parse.SawIAC? && !k.parse.SawVerb?
  }

  lemma FeedSnoc(env: Env, s: Session, bytes: seq<byte>, c: byte)
    requires s.keys.history.Valid() && s.table.Valid()
    ensures FeedAll(env, s, bytes + [c]) == Feed(env, FeedAll(env, s, bytes), c)
  {
    assert (bytes + [c])[..|bytes|] == bytes;
  }

  /** A key outside a command leaves the negotiation alone and acts on the keyboard alone. */
  lemma FeedKey(env: Env, s: Session, u: Session, c: byte)
    requires s.keys.history.Valid() && s.table.Valid() && u.table.Valid()
    requires s.keys == u.keys && c != IAC && BetweenCommands(s.keys)
    ensures Feed(env, s, c).keys == Feed(env, u, c).keys && BetweenCommands(Feed(env, s, c).keys)
    ensures Feed(env, s, c).table == s.table && Feed(env, s, c).sent == s.sent
  {
    hide Full, TelnetLine.Insert, TelnetHistory.Insert, Receive;
  }

  /** The three bytes of a command, one after the other. */
  lemma CommandBytes(env: Env, m: Session, c: Command)
    requires m.keys.history.Valid() && m.table.Valid() && m.keys.parse.Normal? && !m.keys.ended
    ensures var r := Receive(m.table, c);
            Feed(env, Feed(env, Feed(env, m, IAC), ByteOf(c.verb)), c.option)
              == Session(m.keys, r.table, m.sent + r.commands)
  {
    hide NormalKey, Vt100Key, Return, Receive;
    var iac := Feed(env, m, IAC);
    assert iac == m.(keys := m.keys.(parse := SawIAC));
    assert VerbOf(ByteOf(c.verb)) == Some(c.verb);
    assert Feed(env, iac, ByteOf(c.verb)) == m.(keys := m.keys.(parse := SawVerb(c.verb)));
  }

  lemma FeedCommand(env: Env, s: Session, bytes: seq<byte>, c: Command)
    requires s.keys.history.Valid() && s.table.Valid()
    requires var m := FeedAll(env, s, bytes); m.keys.parse.Normal? && !m.keys.ended
    ensures var m := FeedAll(env, s, bytes);
            var r := Receive(m.table, c);
            FeedAll(env, s, bytes + Encode(Negotiated(c))) == Session(m.keys, r.table, m.sent + r.commands)
  {
    hide FeedAll, Feed, Receive, ByteOf;
    FeedSnoc(env, s, bytes, IAC);
    FeedSnoc(env, s, bytes + [IAC], ByteOf(c.verb));
    FeedSnoc(env, s, bytes + [IAC] + [ByteOf(c.verb)], c.option);
    CommandBytes(env, FeedAll(env, s, bytes), c);
    assert bytes + [IAC] + [ByteOf(c.verb)] + [c.option] == bytes + Encode(Negotiated(c));
  }

  /** Line, cursor and history are those of the keys alone, options and replies those of the negotiation alone. */
  ghost predicate Splits(env: Env, s: Session, pieces: seq<Piece>)
    requires s.keys.history.Valid() && s.table.Valid()
  {
    var mixed, typed := FeedAll(env, s, Stream(pieces)), FeedAll(env, s, Keys(pieces));
    var negotiated := ReceiveAll(s.table, Negotiations(pieces));
    && mixed.keys == typed.keys && BetweenCommands(mixed.keys)
    && mixed.table == negotiated.table && mixed.sent == s.sent + negotiated.commands
    && typed.table == s.table && typed.sent == s.sent
  }

  lemma SplitTyped(env: Env, s: Session, init: seq<Piece>, c: byte)
    requires s.keys.history.Valid() && s.table.Valid() && Splits(env, s, init) && c != IAC
    ensures Splits(env, s, init + [Typed(c)])
  {
    hide Feed, Receive, BetweenCommands, ReceiveAll, FeedAll, Stream, Keys, Negotiations;
    Snoc(init, Typed(c));
    assert Negotiations(init) + [] == Negotiations(init);
    var mixed, typed := FeedAll(env, s, Stream(init)), FeedAll(env, s, Keys(init));
    FeedSnoc(env, s, Stream(init), c);
    FeedSnoc(env, s, Keys(init), c);
    FeedKey(env, mixed, typed, c);
    FeedKey(env, typed, mixed, c);
  }

  lemma SplitNegotiated(env: Env, s: Session, init: seq<Piece>, c: Command)
    requires s.keys.history.Valid() && s.table.Valid() && Splits(env, s, init)
    requires var m := FeedAll(env, s, Stream(init)); m.keys.parse.Normal? && !m.keys.ended
    ensures Splits(env, s, init + [Negotiated(c)])
  {
    hide Feed, Receive, BetweenCommands, ReceiveAll, FeedAll, Stream, Keys, Negotiations, Encode;
    Snoc(init, Negotiated(c));
    assert Keys(init) + [] == Keys(init);
    var mixed, before := FeedAll(env, s, Stream(init)), Negotiations(init);
    FeedCommand(env, s, Stream(init), c);
    ReceiveSnoc(s.table, before, c);
    var sent, reply := ReceiveAll(s.table, before).commands, Receive(mixed.table, c).commands;
    assert (s.sent + sent) + reply == s.sent + (sent + reply);
  }

  lemma WellMixedLast(env: Env, s: Session, init: seq<Piece>, last: Piece)
    requires s.keys.history.Valid() && s.table.Valid() && WellMixed(env, s, init + [last])
    ensures var keys := FeedAll(env, s, Stream(init)).keys;
            && WellMixed(env, s, init) && !keys.ended
            && (if last.Typed? then last.key != IAC else keys.parse.Normal?)
  {
    hide FeedAll, Stream;
    assert (init + [last])[..|init|] == init;
  }

  lemma NothingSplits(env: Env, s: Session)
    requires s.keys.history.Valid() && s.table.Valid() && BetweenCommands(s.keys)
    ensures Splits(env, s, [])
  {
    hide Feed, Receive;
    assert s.sent + [] == s.sent;
  }

  /** However keys and negotiation are mixed on the stream, they do not touch each other. */
  lemma {:induction false} StreamSplits(env: Env, s: Session, pieces: seq<Piece>)
    requires s.keys.history.Valid() && s.table.Valid() && BetweenCommands(s.keys)
    requires WellMixed(env, s, pieces)
    ensures Splits(env, s, pieces)
    decreases |pieces|
  {
    hide Feed, Receive, BetweenCommands, Splits, WellMixed, FeedAll, Stream, Keys, Negotiations, Encode;
    if pieces == [] {
      NothingSplits(env, s);
    } else {
      var init, last := pieces[..|pieces| - 1], pieces[|pieces| - 1];
      assert pieces == init + [last];
      WellMixedLast(env, s, init, last);
      StreamSplits(env, s, init);
      match last {
        case Typed(c) => SplitTyped(env, s, init, c);
        case Negotiated(c) => SplitNegotiated(env, s, init, c);
      }
    }
  }
}
