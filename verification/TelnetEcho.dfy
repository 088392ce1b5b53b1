/** What a session writes back for the editing keys, and the row of the terminal that shows it. */
module TelnetEcho {
  import opened Bytes
  import opened TelnetLine
  import opened TelnetHistory
  import opened TelnetNegotiation
  import opened TelnetSession

  const BELL: byte := 7
  const BACK: byte := 8
  const SPACE: byte := 32
  const INSERT_ONE: seq<byte> := [ESC, 91, 49, 64]
  const DELETE_ONE: seq<byte> := [ESC, 91, 49, 80]

  predicate Printable(c: byte) {
    31 < c < 127
  }

  function Repeat(c: byte, n: nat): (s: seq<byte>)
    ensures |s| == n
  {
    if n == 0 then [] else [c] + Repeat(c, n - 1)
  }

  lemma {:induction false} RepeatIs(c: byte, n: nat)
    ensures forall i :: 0 <= i < n ==> Repeat(c, n)[i] == c
  {
    if n > 0 {
      RepeatIs(c, n - 1);
    }
  }

  // ----- what the session writes back -----

  function TypedEcho(l: Line, c: byte): seq<byte> {
    if l.right != [] then INSERT_ONE + [c] else [c]
  }

  function BackspaceEcho(l: Line): seq<byte> {
    if l.left == [] then [BELL] else if l.right != [] then [DEL] + DELETE_ONE else [BACK, SPACE, BACK]
  }

  /** Back to the start of the line, blanks over a line that is longer than the entry, and the entry. */
  function RecallBytes(curPos: nat, len: nat, entry: seq<byte>): seq<byte> {
    Repeat(BACK, curPos) + (if len > |entry| then Repeat(SPACE, len) + Repeat(BACK, len) else []) + entry
  }

  function RecallEcho(l: Line, entry: seq<byte>): seq<byte> {
    RecallBytes(|l.left|, |l.Text()|, entry)
  }

  /** The echo fits the array that it is put together in exactly within this bound: over a longer line the blanks and
      the way back take twice its length. */
  lemma RecallFits(l: Line, entry: seq<byte>)
    ensures var len := |l.Text()|;
            && (|RecallEcho(l, entry)| <= PJ_CLI_MAX_CMDBUF <==>
                  |l.left| + |entry| + (if len > |entry| then 2 * len else 0) <= PJ_CLI_MAX_CMDBUF)
            && (len <= 128 && |entry| <= 384 ==> |RecallEcho(l, entry)| <= PJ_CLI_MAX_CMDBUF)
  {
    hide Repeat;
    assert |l.left| <= |l.Text()|;
  }

  /** With the cursor at the end of a line of more than 170 bytes no shorter entry fits. */
  lemma LongLineTooLong(l: Line, entry: seq<byte>)
    requires l.right == [] && |l.left| > 170 && |entry| < |l.left|
    ensures |RecallEcho(l, entry)| > PJ_CLI_MAX_CMDBUF
  {
    hide Repeat;
    RecallFits(l, entry);
    assert l.Text() == l.left;
  }

  /** memset behind the slen bytes that the array holds. */
  method Fill(str: array<byte>, slen: nat, c: byte, count: nat) returns (end: nat)
    requires slen + count <= str.Length
    modifies str
    ensures end == slen + count && str[..end] == old(str[..slen]) + Repeat(c, count)
  {
    RepeatIs(c, count);
    forall i | slen <= i < slen + count {
      str[i] := c;
    }
    end := slen + count;
  }

  method Append(str: array<byte>, slen: nat, text: seq<byte>) returns (end: nat)
    requires slen + |text| <= str.Length
    modifies str
    ensures end == slen + |text| && str[..end] == old(str[..slen]) + text
  {
    forall i | 0 <= i < |text| {
      str[slen + i] := text[i];
    }
    end := slen + |text|;
  }

  /** The array gets the echo, where it fits. */
  method PutTogether(curPos: nat, len: nat, entry: seq<byte>) returns (str: array<byte>, slen: nat)
    requires |RecallBytes(curPos, len, entry)| <= PJ_CLI_MAX_CMDBUF
    ensures str.Length == PJ_CLI_MAX_CMDBUF && slen <= str.Length && str[..slen] == RecallBytes(curPos, len, entry)
  {
    hide Repeat;
    str, slen := new byte[PJ_CLI_MAX_CMDBUF](_ => 0), 0;
    if curPos > 0 {
      slen := Fill(str, slen, BACK, curPos);
    }
    ghost var back := Repeat(BACK, curPos);
    assert str[..slen] == back by { assert curPos == 0 ==> back == []; }
    if len > |entry| {
      slen := Fill(str, slen, SPACE, len);
      slen := Fill(str, slen, BACK, len);
      Assoc(back, Repeat(SPACE, len), Repeat(BACK, len));
    } else {
      assert back + [] == back;
    }
    slen := Append(str, slen, entry);
  }

  function HistoryEcho(l: Line, h: History): seq<byte>
    requires h.Valid() && (h.entries != [] ==> h.active.Some?)
  {
    if h.entries == [] then [BELL] else RecallEcho(l, h.entries[h.active.value])
  }

  /** The keys that edit the line: not the ones that complete, end or run it, and no negotiation. */
  predicate Edits(k: Keyboard, c: byte) {
    && !k.ended
    && match k.parse
       case Normal => c !in [IAC, TAB, QUESTION_MARK, CR]
       case SawEsc => true
       case Vt100 => true
       case _ => false
  }

  predicate EchoOn(t: Table)
    requires t.Valid()
  {
    t.State(Key(true, TERM_ECHO)) == Enable
  }

  function Echo(s: Session, c: byte): seq<byte>
    requires s.keys.history.Valid() && s.table.Valid() && Edits(s.keys, c)
  {
    var k := s.keys;
    match k.parse
    case Normal =>
      if c == DEL then BackspaceEcho(k.line)
      else if c == ESC then []
      else if Full(k.line) then [BELL]
      else if !Printable(c) then []
      else if EchoOn(s.table) then TypedEcho(k.line, c) else [BELL]
    case Vt100 =>
      if c == 65 then HistoryEcho(k.line, Up(k.history))
      else if c == 66 then HistoryEcho(k.line, Down(k.history))
      else if c == 67 then (if k.line.right == [] then [BELL] else [k.line.right[0]])
      else if c == 68 then (if k.line.left == [] then [BELL] else [BACK])
      else []
    case _ => []
  }

  // ----- the terminal -----

  /** How far into a control sequence the terminal is. */
  datatype Mode = Ground | Escape | Opened | Counted

  /** The row behind the prompt, blank beyond its cells; it is long enough not to wrap. Terminals differ in what they
      make of byte 127: nothing, or a step to the left. */
  datatype Screen = Screen(cells: seq<byte>, cursor: nat, mode: Mode, delSteps: bool) {
    predicate Valid() {
      cursor <= |cells|
    }

    function StepBack(): Screen {
      if cursor > 0 then this.(cursor := cursor - 1) else this
    }

    function Put(c: byte): Screen
      requires Valid()
    {
      this.(cells := if cursor < |cells| then cells[cursor := c] else cells + [c], cursor := cursor + 1)
    }

    /** ESC [ 1 @ opens a blank cell at the cursor, ESC [ 1 P takes one out. */
    function Control(c: byte): Screen
      requires Valid()
    {
      if c == 64 then this.(cells := cells[..cursor] + [32] + cells[cursor..], mode := Ground)
      else if c == 80 && cursor < |cells| then this.(cells := cells[..cursor] + cells[cursor + 1..], mode := Ground)
      else this.(mode := Ground)
    }

    function Take(c: byte): (s: Screen)
      requires Valid()
      ensures s.Valid() && s.delSteps == delSteps
    {
      match mode
      case Ground =>
        if c == 27 then this.(mode := Escape)
        else if c == 8 || (c == 127 && delSteps) then StepBack()
        else if Printable(c) then Put(c)
        else this
      case Escape => this.(mode := if c == 91 then Opened else Ground)
      case Opened => this.(mode := if c == 49 then Counted else Ground)
      case Counted => Control(c)
    }
  }

  function Display(screen: Screen, bytes: seq<byte>): (s: Screen)
    requires screen.Valid()
    ensures s.Valid() && s.delSteps == screen.delSteps
    decreases |bytes|
  {
    if bytes == [] then screen else Display(screen.Take(bytes[0]), bytes[1..])
  }

  /** The row holds the text, all of it printable, and then blanks; the cursor stands where the line's does. */
  ghost predicate Shows(screen: Screen, l: Line) {
    && screen.Valid() && screen.mode == Ground && screen.cursor == |l.left|
    && |l.Text()| <= |screen.cells| && screen.cells[..|l.Text()|] == l.Text()
    && (forall c :: c in l.Text() ==> Printable(c))
    && forall i :: |l.Text()| <= i < |screen.cells| ==> screen.cells[i] == 32
  }

  lemma {:induction false} DisplayTwo(screen: Screen, a: seq<byte>, b: seq<byte>)
    requires screen.Valid()
    ensures Display(screen, a + b) == Display(Display(screen, a), b)
    decreases |a|
  {
    hide Screen.Take, Screen.Valid;
    if a == [] {
      assert a + b == b;
    } else {
      assert (a + b)[1..] == a[1..] + b;
      DisplayTwo(screen.Take(a[0]), a[1..], b);
    }
  }

  lemma {:induction false} Backs(screen: Screen, n: nat)
    requires screen.Valid() && screen.mode == Ground && n <= screen.cursor
    ensures Display(screen, Repeat(BACK, n)) == screen.(cursor := screen.cursor - n)
    decreases n
  {
    if n > 0 {
      Backs(screen.Take(BACK), n - 1);
    }
  }

  /** Printable text lies over the cells from the cursor on. */
  function Over(cells: seq<byte>, cursor: nat, text: seq<byte>): seq<byte>
    requires cursor <= |cells|
  {
    cells[..cursor] + text + (if cursor + |text| <= |cells| then cells[cursor + |text|..] else [])
  }

  lemma {:induction false} Puts(screen: Screen, text: seq<byte>)
    requires screen.Valid() && screen.mode == Ground && forall c :: c in text ==> Printable(c)
    ensures Display(screen, text)
              == screen.(cells := Over(screen.cells, screen.cursor, text), cursor := screen.cursor + |text|)
    decreases |text|
  {
    hide Over, Screen.Put, Printable, Screen.Take;
    if text == [] {
      OverNothing(screen.cells, screen.cursor);
    } else {
      var c, rest := text[0], text[1..];
      assert c in text;
      Taken(screen, c);
      Puts(screen.Put(c), rest);
      OverCons(screen, c, rest);
      assert text == [c] + rest;
    }
  }

  lemma Taken(screen: Screen, c: byte)
    requires screen.Valid() && screen.mode == Ground && Printable(c)
    ensures screen.Take(c) == screen.Put(c)
    ensures screen.Put(c).Valid() && screen.Put(c).mode == Ground && screen.Put(c).cursor == screen.cursor + 1
    ensures screen.Put(c).delSteps == screen.delSteps
  {
  }

  lemma OverNothing(cells: seq<byte>, cursor: nat)
    requires cursor <= |cells|
    ensures Over(cells, cursor, []) == cells
  {
  }

  lemma OverCons(screen: Screen, c: byte, rest: seq<byte>)
    requires screen.Valid()
    ensures Over(screen.Put(c).cells, screen.cursor + 1, rest) == Over(screen.cells, screen.cursor, [c] + rest)
  {
  }

  // ----- each key -----

  predicate AllPrintable(text: seq<byte>) {
    forall c :: c in text ==> Printable(c)
  }

  lemma One(screen: Screen, c: byte)
    requires screen.Valid()
    ensures Display(screen, [c]) == screen.Take(c)
  {
    hide Screen.Take;
    assert [c][1..] == [];
  }

  /** A control sequence with the count 1. */
  lemma Sequence(screen: Screen, c: byte)
    requires screen.Valid() && screen.mode == Ground
    ensures Display(screen, [ESC, 91, 49, c]) == screen.(mode := Counted).Control(c)
  {
    hide Screen.Control;
    var bytes := [ESC, 91, 49, c];
    assert bytes[1..] == [91, 49, c] && bytes[1..][1..] == [49, c] && bytes[1..][1..][1..] == [c];
    assert Display(screen, bytes) == Display(screen.(mode := Escape), [91, 49, c])
        == Display(screen.(mode := Opened), [49, c]) == Display(screen.(mode := Counted), [c]);
    One(screen.(mode := Counted), c);
  }

  lemma TypedShown(screen: Screen, l: Line, c: byte)
    requires Shows(screen, l) && Printable(c) && !GoesToEnd(c) && !Full(l)
    ensures Shows(Display(screen, TypedEcho(l, c)), TelnetLine.Insert(l, c))
  {
    hide Display, Full;
    var n, cells := |l.left|, screen.cells;
    if l.right != [] {
      DisplayTwo(screen, INSERT_ONE, [c]);
      Sequence(screen, 64);
      One(screen.(mode := Counted).Control(64), c);
      assert (cells[..n] + [SPACE] + cells[n..])[n := c] == cells[..n] + [c] + cells[n..];
      TypedBetween(screen, l, c);
    } else {
      One(screen, c);
      TypedLast(screen, l, c);
    }
  }

  lemma TypedBetween(screen: Screen, l: Line, c: byte)
    requires Shows(screen, l) && Printable(c)
    ensures var n := |l.left|;
            Shows(screen.(cells := screen.cells[..n] + [c] + screen.cells[n..], cursor := n + 1),
                  Line(l.left + [c], l.right))
  {
    var n, cells, text := |l.left|, screen.cells, l.Text();
    assert cells[..n] == cells[..|text|][..n] == l.left;
    assert cells[n..|text|] == cells[..|text|][n..] == l.right;
    var after := cells[..n] + [c] + cells[n..];
    assert after[..|text| + 1] == cells[..n] + [c] + cells[n..|text|];
    forall i | |text| + 1 <= i < |after| ensures after[i] == SPACE {
      assert after[i] == cells[i - 1];
    }
  }

  lemma TypedLast(screen: Screen, l: Line, c: byte)
    requires Shows(screen, l) && Printable(c) && l.right == []
    ensures Shows(screen.Put(c), Line(l.left + [c], []))
  {
    var n, cells := |l.left|, screen.Put(c).cells;
    assert l.Text() == l.left && Line(l.left + [c], []).Text() == l.left + [c];
    assert cells[..n + 1] == screen.cells[..n] + [c];
  }

  lemma BackspaceShown(screen: Screen, l: Line)
    requires Shows(screen, l) && l.left != []
    ensures Shows(Display(screen, BackspaceEcho(l)), Backspace(l)) <==> l.right == [] || screen.delSteps
  {
    hide Display;
    if l.right != [] {
      DisplayTwo(screen, [DEL], DELETE_ONE);
      One(screen, DEL);
      Sequence(screen.Take(DEL), 80);
      if screen.delSteps {
        RubbedOut(screen, l);
      }
    } else {
      assert [BACK] + [SPACE, BACK] == [BACK, SPACE, BACK] && [SPACE] + [BACK] == [SPACE, BACK];
      DisplayTwo(screen, [BACK], [SPACE, BACK]);
      DisplayTwo(screen.StepBack(), [SPACE], [BACK]);
      One(screen, BACK);
      One(screen.StepBack(), SPACE);
      One(screen.StepBack().Put(SPACE), BACK);
      LastBlanked(screen, l);
    }
  }

  lemma LastBlanked(screen: Screen, l: Line)
    requires Shows(screen, l) && l.left != [] && l.right == []
    ensures Shows(screen.StepBack().Put(SPACE).StepBack(), Backspace(l))
  {
    var n, cells := |l.left| - 1, screen.cells;
    assert l.Text() == l.left && Backspace(l).Text() == l.left[..n];
    assert cells[n := SPACE][..n] == cells[..n] == cells[..|l.left|][..n] == l.left[..n];
  }

  /** Taking out the cell before the cursor takes the byte out of the text. */
  lemma RubbedOut(screen: Screen, l: Line)
    requires Shows(screen, l) && l.left != []
    ensures Shows(screen.StepBack().(mode := Counted).Control(80), Backspace(l))
  {
    var n, cells, text := |l.left| - 1, screen.cells, Backspace(l).Text();
    var left := cells[..n] + cells[n + 1..];
    assert text == l.Text()[..n] + l.Text()[n + 1..];
    assert left[..|text|] == cells[..|l.Text()|][..n] + cells[..|l.Text()|][n + 1..];
    forall i | |text| <= i < |left| ensures left[i] == SPACE {
      assert left[i] == cells[i + 1];
    }
  }

  lemma CursorShown(screen: Screen, l: Line)
    requires Shows(screen, l)
    ensures l.left != [] ==> Shows(Display(screen, [BACK]), Left(l))
    ensures l.right != [] ==> Shows(Display(screen, [l.right[0]]), Right(l))
  {
    hide Display;
    CursorKeys(l);
    One(screen, BACK);
    if l.right != [] {
      var c := l.right[0];
      assert l.Text()[|l.left|] == c && Printable(c);
      One(screen, c);
      assert screen.cells[..|l.Text()|][|l.left|] == c;
      assert screen.cells[|l.left| := c] == screen.cells;
    }
  }

  /** The recalled entry takes the line's place, and its blanks cover what it does not. */
  lemma RecallShown(screen: Screen, l: Line, entry: seq<byte>)
    requires Shows(screen, l) && AllPrintable(entry)
    ensures Shows(Display(screen, RecallEcho(l, entry)), Line(entry, []))
  {
    hide Display, Repeat, Over;
    var len, n := |l.Text()|, |l.left|;
    var home := screen.(cursor := 0);
    Backs(screen, n);
    if len > |entry| {
      DisplayTwo(screen, Repeat(BACK, n) + (Repeat(SPACE, len) + Repeat(BACK, len)), entry);
      DisplayTwo(screen, Repeat(BACK, n), Repeat(SPACE, len) + Repeat(BACK, len));
      DisplayTwo(home, Repeat(SPACE, len), Repeat(BACK, len));
      var blank := home.(cells := Over(screen.cells, 0, Repeat(SPACE, len)), cursor := len);
      RepeatIs(SPACE, len);
      Puts(home, Repeat(SPACE, len));
      Blanked(screen, l);
      Backs(blank, len);
      Puts(blank.(cursor := 0), entry);
      EntryOver(blank.cells, entry);
    } else {
      assert Repeat(BACK, n) + [] + entry == Repeat(BACK, n) + entry;
      DisplayTwo(screen, Repeat(BACK, n), entry);
      Puts(home, entry);
      EntryOver(screen.cells, entry);
    }
    assert entry + [] == entry;
  }

  lemma Blanked(screen: Screen, l: Line)
    requires Shows(screen, l)
    ensures var cells := Over(screen.cells, 0, Repeat(SPACE, |l.Text()|));
            |cells| == |screen.cells| && forall i :: 0 <= i < |cells| ==> cells[i] == SPACE
  {
    RepeatIs(SPACE, |l.Text()|);
  }

  lemma EntryOver(cells: seq<byte>, entry: seq<byte>)
    requires forall i :: |entry| <= i < |cells| ==> cells[i] == SPACE
    ensures var over := Over(cells, 0, entry);
            && |entry| <= |over| && over[..|entry|] == entry
            && forall i :: |entry| <= i < |over| ==> over[i] == SPACE
  {
  }

  // ----- whole sessions -----

  /** The entry that the key recalls. */
  function Recalled(k: Keyboard, c: byte): Option<Text>
    requires k.history.Valid()
  {
    if k.parse != Vt100 || (c != 65 && c != 66) || k.history.entries == [] then None
    else
      var h := if c == 65 then Up(k.history) else Down(k.history);
      Some(h.entries[h.active.value])
  }

  /** The keys after which the row no longer shows the line: an unprintable byte that goes into the line, a byte typed
      without the echo option, a backspace inside the line where byte 127 does not step to the left, and an entry with
      unprintable bytes. */
  predicate Lost(s: Session, delSteps: bool, c: byte)
    requires s.keys.history.Valid() && s.table.Valid()
  {
    var k := s.keys;
    if k.parse == Normal then
      if c == DEL then k.line.left != [] && k.line.right != [] && !delSteps
      else c != ESC && !Full(k.line) && !(Printable(c) && EchoOn(s.table))
    else Recalled(k, c).Some? && !AllPrintable(Recalled(k, c).value)
  }

  lemma Unechoed(screen: Screen, l: Line, c: byte)
    requires Shows(screen, l)
    ensures screen.Take(BELL) == screen && Display(screen, []) == screen
    ensures !Full(l) && !GoesToEnd(c) ==> !Shows(screen, TelnetLine.Insert(l, c))
  {
    hide Full;
  }

  lemma NormalShown(env: Env, s: Session, screen: Screen, c: byte)
    requires s.keys.history.Valid() && s.table.Valid() && s.keys.parse.Normal? && Edits(s.keys, c)
    requires Shows(screen, s.keys.line)
    ensures Shows(Display(screen, Echo(s, c)), Feed(env, s, c).keys.line) <==> !Lost(s, screen.delSteps, c)
  {
    hide Display, Full, Screen.Take, Shows, TypedEcho, BackspaceEcho, Backspace, TelnetLine.Insert, Printable, EchoOn;
    var l := s.keys.line;
    Unechoed(screen, l, c);
    One(screen, BELL);
    if c == DEL {
      if l.left != [] {
        BackspaceShown(screen, l);
      } else {
        NothingRubbed(l);
      }
    } else if c != ESC && !Full(l) && Printable(c) && EchoOn(s.table) {
      TypedShown(screen, l, c);
    }
  }

  /** The bell, byte 7, rings for a key that has nothing to act on, for a byte that a line of 511 has no room for, and
      for a printable one where echo is off. */
  lemma Rings(s: Session, c: byte)
    requires s.keys.history.Valid() && s.table.Valid() && Edits(s.keys, c)
    requires var k, l := s.keys, s.keys.line;
             || (k.parse.Normal? && c == 127 && l.left == [])
             || (k.parse.Normal? && c !in {27, 127} && (|l.Text()| >= 511 || (32 <= c <= 126 && !EchoOn(s.table))))
             || (k.parse.Vt100? && c in {65, 66} && k.history.entries == [])
             || (k.parse.Vt100? && ((c == 67 && l.right == []) || (c == 68 && l.left == [])))
    ensures Echo(s, c) == [7]
  {
  }

  lemma NothingRubbed(l: Line)
    requires l.left == []
    ensures Backspace(l) == l && BackspaceEcho(l) == [BELL]
  {
  }

  lemma SequenceShown(env: Env, s: Session, screen: Screen, c: byte)
    requires s.keys.history.Valid() && s.table.Valid() && !s.keys.parse.Normal? && Edits(s.keys, c)
    requires Shows(screen, s.keys.line)
    ensures Shows(Display(screen, Echo(s, c)), Feed(env, s, c).keys.line) <==> !Lost(s, screen.delSteps, c)
  {
    hide Display, Screen.Take, Left, Right, RecallEcho, Shows;
    var k := s.keys;
    Unechoed(screen, k.line, c);
    One(screen, BELL);
    if k.parse == Vt100 {
      var entry := Recalled(k, c);
      if entry.Some? {
        if AllPrintable(entry.value) {
          RecallShown(screen, k.line, entry.value);
        } else {
          ShownPrintable(Display(screen, RecallEcho(k.line, entry.value)), entry.value);
        }
      }
      CursorShown(screen, k.line);
      CursorStays(k.line);
    }
  }

  lemma ShownPrintable(screen: Screen, entry: seq<byte>)
    requires !AllPrintable(entry)
    ensures !Shows(screen, Line(entry, []))
  {
    assert Line(entry, []).Text() == entry;
  }

  lemma CursorStays(l: Line)
    ensures l.left == [] ==> Left(l) == l
    ensures l.right == [] ==> Right(l) == l
  {
  }

  // ----- the room for the echo of a recalled entry -----

  /** The echo of a recalled entry fits the array that the session puts it together in. */
  predicate Fits(k: Keyboard, c: byte)
    requires k.history.Valid()
  {
    Recalled(k, c).Some? ==> |RecallEcho(k.line, Recalled(k, c).value)| <= PJ_CLI_MAX_CMDBUF
  }

  /** A key that edits the line leaves the row showing it exactly if it is not one of the lost ones. */
  lemma KeyShown(env: Env, s: Session, screen: Screen, c: byte)
    requires s.keys.history.Valid() && s.table.Valid() && Edits(s.keys, c) && Fits(s.keys, c)
    requires Shows(screen, s.keys.line)
    ensures Shows(Display(screen, Echo(s, c)), Feed(env, s, c).keys.line) <==> !Lost(s, screen.delSteps, c)
  {
    hide Echo, Feed, Lost, Shows, Display;
    if s.keys.parse.Normal? {
      NormalShown(env, s, screen, c);
    } else {
      SequenceShown(env, s, screen, c);
    }
  }

  /** Every byte is a key that edits the line, and every recalled entry fits. */
  predicate Typing(env: Env, s: Session, bytes: seq<byte>)
    requires s.keys.history.Valid() && s.table.Valid()
    decreases |bytes|
  {
    bytes != [] ==> Edits(s.keys, bytes[0]) && Fits(s.keys, bytes[0]) && Typing(env, Feed(env, s, bytes[0]), bytes[1..])
  }

  predicate NoneLost(env: Env, s: Session, delSteps: bool, bytes: seq<byte>)
    requires s.keys.history.Valid() && s.table.Valid()
    decreases |bytes|
  {
    bytes != [] ==> !Lost(s, delSteps, bytes[0]) && NoneLost(env, Feed(env, s, bytes[0]), delSteps, bytes[1..])
  }

  /** The row shows the line, before the first byte and after each one. */
  ghost predicate StaysShown(env: Env, s: Session, screen: Screen, bytes: seq<byte>)
    requires s.keys.history.Valid() && s.table.Valid() && Typing(env, s, bytes) && screen.Valid()
    decreases |bytes|
  {
    && Shows(screen, s.keys.line)
    && (bytes != [] ==> StaysShown(env, Feed(env, s, bytes[0]), Display(screen, Echo(s, bytes[0])), bytes[1..]))
  }

  /** However long a line is edited, the row shows it throughout exactly if none of the keys is a lost one. */
  lemma {:induction false} RunShown(env: Env, s: Session, screen: Screen, bytes: seq<byte>)
    requires s.keys.history.Valid() && s.table.Valid() && Typing(env, s, bytes)
    requires Shows(screen, s.keys.line)
    ensures StaysShown(env, s, screen, bytes) <==> NoneLost(env, s, screen.delSteps, bytes)
    decreases |bytes|
  {
    hide Echo, Feed, Lost, Shows, Display, Edits, Fits;
    ShownValid(screen, s.keys.line);
    if bytes != [] {
      var c, next := bytes[0], Feed(env, s, bytes[0]);
      KeyShown(env, s, screen, c);
      var after := Display(screen, Echo(s, c));
      if Shows(after, next.keys.line) {
        RunShown(env, next, after, bytes[1..]);
      }
    }
  }

  lemma ShownValid(screen: Screen, l: Line)
    ensures Shows(screen, l) ==> screen.Valid()
  {
  }

  /** A key that edits the line leaves the options and the recorded commands as they are. */
  lemma EditKeeps(env: Env, s: Session, c: byte)
    requires s.keys.history.Valid() && s.table.Valid() && Edits(s.keys, c)
    ensures Feed(env, s, c).table == s.table && Feed(env, s, c).keys.history.entries == s.keys.history.entries
  {
    hide Full, TelnetLine.Insert, Backspace, Left, Right;
  }

  /** With the echo option on, a terminal on which byte 127 steps to the left, and printable recorded commands, no
      printable byte, backspace or cursor key is a lost one. */
  lemma {:induction false} PrintableNoneLost(env: Env, s: Session, bytes: seq<byte>)
    requires s.keys.history.Valid() && s.table.Valid() && Typing(env, s, bytes) && EchoOn(s.table)
    requires forall e :: e in s.keys.history.entries ==> AllPrintable(e)
    requires forall c :: c in bytes ==> Printable(c) || c == DEL || c == ESC
    ensures NoneLost(env, s, true, bytes)
    decreases |bytes|
  {
    hide Feed, EchoOn, AllPrintable, Full, Edits, Fits;
    if bytes != [] {
      EditKeeps(env, s, bytes[0]);
      PrintableNoneLost(env, Feed(env, s, bytes[0]), bytes[1..]);
    }
  }
}
