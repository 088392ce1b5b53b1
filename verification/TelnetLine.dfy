/** The command line of a telnet session: a byte array with a cursor, edited in place. */
module TelnetLine {
  import opened Bytes

  const PJ_CLI_MAX_CMDBUF: nat := 512
  const TAB: byte := 9
  const CR: byte := 13
  const QUESTION_MARK: byte := 63

  /** The text before and after the cursor. */
  datatype Line = Line(left: seq<byte>, right: seq<byte>) {
    function Text(): seq<byte> {
      left + right
    }
  }

  predicate Full(l: Line) {
    |l.Text()| + 1 >= PJ_CLI_MAX_CMDBUF
  }

  predicate GoesToEnd(c: byte) {
    c == TAB || c == QUESTION_MARK || c == CR
  }

  /** A typed byte goes before the cursor; tab, '?' and CR go to the end of the line, while the cursor still
      moves over one byte. */
  function Insert(l: Line, c: byte): Line {
    if Full(l) then l
    else if GoesToEnd(c) && l.right != [] then Line(l.left + [l.right[0]], l.right[1..] + [c])
    else Line(l.left + [c], l.right)
  }

  function Backspace(l: Line): Line {
    if l.left == [] then l else l.(left := l.left[..|l.left| - 1])
  }

  function Right(l: Line): Line {
    if l.right == [] then l else Line(l.left + [l.right[0]], l.right[1..])
  }

  function Left(l: Line): Line {
    if l.left == [] then l else Line(l.left[..|l.left| - 1], [l.left[|l.left| - 1]] + l.right)
  }

  class RecvBuf {
    const rbuf: array<byte>
    var len: nat
    var curPos: nat

    ghost predicate Valid()
      reads this, rbuf
    {
      rbuf.Length == PJ_CLI_MAX_CMDBUF && curPos <= len < PJ_CLI_MAX_CMDBUF && rbuf[len] == 0
    }

    ghost function Contents(): Line
      requires Valid()
      reads this, rbuf
    {
      Line(rbuf[..curPos], rbuf[curPos..len])
    }

    constructor ()
      ensures Valid() && fresh(rbuf) && Contents() == Line([], [])
    {
      rbuf := new byte[PJ_CLI_MAX_CMDBUF](_ => 0);
      len, curPos := 0, 0;
    }

    function RightLen(): nat
      requires curPos <= len
      reads this
    {
      len - curPos
    }

    method Memmove(dst: nat, src: nat, count: nat)
      requires dst + count <= rbuf.Length && src + count <= rbuf.Length
      modifies rbuf
      ensures forall i :: 0 <= i < rbuf.Length ==>
                rbuf[i] == old(if dst <= i < dst + count then rbuf[src + i - dst] else rbuf[i])
    {
      forall i | 0 <= i < count {
        rbuf[dst + i] := rbuf[src + i];
      }
    }

    method InsertByte(c: byte) returns (ok: bool)
      requires Valid()
      modifies this, rbuf
      ensures Valid()
      ensures ok == !old(Full(Contents())) && Contents() == old(Insert(Contents(), c))
    {
      if len + 1 >= PJ_CLI_MAX_CMDBUF {
        return false;
      }
      if c == TAB || c == QUESTION_MARK || c == CR {
        PutAtEnd(c);
      } else {
        PutAtCursor(c);
      }
      ok := true;
    }

    method PutAtEnd(c: byte)
      requires Valid() && len + 1 < PJ_CLI_MAX_CMDBUF && GoesToEnd(c)
      modifies this, rbuf
      ensures Valid() && Contents() == old(Insert(Contents(), c))
    {
      ghost var before := Contents();
      rbuf[len] := c;
      curPos := curPos + 1;
      len := len + 1;
      rbuf[len] := 0;
      assert before.right != [] ==> rbuf[curPos - 1] == before.right[0];
      assert rbuf[..curPos] == Insert(before, c).left;
      assert rbuf[curPos..len] == Insert(before, c).right;
    }

    method PutAtCursor(c: byte)
      requires Valid() && len + 1 < PJ_CLI_MAX_CMDBUF && !GoesToEnd(c)
      modifies this, rbuf
      ensures Valid() && Contents() == old(Insert(Contents(), c))
    {
      ghost var before := Contents();
      OpenGap();
      rbuf[curPos] := c;
      curPos := curPos + 1;
      len := len + 1;
      rbuf[len] := 0;
      assert rbuf[..curPos] == before.left + [c];
    }

    /** Shifts what is right of the cursor, with its NUL, by one. */
    method OpenGap()
      requires Valid() && len + 1 < PJ_CLI_MAX_CMDBUF
      modifies rbuf
      ensures rbuf[..curPos] == old(rbuf[..curPos]) && rbuf[curPos + 1..len + 1] == old(rbuf[curPos..len])
    {
      var rlen := RightLen();
      if rlen > 0 {
        Memmove(curPos + 1, curPos, rlen + 1);
      }
    }

    /** Shifts what is right of the cursor back by one. */
    method CloseGap()
      requires Valid() && curPos > 0
      modifies rbuf
      ensures rbuf[..curPos - 1] == old(rbuf[..curPos - 1]) && rbuf[curPos - 1..len - 1] == old(rbuf[curPos..len])
    {
      var rlen := RightLen();
      if rlen > 0 {
        Memmove(curPos - 1, curPos, rlen);
      }
    }

    method BackspaceByte() returns (ok: bool)
      requires Valid()
      modifies this, rbuf
      ensures Valid()
      ensures ok == (old(Contents()).left != []) && Contents() == old(Backspace(Contents()))
    {
      if curPos == 0 || len == 0 {
        return false;
      }
      ghost var before := Contents();
      CloseGap();
      assert rbuf[..curPos - 1] == before.left[..curPos - 1];
      curPos := curPos - 1;
      len := len - 1;
      rbuf[len] := 0;
      ok := true;
    }

    method RightKey() returns (ok: bool)
      requires Valid()
      modifies this
      ensures Valid()
      ensures ok == (old(Contents()).right != []) && Contents() == old(Right(Contents()))
    {
      ghost var before := Contents();
      ok := RightLen() > 0;
      if ok {
        curPos := curPos + 1;
        assert rbuf[..curPos] == Right(before).left;
      }
    }

    method LeftKey() returns (ok: bool)
      requires Valid()
      modifies this
      ensures Valid()
      ensures ok == (old(Contents()).left != []) && Contents() == old(Left(Contents()))
    {
      ghost var before := Contents();
      ok := curPos > 0;
      if ok {
        curPos := curPos - 1;
        assert rbuf[..curPos] == Left(before).left;
        assert rbuf[curPos..len] == Left(before).right;
      }
    }

    /** A recalled, completed or cleared line, with the cursor at its end. */
    method Replace(text: seq<byte>)
      requires Valid() && |text| < PJ_CLI_MAX_CMDBUF
      modifies this, rbuf
      ensures Valid()
      ensures Contents() == Line(text, [])
    {
      forall i | 0 <= i < |text| {
        rbuf[i] := text[i];
      }
      rbuf[|text|] := 0;
      len := |text|;
      curPos := len;
      assert rbuf[..curPos] == text;
    }
  }

  // ----- the editing keys against each other -----

  /** A typed byte is rubbed out by backspace. */
  lemma BackspaceUndoesInsert(l: Line, c: byte)
    requires !Full(l) && !GoesToEnd(c)
    ensures Backspace(Insert(l, c)) == l
  {
    assert (l.left + [c])[..|l.left|] == l.left;
  }

  /** A byte that goes to the end of the line keeps the rest of the text in place. */
  lemma EndInsertAppends(l: Line, c: byte)
    requires !Full(l) && GoesToEnd(c)
    ensures Insert(l, c).Text() == l.Text() + [c] && |Insert(l, c).left| == |l.left| + 1
  {
    if l.right != [] {
      assert l.left + [l.right[0]] + (l.right[1..] + [c]) == l.left + ([l.right[0]] + l.right[1..]) + [c];
      assert [l.right[0]] + l.right[1..] == l.right;
    }
  }

  /** The cursor keys change no text and undo each other away from the ends. */
  lemma CursorKeys(l: Line)
    ensures Left(l).Text() == l.Text() == Right(l).Text()
    ensures l.left != [] ==> Right(Left(l)) == l
    ensures l.right != [] ==> Left(Right(l)) == l
  {
    if l.left != [] {
      assert l.left == l.left[..|l.left| - 1] + [l.left[|l.left| - 1]];
    }
    if l.right != [] {
      assert l.right == [l.right[0]] + l.right[1..];
    }
  }

  /** However much is typed, a line of at most 511 bytes does not grow beyond that. */
  lemma {:induction false} LineFits(l: Line, typed: seq<byte>)
    requires |l.Text()| <= 511
    ensures |InsertAll(l, typed).Text()| == if |l.Text()| + |typed| <= 511 then |l.Text()| + |typed| else 511
    decreases |typed|
  {
    if typed != [] {
      LineFits(l, typed[..|typed| - 1]);
    }
  }

  function InsertAll(l: Line, typed: seq<byte>): Line
    decreases |typed|
  {
    if typed == [] then l else Insert(InsertAll(l, typed[..|typed| - 1]), typed[|typed| - 1])
  }

  /** Bytes typed anywhere in a line that has room for them stand before the cursor in the order typed. */
  lemma {:induction false} TypedInOrder(l: Line, typed: seq<byte>)
    requires |l.Text()| + |typed| < PJ_CLI_MAX_CMDBUF
    requires forall c :: c in typed ==> !GoesToEnd(c)
    ensures InsertAll(l, typed) == Line(l.left + typed, l.right)
    decreases |typed|
  {
    if typed == [] {
      assert l.left + typed == l.left;
    } else {
      TypedInOrder(l, typed[..|typed| - 1]);
      assert typed == typed[..|typed| - 1] + [typed[|typed| - 1]];
    }
  }
}
