/** The command history of a telnet session: most recent first, at most sixteen, browsed in a ring. */
module TelnetHistory {
  import opened Bytes

  const PJ_CLI_MAX_CMD_HISTORY: nat := 16

  type Text = seq<byte>

  predicate IsSpace(c: byte) {
    c == 32 || 9 <= c <= 13
  }

  function TrimLeft(s: Text): Text {
    if s != [] && IsSpace(s[0]) then TrimLeft(s[1..]) else s
  }

  function TrimRight(s: Text): Text {
    if s != [] && IsSpace(s[|s| - 1]) then TrimRight(s[..|s| - 1]) else s
  }

  function Trim(s: Text): Text {
    TrimRight(TrimLeft(s))
  }

  lemma {:induction false} TrimLeftResult(s: Text)
    ensures TrimLeft(s) == [] || !IsSpace(TrimLeft(s)[0])
    ensures exists i :: 0 <= i <= |s| && TrimLeft(s) == s[i..] && forall j :: 0 <= j < i ==> IsSpace(s[j])
  {
    if s != [] && IsSpace(s[0]) {
      TrimLeftResult(s[1..]);
      var i :| 0 <= i <= |s[1..]| && TrimLeft(s[1..]) == s[1..][i..] && forall j :: 0 <= j < i ==> IsSpace(s[1..][j]);
      assert s[i + 1..] == s[1..][i..];
      assert forall j :: 1 <= j < i + 1 ==> s[j] == s[1..][j - 1];
    } else {
      assert s[0..] == s;
    }
  }

  lemma {:induction false} TrimRightResult(s: Text)
    ensures TrimRight(s) == [] || !IsSpace(TrimRight(s)[|TrimRight(s)| - 1])
    ensures TrimRight(s) <= s && forall j :: |TrimRight(s)| <= j < |s| ==> IsSpace(s[j])
  {
    if s != [] && IsSpace(s[|s| - 1]) {
      TrimRightResult(s[..|s| - 1]);
    }
  }

  /** active is the position of the entry last shown, or None at the sentinel. */
  datatype History = History(entries: seq<Text>, active: Option<nat>) {
    predicate Valid() {
      active.Some? ==> active.value < |entries|
    }
  }

  function Without(entries: seq<Text>, cmd: Text): seq<Text> {
    if entries == [] then []
    else if entries[0] == cmd then entries[1..]
    else [entries[0]] + Without(entries[1..], cmd)
  }

  function Insert(h: History, line: Text): History {
    var cmd := Trim(line);
    if cmd == [] then h
    else
      var rest := if cmd in h.entries then Without(h.entries, cmd)
                  else if |h.entries| < PJ_CLI_MAX_CMD_HISTORY then h.entries
                  else h.entries[..|h.entries| - 1];
      History([cmd] + rest, None)
  }

  function Up(h: History): (h': History)
    requires h.Valid()
    ensures h'.Valid()
  {
    if h.entries == [] then h
    else if h.active.None? || h.active.value + 1 == |h.entries| then h.(active := Some(0))
    else h.(active := Some(h.active.value + 1))
  }

  function Down(h: History): (h': History)
    requires h.Valid()
    ensures h'.Valid()
  {
    if h.entries == [] then h
    else if h.active.None? || h.active.value == 0 then h.(active := Some(|h.entries| - 1))
    else h.(active := Some(h.active.value - 1))
  }

  class CommandHistory {
    var entries: seq<Text>
    var active: Option<nat>

    ghost function Contents(): History
      reads this
    {
      History(entries, active)
    }

    constructor ()
      ensures Contents() == History([], None)
    {
      entries := [];
      active := None;
    }

    method Search(cmd: Text) returns (found: Option<nat>)
      ensures found.None? ==> cmd !in entries
      ensures found.Some? ==> found.value < |entries| && entries[found.value] == cmd && cmd !in entries[..found.value]
    {
      for i := 0 to |entries|
        invariant cmd !in entries[..i]
      {
        if entries[i] == cmd {
          return Some(i);
        }
      }
      found := None;
    }

    method InsertHistory(line: Text)
      modifies this
      ensures Contents() == old(Insert(Contents(), line))
    {
      var cmd := Trim(line);
      if |cmd| == 0 {
        return;
      }
      var found := Search(cmd);
      if found.None? {
        if |entries| >= PJ_CLI_MAX_CMD_HISTORY {
          entries := entries[..|entries| - 1];
        }
      } else {
        WithoutAt(entries, cmd, found.value);
        entries := entries[..found.value] + entries[found.value + 1..];
      }
      entries := [cmd] + entries;
      active := None;
    }

    method GetPrevHistory(isForward: bool) returns (shown: Option<Text>)
      requires Contents().Valid()
      modifies this`active
      ensures Contents() == old(if isForward then Up(Contents()) else Down(Contents()))
      ensures shown == if entries == [] then None else Some(entries[active.value])
    {
      if |entries| == 0 {
        return None;
      }
      if isForward {
        active := Some(if active.None? || active.value + 1 == |entries| then 0 else active.value + 1);
      } else {
        active := Some(if active.None? || active.value == 0 then |entries| - 1 else active.value - 1);
      }
      shown := Some(entries[active.value]);
    }
  }

  lemma {:induction false} WithoutAt(entries: seq<Text>, cmd: Text, i: nat)
    requires i < |entries| && entries[i] == cmd && cmd !in entries[..i]
    ensures Without(entries, cmd) == entries[..i] + entries[i + 1..]
  {
    if i > 0 {
      assert entries[0] == entries[..i][0];
      assert entries[1..][..i - 1] == entries[..i][1..];
      WithoutAt(entries[1..], cmd, i - 1);
      assert entries[..i] == [entries[0]] + entries[1..][..i - 1];
    }
  }

  // ----- the list is the most recently used commands -----

  /** The commands among the lines, in the order they were entered. */
  function Commands(lines: seq<Text>): seq<Text>
    decreases |lines|
  {
    if lines == [] then [] else
      var cmd := Trim(lines[|lines| - 1]);
      Commands(lines[..|lines| - 1]) + (if cmd == [] then [] else [cmd])
  }

  function InsertAll(lines: seq<Text>): History
    decreases |lines|
  {
    if lines == [] then History([], None) else Insert(InsertAll(lines[..|lines| - 1]), lines[|lines| - 1])
  }

  /** Where cmd was last used, or -1. */
  function LastUse(used: seq<Text>, cmd: Text): (i: int)
    ensures i < 0 ==> i == -1 && cmd !in used
    ensures i >= 0 ==> i < |used| && used[i] == cmd && cmd !in used[i + 1..]
    decreases |used|
  {
    if used == [] then -1
    else if used[|used| - 1] == cmd then |used| - 1
    else
      var init := used[..|used| - 1];
      assert used == init + [used[|used| - 1]];
      var i := LastUse(init, cmd);
      assert i >= 0 ==> used[i + 1..] == init[i + 1..] + [used[|used| - 1]];
      i
  }

  /** The entries were used, later use first, and a used command is missing only when there are sixteen entries,
      all used after it. */
  ghost predicate MostRecent(entries: seq<Text>, used: seq<Text>) {
    InOrder(entries, used) && Complete(entries, used)
  }

  ghost predicate InOrder(entries: seq<Text>, used: seq<Text>) {
    && (forall i :: 0 <= i < |entries| ==> LastUse(used, entries[i]) >= 0)
    && (forall i, j :: 0 <= i < j < |entries| ==> LastUse(used, entries[i]) > LastUse(used, entries[j]))
  }

  ghost predicate Complete(entries: seq<Text>, used: seq<Text>) {
    && |entries| <= PJ_CLI_MAX_CMD_HISTORY
    && (forall c :: LastUse(used, c) >= 0 && c !in entries ==>
          |entries| == PJ_CLI_MAX_CMD_HISTORY && LastUse(used, c) < LastUse(used, entries[|entries| - 1]))
  }

  lemma LastUseAfter(used: seq<Text>, last: Text, cmd: Text)
    ensures LastUse(used + [last], cmd) == if cmd == last then |used| else LastUse(used, cmd)
  {
    assert (used + [last])[..|used|] == used;
  }

  lemma LastUseKept(used: seq<Text>, last: Text)
    ensures LastUse(used + [last], last) == |used|
    ensures forall c :: c != last ==> LastUse(used + [last], c) == LastUse(used, c) < |used|
  {
    LastUseAfter(used, last, last);
    forall c | c != last ensures LastUse(used + [last], c) == LastUse(used, c) {
      LastUseAfter(used, last, c);
    }
  }

  /** The entries that may follow cmd at the front. */
  ghost predicate MayFollow(rest: seq<Text>, used: seq<Text>, cmd: Text) {
    && InOrder(rest, used)
    && cmd !in rest
    && |rest| < PJ_CLI_MAX_CMD_HISTORY
    && (forall c :: LastUse(used, c) >= 0 && c != cmd && c !in rest ==>
          |rest| == PJ_CLI_MAX_CMD_HISTORY - 1 && LastUse(used, c) < LastUse(used, rest[|rest| - 1]))
  }

  lemma PushInOrder(rest: seq<Text>, used: seq<Text>, cmd: Text)
    requires InOrder(rest, used) && cmd !in rest
    ensures InOrder([cmd] + rest, used + [cmd])
  {
    hide LastUse;
    var entries, used' := [cmd] + rest, used + [cmd];
    LastUseKept(used, cmd);
    forall i | 0 <= i < |entries|
      ensures LastUse(used', entries[i]) == if i == 0 then |used| else LastUse(used, rest[i - 1])
    {
      if i > 0 {
        assert entries[i] == rest[i - 1] && rest[i - 1] in rest;
      }
    }
  }

  lemma PushFront(rest: seq<Text>, used: seq<Text>, cmd: Text)
    requires MayFollow(rest, used, cmd)
    ensures MostRecent([cmd] + rest, used + [cmd])
  {
    PushInOrder(rest, used, cmd);
    hide LastUse, InOrder;
    var entries, used' := [cmd] + rest, used + [cmd];
    LastUseKept(used, cmd);
    forall c | LastUse(used', c) >= 0 && c !in entries
      ensures |entries| == PJ_CLI_MAX_CMD_HISTORY && LastUse(used', c) < LastUse(used', entries[|entries| - 1])
    {
      assert c != entries[0];
      assert c !in rest by { assert forall x :: x in rest ==> x in entries; }
      assert rest[|rest| - 1] == entries[|entries| - 1] && rest[|rest| - 1] in rest;
    }
  }

  lemma DropAt(entries: seq<Text>, used: seq<Text>, i: nat)
    requires InOrder(entries, used) && i < |entries|
    ensures var rest := entries[..i] + entries[i + 1..];
            InOrder(rest, used) && entries[i] !in rest && forall c :: c in entries ==> c == entries[i] || c in rest
  {
    hide LastUse;
    var rest := entries[..i] + entries[i + 1..];
    assert forall j :: 0 <= j < |rest| ==> rest[j] == entries[if j < i then j else j + 1];
    forall c | c in entries ensures c == entries[i] || c in rest {
      var j :| 0 <= j < |entries| && entries[j] == c;
      assert j < i ==> rest[j] == entries[j];
      assert i < j ==> rest[j - 1] == entries[j];
    }
  }

  lemma RestFound(entries: seq<Text>, used: seq<Text>, i: nat)
    requires MostRecent(entries, used) && i < |entries|
    ensures MayFollow(entries[..i] + entries[i + 1..], used, entries[i])
    ensures entries[i] !in entries[..i]
  {
    hide LastUse;
    var rest := entries[..i] + entries[i + 1..];
    DropAt(entries, used, i);
    DropLast(entries, used, i);
    hide InOrder;
    assert entries[i] !in entries[..i] by { assert forall c :: c in entries[..i] ==> c in rest; }
  }

  /** Without one entry, the last of the others was still used no earlier than the last of all. */
  lemma DropLast(entries: seq<Text>, used: seq<Text>, i: nat)
    requires InOrder(entries, used) && i < |entries|
    ensures var rest := entries[..i] + entries[i + 1..];
            rest != [] ==> LastUse(used, rest[|rest| - 1]) >= LastUse(used, entries[|entries| - 1])
  {
    hide LastUse;
    var rest := entries[..i] + entries[i + 1..];
    assert rest != [] ==> rest[|rest| - 1] == entries[if i == |entries| - 1 then i - 1 else |entries| - 1];
  }

  lemma RestNew(entries: seq<Text>, used: seq<Text>, cmd: Text)
    requires MostRecent(entries, used) && cmd !in entries
    ensures MayFollow(if |entries| < PJ_CLI_MAX_CMD_HISTORY then entries else entries[..|entries| - 1], used, cmd)
  {
    hide LastUse;
    if |entries| == PJ_CLI_MAX_CMD_HISTORY {
      var rest := entries[..|entries| - 1];
      assert entries == rest + [entries[|rest|]];
      assert InOrder(rest, used);
      hide InOrder;
      assert LastUse(used, rest[|rest| - 1]) > LastUse(used, entries[|rest|]);
    }
  }

  lemma InsertMostRecent(h: History, used: seq<Text>, line: Text)
    requires MostRecent(h.entries, used) && Trim(line) != []
    ensures MostRecent(Insert(h, line).entries, used + [Trim(line)])
  {
    hide MostRecent, MayFollow, Trim, Without;
    var cmd, entries := Trim(line), h.entries;
    if cmd in entries {
      var i :| 0 <= i < |entries| && entries[i] == cmd;
      RestFound(entries, used, i);
      WithoutAt(entries, cmd, i);
      PushFront(entries[..i] + entries[i + 1..], used, cmd);
    } else {
      RestNew(entries, used, cmd);
      PushFront(if |entries| < PJ_CLI_MAX_CMD_HISTORY then entries else entries[..|entries| - 1], used, cmd);
    }
  }

  /** Over any session, the history is the most recently used commands. */
  lemma {:induction false} HistoryIsMostRecent(lines: seq<Text>)
    ensures MostRecent(InsertAll(lines).entries, Commands(lines))
    decreases |lines|
  {
    if lines != [] {
      var init, line := lines[..|lines| - 1], lines[|lines| - 1];
      HistoryIsMostRecent(init);
      if Trim(line) == [] {
        assert Commands(init) + [] == Commands(init);
      } else {
        InsertMostRecent(InsertAll(init), Commands(init), line);
      }
    }
  }

  // ----- browsing -----

  function UpTimes(h: History, k: nat): (h': History)
    requires h.Valid()
    ensures h'.Valid()
  {
    if k == 0 then h else Up(UpTimes(h, k - 1))
  }

  /** After k presses of up the ring has been gone round laps times. */
  lemma {:induction false} UpRing(h: History, k: nat) returns (laps: nat)
    requires h.entries != [] && h.active == None && k > 0
    ensures UpTimes(h, k).entries == h.entries && UpTimes(h, k).active.Some?
    ensures k - 1 == |h.entries| * laps + UpTimes(h, k).active.value
  {
    if k == 1 {
      laps := 0;
    } else {
      laps := UpRing(h, k - 1);
      if UpTimes(h, k - 1).active.value + 1 == |h.entries| {
        assert |h.entries| * (laps + 1) == |h.entries| * laps + |h.entries|;
        laps := laps + 1;
      }
    }
  }

  /** After an entered command, the k-th press of up shows entry k-1, going round. */
  lemma UpShows(h: History, line: Text, k: nat)
    requires Trim(line) != [] && k > 0
    ensures var h' := Insert(h, line);
            && UpTimes(h', k).entries == h'.entries
            && UpTimes(h', k).active == Some((k - 1) % |h'.entries|)
  {
    hide Trim, Without, UpTimes;
    var h' := Insert(h, line);
    var laps := UpRing(h', k);
    RemainderOf(|h'.entries|, laps, UpTimes(h', k).active.value);
  }

  lemma RemainderOf(n: nat, q: nat, r: nat)
    requires r < n
    ensures (n * q + r) % n == r
  {
    var m := n * q + r;
    MulGap(n, q, m / n);
    MulGap(n, m / n, q);
  }

  lemma {:induction false} MulGap(n: nat, a: nat, b: nat)
    ensures a < b ==> n * a + n <= n * b
  {
    if a + 1 < b {
      MulGap(n, a, b - 1);
    }
  }

  /** Up and down undo each other, away from the sentinel. */
  lemma UpDown(h: History)
    requires h.Valid() && h.active.Some?
    ensures Down(Up(h)) == h && Up(Down(h)) == h
  {
  }
}
