/** A registration puts the whole of its element into the command tree and touches nothing else there. */
module CliTree {
  import opened Bytes
  import opened CliKeys
  import opened CliIndex

  // ----- what an element says -----

  function LastName(attrs: seq<Attr>): string {
    if attrs == [] then ""
    else if attrs[|attrs| - 1].Name? then attrs[|attrs| - 1].value
    else LastName(attrs[..|attrs| - 1])
  }

  function LastId(attrs: seq<Attr>): int {
    if attrs == [] then 0
    else if attrs[|attrs| - 1] != Id(None) && attrs[|attrs| - 1].Id? then attrs[|attrs| - 1].number.value
    else LastId(attrs[..|attrs| - 1])
  }

  function NonEmpty(names: seq<string>): seq<string> {
    if names == [] then []
    else NonEmpty(names[..|names| - 1]) + (if names[|names| - 1] == "" then [] else [names[|names| - 1]])
  }

  function AllShortcuts(attrs: seq<Attr>): seq<string> {
    if attrs == [] then []
    else
      var last := attrs[|attrs| - 1];
      AllShortcuts(attrs[..|attrs| - 1]) + (if last.Shortcuts? then NonEmpty(last.names) else [])
  }

  predicate Labelled(id: int, name: string, sc: seq<string>, attrs: seq<Attr>) {
    name == LastName(attrs) && id == LastId(attrs) && sc == AllShortcuts(attrs)
  }

  // ----- the tree below a command -----

  /** The command h and its children, in order, are the element and the commands in it. */
  ghost predicate Mirrors(cli: Cli, h: nat, node: Node)
    decreases node, 1, 0
  {
    && node.Cmd? && h < |cli.specs|
    && Labelled(cli.specs[h].id, cli.specs[h].name, cli.specs[h].sc, node.attrs)
    && MirrorsSubs(cli, h, cli.specs[h].sub, node, |node.subs|)
  }

  /** The commands listed are the commands among the first i elements in the node; each was allocated after h. */
  ghost predicate MirrorsSubs(cli: Cli, h: nat, sub: seq<nat>, node: Node, i: nat)
    requires node.Cmd? && i <= |node.subs|
    decreases node, 0, i
  {
    if i == 0 then sub == []
    else if node.subs[i - 1].Cmd? then
      && sub != [] && h < sub[|sub| - 1]
      && Mirrors(cli, sub[|sub| - 1], node.subs[i - 1])
      && MirrorsSubs(cli, h, sub[..|sub| - 1], node, i - 1)
    else MirrorsSubs(cli, h, sub, node, i - 1)
  }

  /** The commands from the h-th on are the same. */
  ghost predicate SameFrom(a: Cli, b: Cli, h: nat) {
    |a.specs| <= |b.specs| && forall x :: h <= x < |a.specs| ==> a.specs[x] == b.specs[x]
  }

  lemma {:induction false} MirrorsKept(a: Cli, b: Cli, h: nat, node: Node)
    requires Mirrors(a, h, node) && SameFrom(a, b, h)
    ensures Mirrors(b, h, node)
    decreases node, 1, 0
  {
    hide Labelled;
    SubsKept(a, b, h, a.specs[h].sub, node, |node.subs|);
  }

  lemma {:induction false} SubsKept(a: Cli, b: Cli, h: nat, sub: seq<nat>, node: Node, i: nat)
    requires node.Cmd? && i <= |node.subs| && MirrorsSubs(a, h, sub, node, i) && SameFrom(a, b, h + 1)
    ensures MirrorsSubs(b, h, sub, node, i)
    decreases node, 0, i
  {
    hide Labelled;
    if i > 0 {
      if node.subs[i - 1].Cmd? {
        MirrorsKept(a, b, sub[|sub| - 1], node.subs[i - 1]);
        SubsKept(a, b, h, sub[..|sub| - 1], node, i - 1);
      } else {
        SubsKept(a, b, h, sub, node, i - 1);
      }
    }
  }

  // ----- the attributes -----

  lemma {:induction false} NonEmptyCons(first: string, rest: seq<string>)
    ensures NonEmpty([first] + rest) == (if first == "" then [] else [first]) + NonEmpty(rest)
  {
    if rest == [] {
      assert [first][..0] == [];
    } else {
      var init, last := rest[..|rest| - 1], rest[|rest| - 1];
      assert ([first] + rest)[..|rest|] == [first] + init;
      NonEmptyCons(first, init);
    }
  }

  lemma {:induction false} ShortcutsRead(cli: Cli, names: seq<string>, d: Draft)
    requires d.status == Success && ReadShortcuts(cli, names, d).status == Success
    ensures ReadShortcuts(cli, names, d) == d.(sc := d.sc + NonEmpty(names))
  {
    hide RootKey;
    if names == [] {
      assert d.sc + [] == d.sc;
    } else {
      assert names == [names[0]] + names[1..];
      NonEmptyCons(names[0], names[1..]);
      if names[0] == "" {
        ShortcutsRead(cli, names[1..], d);
        assert [] + NonEmpty(names[1..]) == NonEmpty(names[1..]);
      } else {
        ShortcutsRead(cli, names[1..], d.(sc := d.sc + [names[0]]));
        Assoc(d.sc, [names[0]], NonEmpty(names[1..]));
      }
    }
  }

  lemma {:induction false} AttrsRead(cli: Cli, group: Option<int>, done: seq<Attr>, rest: seq<Attr>, d: Draft)
    requires d.status == Success && Labelled(d.id, d.name, d.sc, done)
    requires ReadAttrs(cli, group, rest, d).status == Success
    ensures var r := ReadAttrs(cli, group, rest, d); Labelled(r.id, r.name, r.sc, done + rest)
    decreases |rest|
  {
    if rest == [] {
      assert done + rest == done;
    } else {
      hide ReadShortcuts, NonEmpty;
      var a := rest[0];
      var e := ReadAttr(cli, group, a, d);
      AttrRead(cli, group, done, a, d);
      assert done + [a] + rest[1..] == done + rest;
      AttrsRead(cli, group, done + [a], rest[1..], e);
    }
  }

  lemma AttrRead(cli: Cli, group: Option<int>, done: seq<Attr>, a: Attr, d: Draft)
    requires d.status == Success && Labelled(d.id, d.name, d.sc, done)
    requires ReadAttr(cli, group, a, d).status == Success
    ensures var e := ReadAttr(cli, group, a, d); Labelled(e.id, e.name, e.sc, done + [a])
  {
    hide ReadShortcuts, NonEmpty;
    assert (done + [a])[..|done|] == done && (done + [a])[|done|] == a;
    if a.Shortcuts? {
      ShortcutsRead(cli, a.names, d);
    }
    assert AllShortcuts(done) + [] == AllShortcuts(done);
  }

  // ----- a registration -----

  /** The commands before are the same but for the new one at the end of its group's list or of the top. */
  ghost predicate OnlyAppended(a: Cli, r: Cli, group: Option<nat>, h: nat) {
    && |a.specs| <= |r.specs|
    && (forall x :: 0 <= x < |a.specs| ==>
          r.specs[x] == if group == Some(x) then a.specs[x].(sub := a.specs[x].sub + [h]) else a.specs[x])
    && r.top == if group.None? then a.top + [h] else a.top
  }

  /** The children of h have been appended to its list; nothing else changed. */
  ghost predicate OnlyBelow(c: Cli, r: Cli, h: nat)
    requires h < |c.specs|
  {
    && |c.specs| <= |r.specs| && r.top == c.top
    && (forall x :: 0 <= x < |c.specs| && x != h ==> r.specs[x] == c.specs[x])
    && r.specs[h] == c.specs[h].(sub := r.specs[h].sub)
  }

  /** A successful registration adds the tree of its element, with every child command in order, at the end of its
      group's list, and leaves every other command as it was. */
  lemma {:induction false} AddMirrors(a: Cli, group: Option<nat>, node: Node)
    requires InRange(a, group) && Add(a, group, node).status == Success
    ensures var r, h := Add(a, group, node).cli, |a.specs|;
            Mirrors(r, h, node) && OnlyAppended(a, r, group, h) && r.specs[h].group == group
    decreases node, 1, 0
  {
    hide ReadAttrs, AddSubs, Labelled, MirrorsSubs, Begun, Indexed;
    AddCases(a, group, node);
    var h, d := |a.specs|, ReadAttrs(a, GroupId(a.specs, group), node.attrs, BLANK);
    BlankLabelled();
    AttrsRead(a, GroupId(a.specs, group), [], node.attrs, BLANK);
    assert [] + node.attrs == node.attrs;
    var begun := Begun(a, group, d);
    BegunSpecs(a, group, d);
    NoSubs(begun, h, node);
    AddSubsMirrors(begun, h, node, 0, 0);
    var c := AddSubs(begun, h, node, 0, 0).cli;
    IndexedOnly(c, h);
    var r := Indexed(c, h);
    SubsKept(c, r, h, c.specs[h].sub, node, |node.subs|);
  }

  lemma BlankLabelled()
    ensures Labelled(BLANK.id, BLANK.name, BLANK.sc, [])
  {
  }

  lemma NoSubs(cli: Cli, h: nat, node: Node)
    requires node.Cmd?
    ensures MirrorsSubs(cli, h, [], node, 0)
  {
  }

  lemma IndexedOnly(c: Cli, h: nat)
    requires h < |c.specs| && (c.specs[h].group.Some? ==> c.specs[h].group.value < h)
    ensures OnlyAppended(c, Indexed(c, h), c.specs[h].group, h) && |Indexed(c, h).specs| == |c.specs|
  {
    hide WithShortcuts, KeyOf;
  }

  lemma {:induction false} AddSubsMirrors(c: Cli, h: nat, node: Node, i: nat, args: nat)
    requires h < |c.specs| && node.Cmd? && i <= |node.subs|
    requires MirrorsSubs(c, h, c.specs[h].sub, node, i) && AddSubs(c, h, node, i, args).status == Success
    ensures var r := AddSubs(c, h, node, i, args).cli;
            OnlyBelow(c, r, h) && MirrorsSubs(r, h, r.specs[h].sub, node, |node.subs|)
    decreases node, 0, |node.subs| - i
  {
    hide Add, Mirrors;
    if i < |node.subs| {
      match node.subs[i]
      case Cmd(_, _) =>
        var b, n := Add(c, Some(h), node.subs[i]).cli, |c.specs|;
        AddMirrors(c, Some(h), node.subs[i]);
        SubsKept(c, b, h, c.specs[h].sub, node, i);
        assert b.specs[h].sub[..|c.specs[h].sub|] == c.specs[h].sub;
        assert n < |b.specs| by {
          MirrorsInRange(b, n, node.subs[i]);
        }
        assert MirrorsSubs(b, h, b.specs[h].sub, node, i + 1);
        AddSubsMirrors(b, h, node, i + 1, args);
      case Arg => AddSubsMirrors(c, h, node, i + 1, args + 1);
      case Ignored => AddSubsMirrors(c, h, node, i + 1, args);
    }
  }

  lemma MirrorsInRange(cli: Cli, h: nat, node: Node)
    requires Mirrors(cli, h, node)
    ensures h < |cli.specs|
  {
  }
}
