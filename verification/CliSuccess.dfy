/** When an element is registered: from the element alone and the names and ids that are taken. */
module CliSuccess {
  import opened Bytes
  import opened CliKeys
  import opened CliIndex
  import opened CliTree

  /** The names and shortcuts, as keys of the hash, and the ids that are taken. */
  datatype Used = Used(names: set<string>, ids: set<int>)

  function UsedBy(cli: Cli): Used {
    Used(cli.nameHash.Keys, cli.idHash.Keys)
  }

  // ----- the element -----

  predicate AttrFine(u: Used, group: Option<int>, a: Attr) {
    match a
    case Name(value) => value != "" && KeyOf(group, value) !in u.names
    case Id(number) => number.Some? && number.value !in u.ids
    case Shortcuts(names) => forall s :: s in names && s != "" ==> KeyOf(Some(0), s) !in u.names
    case OtherAttr => true
  }

  function Arguments(subs: seq<Node>): nat
    decreases |subs|
  {
    if subs == [] then 0 else Arguments(subs[..|subs| - 1]) + if subs[|subs| - 1] == Arg then 1 else 0
  }

  /** The element is a command with a name, an id other than 0, at most four shortcuts and eight arguments; nothing that
      it says is taken, and its commands can be registered one after the other. */
  predicate Registrable(u: Used, group: Option<int>, node: Node)
    decreases node, 1, 0
  {
    && node.Cmd?
    && (forall a :: a in node.attrs ==> AttrFine(u, group, a))
    && |AllShortcuts(node.attrs)| <= 4
    && LastName(node.attrs) != "" && LastId(node.attrs) != 0
    && Arguments(node.subs) <= 8
    && SubsRegistrable(u, node, |node.subs|)
  }

  predicate SubsRegistrable(u: Used, node: Node, n: nat)
    requires node.Cmd? && n <= |node.subs|
    decreases node, 0, n
  {
    n == 0
    || (SubsRegistrable(u, node, n - 1)
        && (node.subs[n - 1].Cmd? ==>
              Registrable(SubsTake(u, node, n - 1), Some(LastId(node.attrs)), node.subs[n - 1])))
  }

  /** What is taken once the element is registered: its commands' names and ids, and its own. */
  function Takes(u: Used, group: Option<int>, node: Node): Used
    requires node.Cmd?
    decreases node, 1, 0
  {
    var subs := SubsTake(u, node, |node.subs|);
    Used(subs.names + {KeyOf(group, LastName(node.attrs))}
                    + (set s | s in AllShortcuts(node.attrs) :: KeyOf(Some(0), s)),
         subs.ids + {LastId(node.attrs)})
  }

  function SubsTake(u: Used, node: Node, n: nat): Used
    requires node.Cmd? && n <= |node.subs|
    decreases node, 0, n
  {
    if n == 0 then u
    else
      var before := SubsTake(u, node, n - 1);
      if node.subs[n - 1].Cmd? then Takes(before, Some(LastId(node.attrs)), node.subs[n - 1]) else before
  }

  // ----- the attributes -----

  lemma {:induction false} ShortcutsAccepted(cli: Cli, names: seq<string>, d: Draft)
    requires d.status == Success && |d.sc| <= 4
    ensures ReadShortcuts(cli, names, d).status == Success <==>
              && |d.sc| + |NonEmpty(names)| <= 4
              && forall s :: s in names && s != "" ==> KeyOf(Some(0), s) !in cli.nameHash
    decreases |names|
  {
    hide KeyOf;
    if names != [] {
      var first, rest := names[0], names[1..];
      assert names == [first] + rest && first in names;
      assert forall s :: s in names <==> s == first || s in rest;
      NonEmptyCons(first, rest);
      if first == "" {
        ShortcutsAccepted(cli, rest, d);
      } else if |d.sc| < 4 && KeyOf(Some(0), first) !in cli.nameHash {
        ShortcutsAccepted(cli, rest, d.(sc := d.sc + [first]));
      }
    }
  }

  lemma {:induction false} AllShortcutsCons(first: Attr, rest: seq<Attr>)
    ensures AllShortcuts([first] + rest)
         == (if first.Shortcuts? then NonEmpty(first.names) else []) + AllShortcuts(rest)
    decreases |rest|
  {
    hide NonEmpty;
    if rest == [] {
      assert [first][..0] == [];
    } else {
      var init, last := rest[..|rest| - 1], rest[|rest| - 1];
      assert ([first] + rest)[..|rest|] == [first] + init;
      AllShortcutsCons(first, init);
    }
  }

  lemma {:induction false} AttrsAccepted(cli: Cli, group: Option<int>, attrs: seq<Attr>, d: Draft)
    requires d.status == Success && |d.sc| <= 4
    ensures ReadAttrs(cli, group, attrs, d).status == Success <==>
              && (forall a :: a in attrs ==> AttrFine(UsedBy(cli), group, a))
              && |d.sc| + |AllShortcuts(attrs)| <= 4
    decreases |attrs|
  {
    hide KeyOf, NonEmpty, ReadShortcuts;
    if attrs != [] {
      var first, rest := attrs[0], attrs[1..];
      assert attrs == [first] + rest && first in attrs;
      assert forall a :: a in attrs <==> a == first || a in rest;
      AllShortcutsCons(first, rest);
      FirstAccepted(cli, group, first, d);
      var next := ReadAttr(cli, group, first, d);
      if next.status == Success {
        AttrsAccepted(cli, group, rest, next);
      }
    }
  }

  lemma FirstAccepted(cli: Cli, group: Option<int>, a: Attr, d: Draft)
    requires d.status == Success && |d.sc| <= 4
    ensures var count := if a.Shortcuts? then |NonEmpty(a.names)| else 0;
            var next := ReadAttr(cli, group, a, d);
            && (next.status == Success <==> AttrFine(UsedBy(cli), group, a) && |d.sc| + count <= 4)
            && (next.status == Success ==> |next.sc| == |d.sc| + count)
  {
    hide KeyOf, NonEmpty, ReadShortcuts;
    if a.Shortcuts? {
      ShortcutsAccepted(cli, a.names, d);
      if ReadShortcuts(cli, a.names, d).status == Success {
        ShortcutsRead(cli, a.names, d);
      }
    }
  }

  // ----- the registration -----

  lemma {:induction false} RegistrableUpTo(u: Used, node: Node, i: nat, n: nat)
    requires node.Cmd? && i <= n <= |node.subs| && SubsRegistrable(u, node, n)
    ensures SubsRegistrable(u, node, i)
    decreases n - i
  {
    hide Registrable;
    if i < n {
      RegistrableUpTo(u, node, i, n - 1);
    }
  }

  lemma {:induction false} ArgumentsUpTo(subs: seq<Node>, i: nat)
    requires i <= |subs|
    ensures Arguments(subs[..i]) <= Arguments(subs)
    decreases |subs| - i
  {
    if i == |subs| {
      assert subs[..i] == subs;
    } else {
      ArgumentsUpTo(subs, i + 1);
      assert subs[..i + 1][..i] == subs[..i];
    }
  }

  /** The children before the i-th have been registered, and args of them were arguments. */
  ghost predicate Through(u: Used, cli: Cli, h: nat, node: Node, i: nat, args: nat)
  {
    && h < |cli.specs| && node.Cmd? && i <= |node.subs| && cli.specs[h].id == LastId(node.attrs)
    && SubsRegistrable(u, node, i) && UsedBy(cli) == SubsTake(u, node, i)
    && args == Arguments(node.subs[..i]) <= 8
  }

  lemma {:induction false} SubsAccepted(u: Used, cli: Cli, h: nat, node: Node, i: nat, args: nat)
    requires Through(u, cli, h, node, i, args)
    ensures var r := AddSubs(cli, h, node, i, args);
            && (r.status == Success <==> SubsRegistrable(u, node, |node.subs|) && Arguments(node.subs) <= 8)
            && (r.status == Success ==> UsedBy(r.cli) == SubsTake(u, node, |node.subs|))
    decreases node, 0, |node.subs| - i
  {
    hide Registrable, Takes, Add, GroupId;
    if i == |node.subs| {
      assert node.subs[..i] == node.subs;
    } else {
      assert node.subs[..i + 1][..i] == node.subs[..i];
      ArgumentsUpTo(node.subs, i + 1);
      if SubsRegistrable(u, node, |node.subs|) {
        RegistrableUpTo(u, node, i + 1, |node.subs|);
      }
      match node.subs[i] {
        case Cmd(_, _) =>
          var r := Add(cli, Some(h), node.subs[i]);
          OwnGroup(cli, h);
          AddAccepted(cli, Some(h), node.subs[i]);
          if r.status == Success {
            SubsAccepted(u, r.cli, h, node, i + 1, args);
          }
        case Arg =>
          if args < 8 {
            SubsAccepted(u, cli, h, node, i + 1, args + 1);
          }
        case Ignored => SubsAccepted(u, cli, h, node, i + 1, args);
      }
    }
  }

  lemma OwnGroup(cli: Cli, h: nat)
    requires h < |cli.specs|
    ensures GroupId(cli.specs, Some(h)) == Some(cli.specs[h].id)
  {
  }

  lemma Starts(cli: Cli, group: Option<nat>, node: Node, d: Draft)
    requires node.Cmd? && d.id == LastId(node.attrs)
    ensures Through(UsedBy(cli), Begun(cli, group, d), |cli.specs|, node, 0, 0)
  {
    hide LastId;
    assert node.subs[..0] == [];
  }

  lemma {:induction false} ShortcutKeys(hash: map<string, nat>, sc: seq<string>, h: nat)
    ensures WithShortcuts(hash, sc, h).Keys == hash.Keys + (set s | s in sc :: KeyOf(Some(0), s))
  {
    hide KeyOf;
    if sc == [] {
      assert (set s | s in sc :: KeyOf(Some(0), s)) == {};
    } else {
      var init, last := sc[..|sc| - 1], sc[|sc| - 1];
      assert sc == init + [last];
      ShortcutKeys(hash, init, h);
      assert (set s | s in sc :: KeyOf(Some(0), s))
          == (set s | s in init :: KeyOf(Some(0), s)) + {KeyOf(Some(0), last)};
    }
  }

  /** The command's own names and its id are taken last. */
  lemma IndexedTakes(u: Used, c: Cli, h: nat, group: Option<int>, node: Node)
    requires h < |c.specs| && InRange(c, c.specs[h].group) && node.Cmd?
    requires Labelled(c.specs[h].id, c.specs[h].name, c.specs[h].sc, node.attrs)
    requires GroupId(c.specs, c.specs[h].group) == group && UsedBy(c) == SubsTake(u, node, |node.subs|)
    ensures UsedBy(Indexed(c, h)) == Takes(u, group, node)
  {
    hide KeyOf, WithShortcuts, AllShortcuts, LastName, LastId, SubsTake;
    var s := c.specs[h];
    ShortcutKeys(c.nameHash, s.sc, h);
    assert Indexed(c, h).nameHash == WithShortcuts(c.nameHash, s.sc, h)[KeyOf(group, s.name) := h];
  }

  lemma GroupKept(a: Cli, b: Cli, group: Option<nat>)
    requires Kept(a, b) && InRange(a, group)
    ensures InRange(b, group) && GroupId(b.specs, group) == GroupId(a.specs, group)
  {
  }

  /** An element is registered if and only if it is registrable where it is put; and then its names and ids are
      taken. */
  lemma {:induction false} AddAccepted(cli: Cli, group: Option<nat>, node: Node)
    requires InRange(cli, group)
    ensures var r, g := Add(cli, group, node), GroupId(cli.specs, group);
            && (r.status == Success <==> Registrable(UsedBy(cli), g, node))
            && (r.status == Success ==> UsedBy(r.cli) == Takes(UsedBy(cli), g, node))
    decreases node, 1, 0
  {
    hide ReadAttrs, AddSubs, Add, Labelled, AllShortcuts, LastName, LastId, SubsRegistrable, SubsTake, Takes, AttrFine,
      Through, Indexed, UsedBy, GroupId, Begun;
    AddCases(cli, group, node);
    if node.Cmd? {
      var g, h := GroupId(cli.specs, group), |cli.specs|;
      var d := ReadAttrs(cli, g, node.attrs, BLANK);
      AttrsAccepted(cli, g, node.attrs, BLANK);
      if d.status == Success {
        BlankLabelled();
        AttrsRead(cli, g, [], node.attrs, BLANK);
        assert [] + node.attrs == node.attrs;
        Meaning(d, node.attrs);
        var begun := Begun(cli, group, d);
        Starts(cli, group, node, d);
        BegunSpecs(cli, group, d);
        SubsAccepted(UsedBy(cli), begun, h, node, 0, 0);
        var r := AddSubs(begun, h, node, 0, 0);
        if r.status == Success && d.name != "" && d.id != 0 {
          GroupKept(begun, r.cli, group);
          GroupBegun(cli, group, d);
          IndexedTakes(UsedBy(cli), r.cli, h, g, node);
        }
      }
    }
  }

  lemma Meaning(d: Draft, attrs: seq<Attr>)
    requires Labelled(d.id, d.name, d.sc, attrs)
    ensures d.id == LastId(attrs) && d.name == LastName(attrs)
  {
  }

  lemma GroupBegun(cli: Cli, group: Option<nat>, d: Draft)
    requires InRange(cli, group)
    ensures var b := Begun(cli, group, d); InRange(b, group) && GroupId(b.specs, group) == GroupId(cli.specs, group)
  {
  }
}
