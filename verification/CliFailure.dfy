/** What a registration that fails leaves behind. */
module CliFailure {
  import opened Bytes
  import opened CliKeys
  import opened CliIndex
  import opened CliTree

  /** A command in the element was registered before the registration of the element failed. */
  predicate LeavesBehind(cli: Cli, group: Option<nat>, node: Node)
    requires InRange(cli, group)
    decreases node, 1, 0
  {
    && node.Cmd?
    && var d := ReadAttrs(cli, GroupId(cli.specs, group), node.attrs, BLANK);
       var begun := Begun(cli, group, d);
       d.status == Success && |cli.specs| < |begun.specs| && SubsRegister(begun, |cli.specs|, node, 0, 0)
  }

  /** A command is registered by the children from the i-th on, up to the first that fails. */
  predicate SubsRegister(cli: Cli, h: nat, node: Node, i: nat, args: nat)
    requires h < |cli.specs| && node.Cmd? && i <= |node.subs|
    decreases node, 0, |node.subs| - i
  {
    i < |node.subs|
    && match node.subs[i]
       case Cmd(_, _) => Add(cli, Some(h), node.subs[i]).status == Success || LeavesBehind(cli, Some(h), node.subs[i])
       case Arg => args < MAX_ARGS && SubsRegister(cli, h, node, i + 1, args + 1)
       case Ignored => SubsRegister(cli, h, node, i + 1, args)
  }

  /** The commands before the n-th and the top of the tree are the same. */
  predicate SameTree(a: Cli, b: Cli, n: nat) {
    n <= |a.specs| && n <= |b.specs| && a.specs[..n] == b.specs[..n] && a.top == b.top
  }

  predicate SameHashes(a: Cli, b: Cli) {
    a.nameHash == b.nameHash && a.idHash == b.idHash
  }

  lemma {:induction false} IdFree(cli: Cli, group: Option<int>, attrs: seq<Attr>, d: Draft)
    requires d.id == 0 || d.id !in cli.idHash
    ensures var r := ReadAttrs(cli, group, attrs, d); r.id == 0 || r.id !in cli.idHash
    decreases |attrs|
  {
    hide KeyOf, ReadShortcuts;
    if attrs != [] && d.status == Success {
      if attrs[0].Shortcuts? {
        ShortcutsKeep(cli, attrs[0].names, d);
      }
      IdFree(cli, group, attrs[1..], ReadAttr(cli, group, attrs[0], d));
    }
  }

  lemma {:induction false} ShortcutsKeep(cli: Cli, names: seq<string>, d: Draft)
    ensures ReadShortcuts(cli, names, d).id == d.id && ReadShortcuts(cli, names, d).name == d.name
  {
    hide RootKey;
    if names != [] {
      if names[0] == "" {
        ShortcutsKeep(cli, names[1..], d);
      } else if |d.sc| < MAX_SHORTCUTS && RootKey(names[0]) !in cli.nameHash {
        ShortcutsKeep(cli, names[1..], d.(sc := d.sc + [names[0]]));
      }
    }
  }

  lemma {:induction false} NameFree(cli: Cli, group: Option<int>, attrs: seq<Attr>, d: Draft)
    requires d.name == "" || KeyOf(group, d.name) !in cli.nameHash
    ensures var r := ReadAttrs(cli, group, attrs, d); r.name == "" || KeyOf(group, r.name) !in cli.nameHash
    decreases |attrs|
  {
    hide KeyOf, ReadShortcuts;
    if attrs != [] && d.status == Success {
      if attrs[0].Shortcuts? {
        ShortcutsKeep(cli, attrs[0].names, d);
      }
      NameFree(cli, group, attrs[1..], ReadAttr(cli, group, attrs[0], d));
    }
  }

  /** No id is lost, a success adds one; a failure leaves the tree as it was, and adds an id or leaves both hashes. */
  ghost predicate Accounted(a: Cli, group: Option<nat>, node: Node, r: Added)
    requires InRange(a, group)
  {
    && a.idHash.Keys <= r.cli.idHash.Keys
    && (r.status == Success ==> a.idHash.Keys != r.cli.idHash.Keys)
    && (r.status != Success ==> SameTree(a, r.cli, |a.specs|))
    && (r.status != Success && LeavesBehind(a, group, node) ==> a.idHash.Keys != r.cli.idHash.Keys)
    && (r.status != Success && !LeavesBehind(a, group, node) ==> SameHashes(a, r.cli))
  }

  ghost predicate SubsAccounted(c: Cli, h: nat, r: Cli, register: bool) {
    && c.idHash.Keys <= r.idHash.Keys && SameTree(c, r, h)
    && (register ==> c.idHash.Keys != r.idHash.Keys) && (!register ==> SameHashes(c, r))
  }

  lemma {:induction false} AddAccounted(a: Cli, group: Option<nat>, node: Node)
    requires InRange(a, group)
    ensures Accounted(a, group, node, Add(a, group, node))
    decreases node, 1, 0
  {
    hide ReadAttrs, AddSubs, Indexed, Begun, SubsRegister, Add;
    AddCases(a, group, node);
    if node.Cmd? {
      var d, h := ReadAttrs(a, GroupId(a.specs, group), node.attrs, BLANK), |a.specs|;
      if d.status == Success {
        var begun := Begun(a, group, d);
        BegunSpecs(a, group, d);
        AddSubsAccounted(begun, h, node, 0, 0);
        var r := AddSubs(begun, h, node, 0, 0);
        FailedTree(a, begun, r.cli, h);
        IdFree(a, GroupId(a.specs, group), node.attrs, BLANK);
        if Add(a, group, node).status == Success {
          IndexedIds(r.cli, h);
        }
      }
    }
  }

  lemma FailedTree(a: Cli, begun: Cli, r: Cli, h: nat)
    requires h == |a.specs| < |begun.specs| && begun.specs[..h] == a.specs && begun.top == a.top
    requires SameTree(begun, r, h)
    ensures SameTree(a, r, h)
  {
    assert a.specs[..h] == a.specs;
  }

  lemma IndexedIds(c: Cli, h: nat)
    requires h < |c.specs| && InRange(c, c.specs[h].group)
    ensures Indexed(c, h).idHash == c.idHash[c.specs[h].id := h]
  {
  }

  lemma {:induction false} AddSubsAccounted(c: Cli, h: nat, node: Node, i: nat, args: nat)
    requires h < |c.specs| && node.Cmd? && i <= |node.subs|
    ensures SubsAccounted(c, h, AddSubs(c, h, node, i, args).cli, SubsRegister(c, h, node, i, args))
    decreases node, 0, |node.subs| - i
  {
    hide Add, LeavesBehind, ReadAttrs;
    if i < |node.subs| {
      match node.subs[i]
      case Cmd(_, _) =>
        var r := Add(c, Some(h), node.subs[i]);
        AddAccounted(c, Some(h), node.subs[i]);
        if r.status == Success {
          AddMirrors(c, Some(h), node.subs[i]);
          AppendedTree(c, r.cli, h, |c.specs|);
          AddSubsAccounted(r.cli, h, node, i + 1, args);
        } else {
          ShorterTree(c, r.cli, h);
        }
      case Arg =>
        if args < MAX_ARGS {
          AddSubsAccounted(c, h, node, i + 1, args + 1);
        }
      case Ignored => AddSubsAccounted(c, h, node, i + 1, args);
    }
  }

  lemma AppendedTree(c: Cli, b: Cli, h: nat, n: nat)
    requires h < |c.specs| && OnlyAppended(c, b, Some(h), n)
    ensures SameTree(c, b, h)
  {
  }

  lemma ShorterTree(c: Cli, b: Cli, h: nat)
    requires h < |c.specs| && SameTree(c, b, |c.specs|)
    ensures SameTree(c, b, h)
  {
    assert c.specs[..|c.specs|][..h] == c.specs[..h] && b.specs[..|c.specs|][..h] == b.specs[..h];
  }

  /** A registration that fails never changes the tree; it leaves both hashes as they were if and only if no command in
      its element was registered before it failed. */
  lemma FailureHarmlessExactly(a: Cli, group: Option<nat>, node: Node)
    requires InRange(a, group) && Add(a, group, node).status != Success
    ensures SameTree(a, Add(a, group, node).cli, |a.specs|)
    ensures SameHashes(a, Add(a, group, node).cli) <==> !LeavesBehind(a, group, node)
  {
    hide Add, LeavesBehind;
    AddAccounted(a, group, node);
  }
}
