/** Registering CLI commands: the command tree, the flat hash that stands in for it, and the hash of ids. */
module CliIndex {
  import opened Bytes
  import opened CliKeys

  const MAX_SHORTCUTS: nat := 4
  const MAX_ARGS: nat := 8
  const ROOT_ID := 0

  datatype Status = Success | EInval | EBadName | EBadId | ETooManyArgs

  /** An attribute of a CMD element: a name without its leading spaces, an id (None where it is empty), shortcuts as
      the scanner splits them. */
  datatype Attr = Name(value: string) | Id(number: Option<int>) | Shortcuts(names: seq<string>) | OtherAttr

  datatype Node = Cmd(attrs: seq<Attr>, subs: seq<Node>) | Arg | Ignored

  /** A command; group is the command it is registered under, which the source does not keep. */
  datatype Spec = Spec(id: int, name: string, sc: seq<string>, group: Option<nat>, sub: seq<nat>)

  /** Commands are numbered in the order they are allocated; the numbers stand for the pointers. */
  datatype Cli = Cli(specs: seq<Spec>, top: seq<nat>, nameHash: map<string, nat>, idHash: map<int, nat>)

  datatype Draft = Draft(status: Status, id: int, name: string, sc: seq<string>)

  datatype Added = Added(status: Status, cli: Cli)

  function GroupId(specs: seq<Spec>, group: Option<nat>): Option<int>
    requires group.Some? ==> group.value < |specs|
  {
    if group.None? then None else Some(specs[group.value].id)
  }

  function RootKey(name: string): string {
    KeyOf(Some(ROOT_ID), name)
  }

  // ----- the attributes -----

  function ReadShortcuts(cli: Cli, names: seq<string>, d: Draft): Draft {
    if names == [] then d
    else if names[0] == "" then ReadShortcuts(cli, names[1..], d)
    else if |d.sc| >= MAX_SHORTCUTS then d.(status := ETooManyArgs)
    else if RootKey(names[0]) in cli.nameHash then d.(status := EBadName)
    else ReadShortcuts(cli, names[1..], d.(sc := d.sc + [names[0]]))
  }

  function ReadAttr(cli: Cli, group: Option<int>, attr: Attr, d: Draft): Draft {
    match attr
    case Name(value) =>
      if value == "" || KeyOf(group, value) in cli.nameHash then d.(status := EBadName) else d.(name := value)
    case Id(number) =>
      if number.None? || number.value in cli.idHash then d.(status := EBadId) else d.(id := number.value)
    case Shortcuts(names) => ReadShortcuts(cli, names, d)
    case OtherAttr => d
  }

  function ReadAttrs(cli: Cli, group: Option<int>, attrs: seq<Attr>, d: Draft): Draft {
    if attrs == [] || d.status != Success then d
    else ReadAttrs(cli, group, attrs[1..], ReadAttr(cli, group, attrs[0], d))
  }

  const BLANK := Draft(Success, 0, "", [])

  // ----- the command and its children -----

  function Begun(cli: Cli, group: Option<nat>, d: Draft): Cli {
    cli.(specs := cli.specs + [Spec(d.id, d.name, d.sc, group, [])])
  }

  function WithShortcuts(hash: map<string, nat>, sc: seq<string>, h: nat): map<string, nat> {
    if sc == [] then hash else WithShortcuts(hash, sc[..|sc| - 1], h)[RootKey(sc[|sc| - 1]) := h]
  }

  /** The last part of add_cmd_node: the hashes, and the list of the group or of the root. */
  function Indexed(cli: Cli, h: nat): Cli
    requires h < |cli.specs| && (cli.specs[h].group.Some? ==> cli.specs[h].group.value < |cli.specs|)
  {
    var s := cli.specs[h];
    var named := cli.(nameHash := WithShortcuts(cli.nameHash, s.sc, h)[KeyOf(GroupId(cli.specs, s.group), s.name) := h],
                      idHash := cli.idHash[s.id := h]);
    if s.group.None? then named.(top := named.top + [h])
    else
      var g := s.group.value;
      named.(specs := named.specs[g := named.specs[g].(sub := named.specs[g].sub + [h])])
  }

  predicate InRange(cli: Cli, group: Option<nat>) {
    group.Some? ==> group.value < |cli.specs|
  }

  /** The specs before the first n are kept but for their lists of children. */
  predicate Kept(a: Cli, b: Cli) {
    |a.specs| <= |b.specs| && forall h :: 0 <= h < |a.specs| ==> a.specs[h] == b.specs[h].(sub := a.specs[h].sub)
  }

  function Add(cli: Cli, group: Option<nat>, node: Node): (r: Added)
    requires InRange(cli, group)
    ensures Kept(cli, r.cli)
    decreases node, 1, 0
  {
    if !node.Cmd? then Added(EInval, cli)
    else
      var d := ReadAttrs(cli, GroupId(cli.specs, group), node.attrs, BLANK);
      if d.status != Success then Added(d.status, cli)
      else
        var h := |cli.specs|;
        var begun := Begun(cli, group, d);
        assert Kept(cli, begun) && begun.specs[h] == Spec(d.id, d.name, d.sc, group, []);
        var r := AddSubs(begun, h, node, 0, 0);
        assert Kept(begun, r.cli);
        if r.status != Success then r
        else if d.name == "" then r.(status := EBadName)
        else if d.id == 0 then r.(status := EBadId)
        else Added(Success, Indexed(r.cli, h))
  }

  /** The children from the i-th on; args is how many of those before are arguments. */
  function AddSubs(cli: Cli, h: nat, node: Node, i: nat, args: nat): (r: Added)
    requires h < |cli.specs| && node.Cmd? && i <= |node.subs|
    ensures Kept(cli, r.cli)
    decreases node, 0, |node.subs| - i
  {
    if i == |node.subs| then Added(Success, cli)
    else
      match node.subs[i]
      case Cmd(_, _) =>
        var r := Add(cli, Some(h), node.subs[i]);
        if r.status != Success then r else AddSubs(r.cli, h, node, i + 1, args)
      case Arg => if args >= MAX_ARGS then Added(ETooManyArgs, cli) else AddSubs(cli, h, node, i + 1, args + 1)
      case Ignored => AddSubs(cli, h, node, i + 1, args)
  }

  /** get_cmd_name under a group. */
  function Lookup(cli: Cli, group: Option<int>, name: string): Option<nat> {
    var key := KeyOf(group, name);
    if key in cli.nameHash then Some(cli.nameHash[key]) else None
  }

  /** The registration itself: loops over attributes, children and shortcuts, and a call for each child command. */
  class Commands {
    var specs: seq<Spec>
    var top: seq<nat>
    var nameHash: map<string, nat>
    var idHash: map<int, nat>

    ghost function Now(): Cli
      reads this
    {
      Cli(specs, top, nameHash, idHash)
    }

    constructor ()
      ensures Now() == Cli([], [], map[], map[])
    {
      specs, top, nameHash, idHash := [], [], map[], map[];
    }

    method ScanShortcuts(names: seq<string>, d: Draft) returns (r: Draft)
      requires d.status == Success
      ensures r == ReadShortcuts(Now(), names, d)
    {
      r := d;
      for i := 0 to |names|
        invariant r.status == Success && ReadShortcuts(Now(), names[i..], r) == ReadShortcuts(Now(), names, d)
      {
        if names[i] == "" {
          continue;
        }
        if |r.sc| >= MAX_SHORTCUTS {
          return r.(status := ETooManyArgs);
        }
        if RootKey(names[i]) in nameHash {
          return r.(status := EBadName);
        }
        r := r.(sc := r.sc + [names[i]]);
      }
    }

    method ScanAttrs(group: Option<int>, attrs: seq<Attr>) returns (d: Draft)
      ensures d == ReadAttrs(Now(), group, attrs, BLANK)
    {
      d := BLANK;
      for i := 0 to |attrs|
        invariant d.status == Success && ReadAttrs(Now(), group, attrs[i..], d) == ReadAttrs(Now(), group, attrs, BLANK)
      {
        ghost var before := d;
        match attrs[i] {
          case Name(value) =>
            if value == "" || KeyOf(group, value) in nameHash {
              return d.(status := EBadName);
            }
            d := d.(name := value);
          case Id(number) =>
            if number.None? || number.value in idHash {
              return d.(status := EBadId);
            }
            d := d.(id := number.value);
          case Shortcuts(names) =>
            d := ScanShortcuts(names, d);
          case OtherAttr =>
        }
        assert d == ReadAttr(Now(), group, attrs[i], before);
        if d.status != Success {
          return;
        }
      }
    }

    /** add_cmd_name for each shortcut, under the root. */
    method AddShortcuts(sc: seq<string>, h: nat)
      modifies this`nameHash
      ensures nameHash == WithShortcuts(old(nameHash), sc, h)
    {
      for i := 0 to |sc|
        invariant nameHash == WithShortcuts(old(nameHash), sc[..i], h)
      {
        assert sc[..i + 1][..i] == sc[..i];
        nameHash := nameHash[RootKey(sc[i]) := h];
      }
      assert sc[..|sc|] == sc;
    }

    method Index(h: nat)
      requires h < |specs| && InRange(Now(), specs[h].group)
      modifies this
      ensures Now() == Indexed(old(Now()), h)
    {
      var s := specs[h];
      AddShortcuts(s.sc, h);
      nameHash := nameHash[KeyOf(GroupId(specs, s.group), s.name) := h];
      idHash := idHash[s.id := h];
      if s.group.Some? {
        var g := s.group.value;
        specs := specs[g := specs[g].(sub := specs[g].sub + [h])];
      } else {
        top := top + [h];
      }
    }

    method AddCmdNode(group: Option<nat>, node: Node) returns (status: Status)
      requires InRange(Now(), group)
      modifies this
      ensures Added(status, Now()) == Add(old(Now()), group, node)
      decreases node, 1
    {
      hide ReadAttrs, Add, AddSubs, Indexed, Begun;
      AddCases(Now(), group, node);
      if !node.Cmd? {
        return EInval;
      }
      var d := ScanAttrs(GroupId(specs, group), node.attrs);
      if d.status != Success {
        return d.status;
      }
      var h := |specs|;
      ghost var begun := Begun(Now(), group, d);
      specs := specs + [Spec(d.id, d.name, d.sc, group, [])];
      BegunSpecs(old(Now()), group, d);
      status := AddChildren(h, node);
      if status != Success {
        return;
      }
      if d.name == "" {
        return EBadName;
      }
      if d.id == 0 {
        return EBadId;
      }
      Index(h);
    }

    method AddChildren(h: nat, node: Node) returns (status: Status)
      requires h < |specs| && node.Cmd?
      modifies this
      ensures Added(status, Now()) == AddSubs(old(Now()), h, node, 0, 0)
      decreases node, 0
    {
      hide Add;
      var args := 0;
      for i := 0 to |node.subs|
        invariant h < |specs| && AddSubs(Now(), h, node, i, args) == AddSubs(old(Now()), h, node, 0, 0)
      {
        match node.subs[i] {
          case Cmd(_, _) =>
            ghost var before := Now();
            status := AddCmdNode(Some(h), node.subs[i]);
            assert Kept(before, Now());
            if status != Success {
              return;
            }
          case Arg =>
            if args >= MAX_ARGS {
              return ETooManyArgs;
            }
            args := args + 1;
          case Ignored =>
        }
      }
      status := Success;
    }
  }

  lemma BegunSpecs(cli: Cli, group: Option<nat>, d: Draft)
    ensures Begun(cli, group, d) == cli.(specs := cli.specs + [Spec(d.id, d.name, d.sc, group, [])])
  {
  }

  lemma AddCases(cli: Cli, group: Option<nat>, node: Node)
    requires InRange(cli, group)
    ensures !node.Cmd? ==> Add(cli, group, node) == Added(EInval, cli)
    ensures node.Cmd? ==>
              var h, d := |cli.specs|, ReadAttrs(cli, GroupId(cli.specs, group), node.attrs, BLANK);
              if d.status != Success then Add(cli, group, node) == Added(d.status, cli)
              else
                var begun := Begun(cli, group, d);
                && h < |begun.specs|
                && var r := AddSubs(begun, h, node, 0, 0);
                   && Kept(begun, r.cli) && h < |r.cli.specs| && InRange(r.cli, r.cli.specs[h].group)
                   && Add(cli, group, node) == if r.status != Success then r
                                               else if d.name == "" then r.(status := EBadName)
                                               else if d.id == 0 then r.(status := EBadId)
                                               else Added(Success, Indexed(r.cli, h))
  {
    hide ReadAttrs, AddSubs, Indexed;
  }
}
