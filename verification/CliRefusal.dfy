/** Why an element is refused: the first thing in it that cannot be registered, and the status for that. */
module CliRefusal {
  import opened Bytes
  import opened CliKeys
  import opened CliIndex
  import opened CliTree
  import opened CliSuccess

  predicate AttrsFine(u: Used, group: Option<int>, attrs: seq<Attr>) {
    (forall a :: a in attrs ==> AttrFine(u, group, a)) && |AllShortcuts(attrs)| <= 4
  }

  /** The k-th name is the first shortcut, behind the given number of others, that is one too many or taken. */
  predicate ShortcutFault(u: Used, others: nat, names: seq<string>, k: nat, status: Status) {
    && k < |names| && names[k] != ""
    && (forall s :: s in names[..k] && s != "" ==> KeyOf(Some(0), s) !in u.names)
    && if others + |NonEmpty(names[..k])| >= 4 then others + |NonEmpty(names[..k])| == 4 && status == ETooManyArgs
       else KeyOf(Some(0), names[k]) in u.names && status == EBadName
  }

  ghost predicate AttrFault(u: Used, group: Option<int>, others: nat, a: Attr, status: Status) {
    match a
    case Name(value) => (value == "" || KeyOf(group, value) in u.names) && status == EBadName
    case Id(number) => (number.None? || number.value in u.ids) && status == EBadId
    case Shortcuts(names) => exists k: nat :: ShortcutFault(u, others, names, k, status)
    case OtherAttr => false
  }

  /** The i-th attribute is the first at fault. */
  ghost predicate AttrsFault(u: Used, group: Option<int>, attrs: seq<Attr>, i: nat, status: Status) {
    && i < |attrs| && AttrsFine(u, group, attrs[..i])
    && AttrFault(u, group, |AllShortcuts(attrs[..i])|, attrs[i], status)
  }

  /** The attributes are fine and the i-th child is the first at fault. */
  ghost predicate ChildFault(u: Used, node: Node, i: nat, status: Status)
    requires node.Cmd? && i < |node.subs|
    decreases node, 0
  {
    && SubsRegistrable(u, node, i) && Arguments(node.subs[..i]) <= 8
    && match node.subs[i]
       case Cmd(_, _) => Fault(SubsTake(u, node, i), Some(LastId(node.attrs)), node.subs[i], status)
       case Arg => Arguments(node.subs[..i]) == 8 && status == ETooManyArgs
       case Ignored => false
  }

  /** The first thing in the element that cannot be registered: it is no command, an attribute, a child, and only then a
      missing name or a missing id. */
  ghost predicate Fault(u: Used, group: Option<int>, node: Node, status: Status)
    decreases node, 1
  {
    if !node.Cmd? then status == EInval
    else if !AttrsFine(u, group, node.attrs) then exists i: nat :: AttrsFault(u, group, node.attrs, i, status)
    else if SubsRegistrable(u, node, |node.subs|) && Arguments(node.subs) <= 8 then
      if LastName(node.attrs) == "" then status == EBadName else LastId(node.attrs) == 0 && status == EBadId
    else exists i: nat :: i < |node.subs| && ChildFault(u, node, i, status)
  }

  lemma {:induction false} ShortcutsRefused(cli: Cli, names: seq<string>, d: Draft) returns (k: nat)
    requires d.status == Success && |d.sc| <= 4 && ReadShortcuts(cli, names, d).status != Success
    ensures ShortcutFault(UsedBy(cli), |d.sc|, names, k, ReadShortcuts(cli, names, d).status)
    decreases |names|
  {
    hide KeyOf;
    var first, rest := names[0], names[1..];
    if first == "" || (|d.sc| < 4 && KeyOf(Some(0), first) !in cli.nameHash) {
      k := ShortcutsRefused(cli, rest, if first == "" then d else d.(sc := d.sc + [first]));
      assert names[..k + 1] == [first] + rest[..k];
      NonEmptyCons(first, rest[..k]);
      k := k + 1;
    } else {
      k := 0;
      assert names[..0] == [];
    }
  }

  lemma {:induction false} AttrsRefused(cli: Cli, group: Option<int>, attrs: seq<Attr>, d: Draft) returns (i: nat)
    requires d.status == Success && |d.sc| <= 4 && ReadAttrs(cli, group, attrs, d).status != Success
    ensures i < |attrs| && (forall a :: a in attrs[..i] ==> AttrFine(UsedBy(cli), group, a))
    ensures var others := |d.sc| + |AllShortcuts(attrs[..i])|;
            others <= 4 && AttrFault(UsedBy(cli), group, others, attrs[i], ReadAttrs(cli, group, attrs, d).status)
    decreases |attrs|
  {
    hide KeyOf, NonEmpty, ReadShortcuts, ShortcutFault, AllShortcuts, AttrFault;
    var first, rest := attrs[0], attrs[1..];
    FirstAccepted(cli, group, first, d);
    var next := ReadAttr(cli, group, first, d);
    if next.status == Success {
      i := AttrsRefused(cli, group, rest, next);
      assert attrs[..i + 1] == [first] + rest[..i];
      AllShortcutsCons(first, rest[..i]);
      i := i + 1;
    } else {
      i := 0;
      assert attrs[..0] == [] && AllShortcuts([]) == [] by { NoShortcuts(); }
      FirstRefused(cli, group, first, d);
      assert ReadAttrs(cli, group, rest, next) == next;
    }
  }

  lemma NoShortcuts()
    ensures AllShortcuts([]) == []
  {
  }

  lemma FirstRefused(cli: Cli, group: Option<int>, a: Attr, d: Draft)
    requires d.status == Success && |d.sc| <= 4 && ReadAttr(cli, group, a, d).status != Success
    ensures AttrFault(UsedBy(cli), group, |d.sc|, a, ReadAttr(cli, group, a, d).status)
  {
    hide KeyOf, NonEmpty, ReadShortcuts, ShortcutFault;
    if a.Shortcuts? {
      var k := ShortcutsRefused(cli, a.names, d);
    }
  }

  lemma {:induction false} SubsRefused(u: Used, cli: Cli, h: nat, node: Node, i: nat, args: nat) returns (k: nat)
    requires Through(u, cli, h, node, i, args) && AddSubs(cli, h, node, i, args).status != Success
    ensures k < |node.subs| && ChildFault(u, node, k, AddSubs(cli, h, node, i, args).status)
    decreases node, 0, |node.subs| - i
  {
    hide Registrable, Takes, Add, GroupId, Fault;
    assert node.subs[..i + 1][..i] == node.subs[..i];
    k := i;
    match node.subs[i] {
      case Cmd(_, _) =>
        var r := Add(cli, Some(h), node.subs[i]);
        OwnGroup(cli, h);
        AddAccepted(cli, Some(h), node.subs[i]);
        if r.status == Success {
          k := SubsRefused(u, r.cli, h, node, i + 1, args);
        } else {
          AddRefused(cli, Some(h), node.subs[i]);
        }
      case Arg =>
        if args < 8 {
          k := SubsRefused(u, cli, h, node, i + 1, args + 1);
        }
      case Ignored =>
        k := SubsRefused(u, cli, h, node, i + 1, args);
    }
  }

  /** An element that is refused is refused for the first thing in it that cannot be registered. */
  lemma {:induction false} AddRefused(cli: Cli, group: Option<nat>, node: Node)
    requires InRange(cli, group) && Add(cli, group, node).status != Success
    ensures Fault(UsedBy(cli), GroupId(cli.specs, group), node, Add(cli, group, node).status)
    decreases node, 1, 0
  {
    hide ReadAttrs, AddSubs, Add, Labelled, AllShortcuts, LastName, LastId, SubsRegistrable, SubsTake, Takes, AttrFine,
      Through, Indexed, UsedBy, GroupId, Begun, AttrFault, ChildFault;
    AddCases(cli, group, node);
    if node.Cmd? {
      var g, h := GroupId(cli.specs, group), |cli.specs|;
      var d := ReadAttrs(cli, g, node.attrs, BLANK);
      AttrsAccepted(cli, g, node.attrs, BLANK);
      if d.status != Success {
        var i := AttrsRefused(cli, g, node.attrs, BLANK);
        assert AttrsFault(UsedBy(cli), g, node.attrs, i, d.status);
      } else {
        BlankLabelled();
        AttrsRead(cli, g, [], node.attrs, BLANK);
        assert [] + node.attrs == node.attrs;
        Meaning(d, node.attrs);
        var begun := Begun(cli, group, d);
        Starts(cli, group, node, d);
        BegunSpecs(cli, group, d);
        SubsAccepted(UsedBy(cli), begun, h, node, 0, 0);
        if AddSubs(begun, h, node, 0, 0).status != Success {
          var k := SubsRefused(UsedBy(cli), begun, h, node, 0, 0);
        }
      }
    }
  }
}
