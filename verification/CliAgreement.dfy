/** The command hash agrees with the command tree. */
module CliAgreement {
  import opened Bytes
  import opened CliKeys
  import opened CliFailure
  import opened CliIndex

  // ----- what a registration asks for -----

  predicate OwnShortcut(attrs: seq<Attr>, s: string) {
    exists a :: a in attrs && a.Shortcuts? && s in a.names
  }

  predicate HasId(node: Node, x: int) {
    node.Cmd?
    && (Id(Some(x)) in node.attrs || exists i :: 0 <= i < |node.subs| && HasId(node.subs[i], x))
  }

  predicate HasShortcut(node: Node, s: string) {
    node.Cmd?
    && (OwnShortcut(node.attrs, s) || exists i :: 0 <= i < |node.subs| && HasShortcut(node.subs[i], s))
  }

  predicate ProperAttr(a: Attr) {
    && (a.Name? && a.value != "" ==> LetterFirst(a.value))
    && (a.Shortcuts? ==> forall s :: s in a.names && s != "" ==> LetterFirst(s))
  }

  /** Names and shortcuts start with a letter; no command shares its id or a shortcut with a command inside it. */
  ghost predicate Proper(node: Node) {
    node.Cmd? ==>
      && (forall a :: a in node.attrs ==> ProperAttr(a))
      && forall i :: 0 <= i < |node.subs| ==>
           && Proper(node.subs[i])
           && (forall x :: HasId(node.subs[i], x) ==> Id(Some(x)) !in node.attrs)
           && (forall s :: HasShortcut(node.subs[i], s) ==> !OwnShortcut(node.attrs, s))
  }

  // ----- agreement while the commands in open are still being registered -----

  function OwnKey(cli: Cli, h: nat): string
    requires h < |cli.specs| && InRange(cli, cli.specs[h].group)
  {
    KeyOf(GroupId(cli.specs, cli.specs[h].group), cli.specs[h].name)
  }

  ghost predicate SpecsOk(cli: Cli, open: set<nat>) {
    && (forall h :: 0 <= h < |cli.specs| ==>
          && cli.specs[h].id != 0
          && (cli.specs[h].group.Some? ==> cli.specs[h].group.value < h)
          && (forall s :: s in cli.specs[h].sc ==> LetterFirst(s))
          && (h !in open ==> LetterFirst(cli.specs[h].name)))
    && (forall a, b :: 0 <= a < b < |cli.specs| ==> cli.specs[a].id != cli.specs[b].id)
  }

  /** The id hash holds exactly the registered commands. */
  ghost predicate IdsOk(cli: Cli, open: set<nat>) {
    && (forall h :: 0 <= h < |cli.specs| && h !in open ==>
          cli.specs[h].id in cli.idHash && cli.idHash[cli.specs[h].id] == h)
    && (forall x :: x in cli.idHash ==>
          cli.idHash[x] < |cli.specs| && cli.idHash[x] !in open && cli.specs[cli.idHash[x]].id == x)
  }

  /** Every entry is a registered command's own key or one of its shortcuts. */
  ghost predicate EntriesJustified(cli: Cli, open: set<nat>)
    requires SpecsOk(cli, open)
  {
    forall key :: key in cli.nameHash ==>
      var h := cli.nameHash[key];
      && h < |cli.specs| && h !in open
      && (key == OwnKey(cli, h) || exists s :: s in cli.specs[h].sc && key == RootKey(s))
  }

  ghost predicate EntriesPresent(cli: Cli, open: set<nat>)
    requires SpecsOk(cli, open)
  {
    forall h :: 0 <= h < |cli.specs| && h !in open ==>
      && OwnKey(cli, h) in cli.nameHash && cli.nameHash[OwnKey(cli, h)] == h
      && forall s :: s in cli.specs[h].sc ==> RootKey(s) in cli.nameHash && cli.nameHash[RootKey(s)] == h
  }

  ghost predicate ListsOk(cli: Cli, open: set<nat>) {
    && (forall h :: h in cli.top <==> 0 <= h < |cli.specs| && h !in open && cli.specs[h].group == None)
    && (forall g, h :: 0 <= g < |cli.specs| ==>
          (h in cli.specs[g].sub <==> 0 <= h < |cli.specs| && h !in open && cli.specs[h].group == Some(g)))
  }

  ghost predicate Agrees(cli: Cli, open: set<nat>) {
    && SpecsOk(cli, open) && IdsOk(cli, open)
    && EntriesJustified(cli, open) && EntriesPresent(cli, open) && ListsOk(cli, open)
  }

  // ----- attributes -----

  /** What a draft promises once its attributes have been read. */
  ghost predicate DraftOk(cli: Cli, group: Option<int>, attrs: seq<Attr>, d: Draft) {
    && (d.name != "" ==> LetterFirst(d.name) && KeyOf(group, d.name) !in cli.nameHash)
    && (d.id != 0 ==> Id(Some(d.id)) in attrs && d.id !in cli.idHash)
    && forall s :: s in d.sc ==> LetterFirst(s) && OwnShortcut(attrs, s) && RootKey(s) !in cli.nameHash
  }

  lemma {:induction false} ShortcutsOk(cli: Cli, group: Option<int>, attrs: seq<Attr>, names: seq<string>, d: Draft)
    requires DraftOk(cli, group, attrs, d)
    requires forall s :: s in names ==> OwnShortcut(attrs, s) && (s != "" ==> LetterFirst(s))
    ensures DraftOk(cli, group, attrs, ReadShortcuts(cli, names, d))
  {
    hide RootKey, OwnShortcut, LetterFirst, KeyOf;
    if names != [] && names[0] == "" {
      ShortcutsOk(cli, group, attrs, names[1..], d);
    } else if names != [] && |d.sc| < MAX_SHORTCUTS && RootKey(names[0]) !in cli.nameHash {
      ShortcutsOk(cli, group, attrs, names[1..], d.(sc := d.sc + [names[0]]));
    }
  }

  lemma {:induction false} AttrsOk(cli: Cli, group: Option<int>, attrs: seq<Attr>, rest: seq<Attr>, d: Draft)
    requires DraftOk(cli, group, attrs, d)
    requires forall a :: a in rest ==> a in attrs && ProperAttr(a)
    ensures DraftOk(cli, group, attrs, ReadAttrs(cli, group, rest, d))
  {
    hide RootKey, LetterFirst, KeyOf, ReadShortcuts;
    if rest != [] && d.status == Success {
      var a := rest[0];
      assert a in rest;
      if a.Shortcuts? {
        ShortcutsOk(cli, group, attrs, a.names, d);
      }
      AttrsOk(cli, group, attrs, rest[1..], ReadAttr(cli, group, a, d));
    }
  }

  // ----- the new command's keys are free -----

  /** The commands from the n-th on belong to groups from the h-th on. */
  ghost predicate Inside(cli: Cli, n: nat, h: nat) {
    forall x :: n <= x < |cli.specs| ==> cli.specs[x].group.Some? && cli.specs[x].group.value >= h
  }

  lemma OwnKeyKept(a: Cli, b: Cli, h: nat)
    requires Kept(a, b) && h < |a.specs| && (a.specs[h].group.Some? ==> a.specs[h].group.value < h)
    ensures InRange(a, a.specs[h].group) && InRange(b, b.specs[h].group) && OwnKey(a, h) == OwnKey(b, h)
  {
  }

  lemma SameGroup(cli: Cli, open: set<nat>, x: nat, y: nat)
    requires SpecsOk(cli, open) && x < |cli.specs| && y < |cli.specs|
    requires LetterFirst(cli.specs[x].name) && LetterFirst(cli.specs[y].name) && OwnKey(cli, x) == OwnKey(cli, y)
    ensures cli.specs[x].group == cli.specs[y].group && cli.specs[x].name == cli.specs[y].name
  {
    hide KeyOf, LetterFirst;
    KeyInjective(GroupId(cli.specs, cli.specs[x].group), cli.specs[x].name,
                 GroupId(cli.specs, cli.specs[y].group), cli.specs[y].name);
  }

  lemma NotRootKey(cli: Cli, open: set<nat>, x: nat, s: string)
    requires SpecsOk(cli, open) && x < |cli.specs| && LetterFirst(cli.specs[x].name) && LetterFirst(s)
    ensures OwnKey(cli, x) != RootKey(s)
  {
    hide KeyOf, LetterFirst;
    KeyInjective(GroupId(cli.specs, cli.specs[x].group), cli.specs[x].name, Some(ROOT_ID), s);
  }

  /** a is the state before the command h was allocated, c after its children were registered. */
  lemma KeyFree(a: Cli, c: Cli, open: set<nat>, h: nat)
    requires Agrees(a, open) && h == |a.specs| && Kept(a, c) && h < |c.specs|
    requires Agrees(c, open + {h}) && Inside(c, h + 1, h)
    requires LetterFirst(c.specs[h].name) && OwnKey(c, h) !in a.nameHash
    ensures OwnKey(c, h) !in c.nameHash
  {
    hide KeyOf, LetterFirst, OwnKey, IdsOk, ListsOk, RootKey;
    var key := OwnKey(c, h);
    if key in c.nameHash {
      var x := c.nameHash[key];
      assert x != h && x < |c.specs|;
      if key == OwnKey(c, x) {
        SameGroup(c, open + {h}, x, h);
        if x < h {
          OwnKeyKept(a, c, x);
        }
      } else {
        var s :| s in c.specs[x].sc && key == RootKey(s);
        NotRootKey(c, open + {h}, h, s);
      }
      assert false;
    }
  }

  lemma ShortcutFree(a: Cli, c: Cli, open: set<nat>, h: nat, s: string)
    requires Agrees(a, open) && h == |a.specs| && Kept(a, c) && h < |c.specs|
    requires Agrees(c, open + {h}) && LetterFirst(s) && RootKey(s) !in a.nameHash
    requires forall x :: h < x < |c.specs| ==> s !in c.specs[x].sc
    ensures RootKey(s) !in c.nameHash
  {
    hide KeyOf, LetterFirst, OwnKey, IdsOk, ListsOk, RootKey;
    var key := RootKey(s);
    if key in c.nameHash {
      var x := c.nameHash[key];
      assert x != h && x < |c.specs|;
      if key == OwnKey(c, x) {
        NotRootKey(c, open + {h}, x, s);
      } else {
        var t :| t in c.specs[x].sc && key == RootKey(t);
        RootKeyInjective(s, t);
      }
      assert false;
    }
  }

  lemma RootKeyInjective(s: string, t: string)
    requires LetterFirst(s) && LetterFirst(t) && RootKey(s) == RootKey(t)
    ensures s == t
  {
    KeyInjective(Some(ROOT_ID), s, Some(ROOT_ID), t);
  }

  // ----- indexing it -----

  lemma {:induction false} WithShortcutsIs(hash: map<string, nat>, sc: seq<string>, h: nat, key: string)
    ensures var r, own := WithShortcuts(hash, sc, h), exists s :: s in sc && key == RootKey(s);
            && (key in r <==> own || key in hash)
            && (own ==> r[key] == h) && (!own && key in hash ==> r[key] == hash[key])
  {
    hide RootKey;
    if sc != [] {
      var init, last := sc[..|sc| - 1], sc[|sc| - 1];
      WithShortcutsIs(hash, init, h, key);
      assert sc == init + [last];
      if key == RootKey(last) {
        assert last in sc;
      }
    }
  }

  /** The state c has the command h allocated and its children registered, and its keys are free. */
  ghost predicate Ready(c: Cli, open: set<nat>, h: nat) {
    && h < |c.specs| && h !in open && Agrees(c, open + {h})
    && LetterFirst(c.specs[h].name) && c.specs[h].id !in c.idHash && OwnKey(c, h) !in c.nameHash
    && forall s :: s in c.specs[h].sc ==> RootKey(s) !in c.nameHash
  }

  lemma IndexedSpecs(c: Cli, open: set<nat>, h: nat)
    requires Ready(c, open, h)
    ensures var r := Indexed(c, h); SpecsOk(r, open) && IdsOk(r, open) && Kept(c, r) && |r.specs| == |c.specs|
  {
    hide OwnKey, RootKey, LetterFirst, EntriesJustified, EntriesPresent, ListsOk, WithShortcuts, KeyOf;
  }

  lemma IndexedHash(c: Cli, open: set<nat>, h: nat, key: string)
    requires Ready(c, open, h)
    ensures var r := Indexed(c, h).nameHash;
            var own := key == OwnKey(c, h) || exists s :: s in c.specs[h].sc && key == RootKey(s);
            && (key in r <==> own || key in c.nameHash)
            && (own ==> r[key] == h) && (!own && key in c.nameHash ==> r[key] == c.nameHash[key])
  {
    hide RootKey, LetterFirst, EntriesJustified, EntriesPresent, ListsOk, WithShortcuts, KeyOf, IdsOk;
    WithShortcutsIs(c.nameHash, c.specs[h].sc, h, key);
  }

  lemma IndexedJustified(c: Cli, open: set<nat>, h: nat)
    requires Ready(c, open, h)
    ensures SpecsOk(Indexed(c, h), open) && EntriesJustified(Indexed(c, h), open)
  {
    hide RootKey, LetterFirst, EntriesPresent, ListsOk, IdsOk, OwnKey, Indexed;
    IndexedSpecs(c, open, h);
    var r := Indexed(c, h);
    forall key | key in r.nameHash
      ensures var x := r.nameHash[key];
              && x < |r.specs| && x !in open
              && (key == OwnKey(r, x) || exists s :: s in r.specs[x].sc && key == RootKey(s))
    {
      IndexedHash(c, open, h, key);
      OwnKeyKept(c, r, r.nameHash[key]);
    }
  }

  lemma IndexedPresent(c: Cli, open: set<nat>, h: nat)
    requires Ready(c, open, h)
    ensures SpecsOk(Indexed(c, h), open) && EntriesPresent(Indexed(c, h), open)
  {
    hide RootKey, LetterFirst, EntriesJustified, ListsOk, IdsOk, OwnKey, Indexed;
    IndexedSpecs(c, open, h);
    var r := Indexed(c, h);
    forall x | 0 <= x < |r.specs| && x !in open
      ensures OwnKey(r, x) in r.nameHash && r.nameHash[OwnKey(r, x)] == x
      ensures forall s :: s in r.specs[x].sc ==> RootKey(s) in r.nameHash && r.nameHash[RootKey(s)] == x
    {
      OwnKeyKept(c, r, x);
      IndexedHash(c, open, h, OwnKey(c, x));
      forall s | s in r.specs[x].sc
        ensures RootKey(s) in r.nameHash && r.nameHash[RootKey(s)] == x
      {
        IndexedHash(c, open, h, RootKey(s));
      }
    }
  }

  lemma IndexedLists(c: Cli, open: set<nat>, h: nat)
    requires Ready(c, open, h)
    ensures ListsOk(Indexed(c, h), open)
  {
    hide RootKey, LetterFirst, EntriesJustified, EntriesPresent, IdsOk, OwnKey, KeyOf, WithShortcuts;
  }

  lemma IndexedAgrees(c: Cli, open: set<nat>, h: nat)
    requires Ready(c, open, h)
    ensures Agrees(Indexed(c, h), open) && Kept(c, Indexed(c, h)) && |Indexed(c, h).specs| == |c.specs|
  {
    hide Indexed, EntriesJustified, EntriesPresent, IdsOk, ListsOk, SpecsOk, Ready, Kept;
    IndexedSpecs(c, open, h);
    IndexedJustified(c, open, h);
    IndexedPresent(c, open, h);
    IndexedLists(c, open, h);
  }

  // ----- a whole registration -----

  /** The ids and shortcuts of the commands being registered are not asked for again. */
  ghost predicate Apart(cli: Cli, open: set<nat>, node: Node) {
    forall h :: h in open ==>
      && h < |cli.specs| && !HasId(node, cli.specs[h].id)
      && forall s :: s in cli.specs[h].sc ==> !HasShortcut(node, s)
  }

  ghost predicate ApartSubs(cli: Cli, open: set<nat>, node: Node)
    requires node.Cmd?
  {
    forall i :: 0 <= i < |node.subs| ==> Apart(cli, open, node.subs[i])
  }

  lemma BeginSpecs(a: Cli, open: set<nat>, group: Option<nat>, node: Node, d: Draft)
    requires Agrees(a, open) && InRange(a, group) && node.Cmd? && Apart(a, open, node)
    requires DraftOk(a, GroupId(a.specs, group), node.attrs, d) && d.id != 0
    ensures var h, c := |a.specs|, Begun(a, group, d);
            SpecsOk(c, open + {h}) && IdsOk(c, open + {h}) && h !in open && Kept(a, c)
  {
    hide RootKey, LetterFirst, KeyOf, OwnShortcut, HasShortcut, EntriesJustified, EntriesPresent, ListsOk, OwnKey;
    var h := |a.specs|;
    assert forall x :: x in open ==> x < h;
    forall x | 0 <= x < h
      ensures a.specs[x].id != d.id
    {
      if x in open {
        assert HasId(node, d.id);
      }
    }
  }

  lemma BeginEntries(a: Cli, c: Cli, open: set<nat>, h: nat)
    requires Agrees(a, open) && h == |a.specs| && h !in open && Kept(a, c) && |c.specs| == h + 1
    requires c.nameHash == a.nameHash && SpecsOk(c, open + {h})
    ensures EntriesJustified(c, open + {h}) && EntriesPresent(c, open + {h})
  {
    hide RootKey, LetterFirst, KeyOf, ListsOk, IdsOk, OwnKey;
    forall x | 0 <= x < h
      ensures InRange(a, a.specs[x].group) && InRange(c, c.specs[x].group) && OwnKey(a, x) == OwnKey(c, x)
    {
      OwnKeyKept(a, c, x);
    }
  }

  lemma BeginLists(a: Cli, open: set<nat>, group: Option<nat>, d: Draft)
    requires SpecsOk(a, open) && ListsOk(a, open) && |a.specs| !in open
    ensures ListsOk(Begun(a, group, d), open + {|a.specs|})
  {
    hide LetterFirst;
  }

  lemma BeginAgrees(a: Cli, open: set<nat>, group: Option<nat>, node: Node, d: Draft)
    requires Agrees(a, open) && InRange(a, group) && node.Cmd? && Apart(a, open, node)
    requires DraftOk(a, GroupId(a.specs, group), node.attrs, d) && d.id != 0
    ensures var h, c := |a.specs|, Begun(a, group, d); Agrees(c, open + {h}) && h !in open && Kept(a, c)
  {
    hide SpecsOk, IdsOk, EntriesJustified, EntriesPresent, ListsOk, Apart, DraftOk, Kept;
    BeginSpecs(a, open, group, node, d);
    BeginLists(a, open, group, d);
    BeginEntries(a, Begun(a, group, d), open, |a.specs|);
  }

  /** The command x carries an id and shortcuts of the node. */
  ghost predicate FromOne(cli: Cli, x: nat, node: Node)
    requires x < |cli.specs|
  {
    HasId(node, cli.specs[x].id) && forall s :: s in cli.specs[x].sc ==> HasShortcut(node, s)
  }

  ghost predicate FromSome(cli: Cli, x: nat, node: Node)
    requires x < |cli.specs| && node.Cmd?
  {
    exists i :: 0 <= i < |node.subs| && FromOne(cli, x, node.subs[i])
  }

  ghost predicate FromSubs(cli: Cli, n: nat, node: Node)
    requires node.Cmd?
  {
    forall x :: n <= x < |cli.specs| ==> FromSome(cli, x, node)
  }

  lemma ApartBelow(c: Cli, open: set<nat>, h: nat, node: Node, d: Draft)
    requires node.Cmd? && Proper(node) && h < |c.specs| && Apart(c, open, node)
    requires Id(Some(c.specs[h].id)) in node.attrs && forall s :: s in c.specs[h].sc ==> OwnShortcut(node.attrs, s)
    ensures ApartSubs(c, open + {h}, node)
  {
    hide OwnShortcut;
    forall i | 0 <= i < |node.subs|
      ensures Apart(c, open + {h}, node.subs[i])
    {
      assert Proper(node.subs[i]);
    }
  }

  lemma ApartKept(a: Cli, c: Cli, open: set<nat>, node: Node)
    requires Apart(a, open, node) && Kept(a, c)
    ensures Apart(c, open, node)
  {
    hide HasId, HasShortcut;
  }

  lemma FromKept(a: Cli, c: Cli, x: nat, node: Node)
    requires Kept(a, c) && x < |a.specs|
    ensures FromOne(a, x, node) <==> FromOne(c, x, node)
  {
    hide HasId, HasShortcut;
  }

  lemma FromAbove(c: Cli, x: nat, node: Node, i: nat)
    requires node.Cmd? && i < |node.subs| && x < |c.specs| && FromOne(c, x, node.subs[i])
    ensures FromOne(c, x, node)
  {
  }

  /** What registering a node adds to a. */
  ghost predicate Grown(a: Cli, r: Cli, group: Option<nat>, node: Node) {
    && Kept(a, r) && |a.specs| < |r.specs| && r.specs[|a.specs|].group == group
    && Inside(r, |a.specs| + 1, |a.specs|)
    && forall x :: |a.specs| <= x < |r.specs| ==> FromOne(r, x, node)
  }

  lemma {:induction false} AddAgrees(a: Cli, group: Option<nat>, node: Node, open: set<nat>)
    requires Agrees(a, open) && InRange(a, group) && Proper(node) && Apart(a, open, node)
    requires Add(a, group, node).status == Success
    ensures Agrees(Add(a, group, node).cli, open) && Grown(a, Add(a, group, node).cli, group, node)
    decreases node, 1, 0
  {
    hide Agrees, Apart, DraftOk, Proper, HasId, HasShortcut, FromOne, OwnShortcut, FromSubs, ApartSubs, Inside, Ready,
         Indexed, ReadAttrs, AddSubs, KeyOf, LetterFirst, RootKey, Kept, Begun, Grown, OwnKey;
    var h, d := |a.specs|, ReadAttrs(a, GroupId(a.specs, group), node.attrs, BLANK);
    DraftFrom(a, group, node);
    BeginAgrees(a, open, group, node, d);
    var begun := Begun(a, group, d);
    BegunIs(a, group, d);
    BegunApart(a, open, group, node, d);
    AddSubsAgrees(begun, h, node, 0, 0, open + {h});
    var c := AddSubs(begun, h, node, 0, 0).cli;
    SubsReady(a, c, open, group, node, d);
    IndexedAgrees(c, open, h);
    GrownFinally(a, c, Indexed(c, h), group, node, d);
  }

  lemma DraftFrom(a: Cli, group: Option<nat>, node: Node)
    requires InRange(a, group) && node.Cmd? && Proper(node)
    ensures DraftOk(a, GroupId(a.specs, group), node.attrs, ReadAttrs(a, GroupId(a.specs, group), node.attrs, BLANK))
  {
    hide ProperAttr, ReadAttrs;
    AttrsOk(a, GroupId(a.specs, group), node.attrs, node.attrs, BLANK);
  }

  lemma BegunIs(a: Cli, group: Option<nat>, d: Draft)
    ensures var c, h := Begun(a, group, d), |a.specs|;
            Kept(a, c) && |c.specs| == h + 1 && c.specs[h] == Spec(d.id, d.name, d.sc, group, [])
  {
  }

  lemma BegunApart(a: Cli, open: set<nat>, group: Option<nat>, node: Node, d: Draft)
    requires InRange(a, group) && node.Cmd? && Proper(node) && Apart(a, open, node) && d.id != 0
    requires DraftOk(a, GroupId(a.specs, group), node.attrs, d)
    ensures ApartSubs(Begun(a, group, d), open + {|a.specs|}, node)
  {
    hide Apart, Proper, HasId, HasShortcut, OwnShortcut, KeyOf, LetterFirst, RootKey, ApartSubs;
    var c := Begun(a, group, d);
    ApartKept(a, c, open, node);
    ApartBelow(c, open, |a.specs|, node, d);
  }

  lemma SubsReady(a: Cli, c: Cli, open: set<nat>, group: Option<nat>, node: Node, d: Draft)
    requires Agrees(a, open) && InRange(a, group) && node.Cmd? && Proper(node)
    requires DraftOk(a, GroupId(a.specs, group), node.attrs, d) && d.id != 0 && d.name != ""
    requires var h, begun := |a.specs|, Begun(a, group, d);
             Kept(begun, c) && Agrees(c, open + {h}) && FromSubs(c, h + 1, node) && Inside(c, h + 1, h) && h !in open
    ensures Ready(c, open, |a.specs|) && |a.specs| < |c.specs| && InRange(c, c.specs[|a.specs|].group)
  {
    hide HasId, OwnShortcut, KeyOf, LetterFirst, RootKey, EntriesJustified, EntriesPresent, ListsOk, OwnKey;
    var h, begun := |a.specs|, Begun(a, group, d);
    BegunIs(a, group, d);
    assert Kept(a, c) && c.specs[h] == Spec(d.id, d.name, d.sc, group, c.specs[h].sub);
    BegunKey(a, c, group, h);
    KeyFree(a, c, open, h);
    forall s | s in d.sc
      ensures RootKey(s) !in c.nameHash
    {
      SubsOwnOthers(c, h + 1, node, s);
      ShortcutFree(a, c, open, h, s);
    }
  }

  lemma BegunKey(a: Cli, c: Cli, group: Option<nat>, h: nat)
    requires Kept(a, c) && InRange(a, group) && h < |c.specs| && c.specs[h].group == group
    ensures InRange(c, group) && OwnKey(c, h) == KeyOf(GroupId(a.specs, group), c.specs[h].name)
  {
  }

  lemma SubsOwnOthers(c: Cli, n: nat, node: Node, s: string)
    requires node.Cmd? && Proper(node) && FromSubs(c, n, node) && OwnShortcut(node.attrs, s)
    ensures forall x :: n <= x < |c.specs| ==> s !in c.specs[x].sc
  {
    hide OwnShortcut, HasShortcut, HasId;
    forall x | n <= x < |c.specs|
      ensures s !in c.specs[x].sc
    {
      assert FromSome(c, x, node);
      var i :| 0 <= i < |node.subs| && FromOne(c, x, node.subs[i]);
      assert Proper(node.subs[i]);
    }
  }

  lemma GrownFinally(a: Cli, c: Cli, r: Cli, group: Option<nat>, node: Node, d: Draft)
    requires InRange(a, group) && node.Cmd? && DraftOk(a, GroupId(a.specs, group), node.attrs, d) && d.id != 0
    requires var h := |a.specs|; Kept(Begun(a, group, d), c) && FromSubs(c, h + 1, node) && Inside(c, h + 1, h)
    requires Kept(c, r) && |r.specs| == |c.specs|
    ensures Grown(a, r, group, node)
  {
    hide KeyOf, LetterFirst, RootKey, OwnShortcut, FromOne, FromSubs;
    var h := |a.specs|;
    BegunIs(a, group, d);
    forall x | h <= x < |r.specs|
      ensures FromOne(r, x, node)
    {
      if x == h {
        OwnFrom(r, h, node);
      } else {
        SubsFrom(c, h + 1, x, node);
        FromKept(c, r, x, node);
      }
    }
  }

  lemma OwnFrom(r: Cli, h: nat, node: Node)
    requires h < |r.specs| && node.Cmd? && Id(Some(r.specs[h].id)) in node.attrs
    requires forall s :: s in r.specs[h].sc ==> OwnShortcut(node.attrs, s)
    ensures FromOne(r, h, node)
  {
  }

  lemma SubsFrom(c: Cli, n: nat, x: nat, node: Node)
    requires node.Cmd? && FromSubs(c, n, node) && n <= x < |c.specs|
    ensures FromOne(c, x, node)
  {
    hide FromOne;
    assert FromSome(c, x, node);
    var i :| 0 <= i < |node.subs| && FromOne(c, x, node.subs[i]);
    FromAbove(c, x, node, i);
  }

  lemma {:induction false} AddSubsAgrees(c: Cli, h: nat, node: Node, i: nat, args: nat, open: set<nat>)
    requires Agrees(c, open) && h < |c.specs| && node.Cmd? && i <= |node.subs| && Proper(node)
    requires ApartSubs(c, open, node) && AddSubs(c, h, node, i, args).status == Success
    ensures var r := AddSubs(c, h, node, i, args).cli;
            Agrees(r, open) && FromSubs(r, |c.specs|, node) && Inside(r, |c.specs|, h)
    decreases node, 0, |node.subs| - i
  {
    hide Agrees, Apart, HasId, HasShortcut, FromOne, OwnShortcut, Add, Proper;
    if i < |node.subs| {
      match node.subs[i]
      case Cmd(_, _) =>
        var sub := node.subs[i];
        var b := Add(c, Some(h), sub).cli;
        ProperSub(node, i);
        AddAgrees(c, Some(h), sub, open);
        forall k | 0 <= k < |node.subs|
          ensures Apart(b, open, node.subs[k])
        {
          ApartKept(c, b, open, node.subs[k]);
        }
        AddSubsAgrees(b, h, node, i + 1, args, open);
        var r := AddSubs(b, h, node, i + 1, args).cli;
        forall x | |c.specs| <= x < |b.specs|
          ensures FromSome(r, x, node)
        {
          FromKept(b, r, x, sub);
        }
      case Arg => AddSubsAgrees(c, h, node, i + 1, args + 1, open);
      case Ignored => AddSubsAgrees(c, h, node, i + 1, args, open);
    }
  }

  lemma ProperSub(node: Node, i: nat)
    requires node.Cmd? && Proper(node) && i < |node.subs|
    ensures Proper(node.subs[i])
  {
  }

  // ----- any number of registrations -----

  datatype Registration = Registration(group: Option<nat>, node: Node)

  const EMPTY := Cli([], [], map[], map[])

  /** A failure that leaves nothing behind has only allocated commands that nothing refers to; they are left out. */
  function After(run: seq<Registration>): Cli {
    if run == [] then EMPTY
    else
      var before, last := After(run[..|run| - 1]), run[|run| - 1];
      if !InRange(before, last.group) then before
      else
        var r := Add(before, last.group, last.node);
        if r.status == Success || LeavesBehind(before, last.group, last.node) then r.cli else before
  }

  /** Each registration, at the top or under a command registered before, succeeds or leaves nothing behind. */
  ghost predicate AllTidy(run: seq<Registration>) {
    run == []
    || var before, last := After(run[..|run| - 1]), run[|run| - 1];
       && AllTidy(run[..|run| - 1]) && InRange(before, last.group)
       && (if Add(before, last.group, last.node).status == Success then Proper(last.node)
           else !LeavesBehind(before, last.group, last.node))
  }

  lemma {:induction false} EveryRunAgrees(run: seq<Registration>)
    requires AllTidy(run)
    ensures Agrees(After(run), {})
  {
    hide Add, Proper, LeavesBehind;
    if run != [] {
      var before, last := After(run[..|run| - 1]), run[|run| - 1];
      EveryRunAgrees(run[..|run| - 1]);
      if Add(before, last.group, last.node).status == Success {
        AddAgrees(before, last.group, last.node, {});
      }
    }
  }

  lemma LookupIs(cli: Cli, group: Option<int>, name: string, h: nat)
    requires Agrees(cli, {}) && LetterFirst(name)
    ensures Lookup(cli, group, name) == Some(h) <==>
              && h < |cli.specs|
              && (|| (GroupId(cli.specs, cli.specs[h].group) == group && cli.specs[h].name == name)
                  || (group == Some(ROOT_ID) && name in cli.specs[h].sc))
  {
    hide KeyOf, LetterFirst, IdsOk, ListsOk;
    if h < |cli.specs| {
      KeyInjective(GroupId(cli.specs, cli.specs[h].group), cli.specs[h].name, group, name);
      assert OwnKey(cli, h) == KeyOf(group, name) ==> cli.nameHash[KeyOf(group, name)] == h;
      forall s | s in cli.specs[h].sc && RootKey(s) == KeyOf(group, name)
        ensures s == name && group == Some(ROOT_ID)
      {
        KeyInjective(Some(ROOT_ID), s, group, name);
      }
      if group == Some(ROOT_ID) && name in cli.specs[h].sc {
        assert cli.nameHash[RootKey(name)] == h;
      }
    }
  }

  lemma GroupLookup(cli: Cli, g: nat, name: string, h: nat)
    requires Agrees(cli, {}) && LetterFirst(name) && g < |cli.specs|
    ensures Lookup(cli, Some(cli.specs[g].id), name) == Some(h) <==>
              h in cli.specs[g].sub && h < |cli.specs| && cli.specs[h].name == name
  {
    hide Lookup, LetterFirst, EntriesJustified, EntriesPresent, IdsOk;
    LookupIs(cli, Some(cli.specs[g].id), name, h);
  }

  lemma TopLookup(cli: Cli, name: string, h: nat)
    requires Agrees(cli, {}) && LetterFirst(name)
    ensures Lookup(cli, None, name) == Some(h) <==> h in cli.top && h < |cli.specs| && cli.specs[h].name == name
  {
    hide Lookup, LetterFirst, EntriesJustified, EntriesPresent, IdsOk;
    LookupIs(cli, None, name, h);
  }

  lemma RootLookup(cli: Cli, name: string, h: nat)
    requires Agrees(cli, {}) && LetterFirst(name)
    ensures Lookup(cli, Some(ROOT_ID), name) == Some(h) <==> h < |cli.specs| && name in cli.specs[h].sc
  {
    hide Lookup, LetterFirst, EntriesJustified, EntriesPresent, IdsOk, ListsOk;
    LookupIs(cli, Some(ROOT_ID), name, h);
  }

  lemma IdLookup(cli: Cli, x: int, h: nat)
    requires Agrees(cli, {})
    ensures x in cli.idHash && cli.idHash[x] == h <==> h < |cli.specs| && cli.specs[h].id == x
  {
    hide SpecsOk, EntriesJustified, EntriesPresent, ListsOk;
  }

  /** The hash stands in for the tree: a name is found under a group exactly if it is that of a child, with no group
      exactly if it is that of a top-level command, under the root exactly if it is a command's shortcut; an id is
      found exactly if a command has it. */
  lemma HashAgreesWithTree(run: seq<Registration>, g: nat, name: string, x: int, h: nat)
    requires AllTidy(run) && LetterFirst(name) && g < |After(run).specs|
    ensures var cli := After(run);
            && (Lookup(cli, Some(cli.specs[g].id), name) == Some(h) <==>
                h in cli.specs[g].sub && h < |cli.specs| && cli.specs[h].name == name)
            && (Lookup(cli, None, name) == Some(h) <==>
                h in cli.top && h < |cli.specs| && cli.specs[h].name == name)
            && (Lookup(cli, Some(ROOT_ID), name) == Some(h) <==> h < |cli.specs| && name in cli.specs[h].sc)
            && (x in cli.idHash && cli.idHash[x] == h <==> h < |cli.specs| && cli.specs[h].id == x)
  {
    hide Lookup, LetterFirst, Agrees, After, AllTidy;
    var cli := After(run);
    EveryRunAgrees(run);
    GroupLookup(cli, g, name, h);
    TopLookup(cli, name, h);
    RootLookup(cli, name, h);
    IdLookup(cli, x, h);
  }

  lemma AddIndexes(cli: Cli, group: Option<nat>, node: Node)
    requires InRange(cli, group) && Add(cli, group, node).status == Success
    ensures var r, n := Add(cli, group, node).cli, |cli.specs|;
            n < |r.specs| && Lookup(r, GroupId(cli.specs, group), r.specs[n].name) == Some(n)
  {
    hide KeyOf, ReadAttrs, AddSubs, WithShortcuts;
    var d, h := ReadAttrs(cli, GroupId(cli.specs, group), node.attrs, BLANK), |cli.specs|;
    var begun := Begun(cli, group, d);
    BegunIs(cli, group, d);
    var c := AddSubs(begun, h, node, 0, 0).cli;
    BegunKey(cli, c, group, h);
  }

  lemma {:induction false} AddShortcutsFrom(a: Cli, group: Option<nat>, node: Node)
    requires InRange(a, group)
    ensures ShortcutsFrom(Add(a, group, node).cli, |a.specs|, node)
    decreases node, 1, 0
  {
    hide ReadAttrs, AddSubs, Indexed, HasShortcut, OwnShortcut;
    AddCases(a, group, node);
    if node.Cmd? {
      var gid, h := GroupId(a.specs, group), |a.specs|;
      var d := ReadAttrs(a, gid, node.attrs, BLANK);
      if d.status == Success {
        var begun := Begun(a, group, d);
        BegunSpecs(a, group, d);
        ScFrom(a, gid, node.attrs, node.attrs, BLANK);
        OwnIsHas(node);
        AddSubsShortcutsFrom(begun, h, node, 0, 0);
        var r := AddSubs(begun, h, node, 0, 0).cli;
        IndexedKept(r, h);
      }
    }
  }

  /** The commands from the n-th on have shortcuts of the node only. */
  ghost predicate ShortcutsFrom(cli: Cli, n: nat, node: Node) {
    forall x, s :: n <= x < |cli.specs| && s in cli.specs[x].sc ==> HasShortcut(node, s)
  }

  lemma OwnIsHas(node: Node)
    ensures node.Cmd? ==> forall s :: OwnShortcut(node.attrs, s) ==> HasShortcut(node, s)
  {
  }

  lemma IndexedKept(c: Cli, h: nat)
    requires h < |c.specs| && InRange(c, c.specs[h].group)
    ensures Kept(c, Indexed(c, h)) && |Indexed(c, h).specs| == |c.specs|
  {
    hide WithShortcuts, KeyOf;
  }

  lemma {:induction false} ScFrom(cli: Cli, group: Option<int>, attrs: seq<Attr>, rest: seq<Attr>, d: Draft)
    requires (forall s :: s in d.sc ==> OwnShortcut(attrs, s)) && forall a :: a in rest ==> a in attrs
    ensures forall s :: s in ReadAttrs(cli, group, rest, d).sc ==> OwnShortcut(attrs, s)
    decreases |rest|
  {
    hide KeyOf, ReadShortcuts;
    if rest != [] && d.status == Success {
      if rest[0].Shortcuts? {
        ScRead(cli, rest[0].names, d);
      }
      ScFrom(cli, group, attrs, rest[1..], ReadAttr(cli, group, rest[0], d));
    }
  }

  lemma {:induction false} ScRead(cli: Cli, names: seq<string>, d: Draft)
    ensures forall s :: s in ReadShortcuts(cli, names, d).sc ==> s in d.sc || s in names
  {
    hide RootKey;
    if names != [] {
      if names[0] == "" {
        ScRead(cli, names[1..], d);
      } else if |d.sc| < MAX_SHORTCUTS && RootKey(names[0]) !in cli.nameHash {
        ScRead(cli, names[1..], d.(sc := d.sc + [names[0]]));
      }
    }
  }

  lemma {:induction false} AddSubsShortcutsFrom(c: Cli, h: nat, node: Node, i: nat, args: nat)
    requires h < |c.specs| && node.Cmd? && i <= |node.subs| && ShortcutsFrom(c, h, node)
    ensures ShortcutsFrom(AddSubs(c, h, node, i, args).cli, h, node)
    decreases node, 0, |node.subs| - i
  {
    hide Add, OwnShortcut;
    if i < |node.subs| {
      match node.subs[i]
      case Cmd(_, _) =>
        var r := Add(c, Some(h), node.subs[i]);
        AddShortcutsFrom(c, Some(h), node.subs[i]);
        assert Kept(c, r.cli);
        assert ShortcutsFrom(r.cli, h, node) by {
          forall x, s | h <= x < |r.cli.specs| && s in r.cli.specs[x].sc
            ensures HasShortcut(node, s)
          {
            if x >= |c.specs| {
              assert HasShortcut(node.subs[i], s);
            } else {
              assert c.specs[x].sc == r.cli.specs[x].sc;
            }
          }
        }
        if r.status == Success {
          AddSubsShortcutsFrom(r.cli, h, node, i + 1, args);
        }
      case Arg =>
        if args < MAX_ARGS {
          AddSubsShortcutsFrom(c, h, node, i + 1, args + 1);
        }
      case Ignored => AddSubsShortcutsFrom(c, h, node, i + 1, args);
    }
  }

  /** The name under which a child stands was free when it was read. */
  lemma ChildNameFree(cli: Cli, group: Option<nat>, node: Node)
    requires InRange(cli, group) && Add(cli, group, node).status == Success
    ensures var n, r := |cli.specs|, Add(cli, group, node).cli;
            n < |r.specs| && KeyOf(GroupId(cli.specs, group), r.specs[n].name) !in cli.nameHash
  {
    hide KeyOf, ReadAttrs, AddSubs, WithShortcuts;
    var d := ReadAttrs(cli, GroupId(cli.specs, group), node.attrs, BLANK);
    NameFree(cli, GroupId(cli.specs, group), node.attrs, BLANK);
    BegunIs(cli, group, d);
  }

  /** A registration that fails leaves behind the children it registered: the child of a command without an id
      answers as a shortcut, which no command has. */
  lemma FailureLeavesChild(cli: Cli, group: Option<nat>, node: Node, d: Draft)
    requires Agrees(cli, {}) && InRange(cli, group) && node.Cmd? && |node.subs| == 1 && node.subs[0].Cmd?
    requires d == ReadAttrs(cli, GroupId(cli.specs, group), node.attrs, BLANK) && d.status == Success && d.id == 0
    requires Add(Begun(cli, group, d), Some(|cli.specs|), node.subs[0]).status == Success
    ensures var r, child := Add(cli, group, node), |cli.specs| + 1;
            && r.status != Success && LeavesBehind(cli, group, node) && child < |r.cli.specs|
            && var name := r.cli.specs[child].name;
               && Lookup(r.cli, Some(ROOT_ID), name) == Some(child)
               && (!HasShortcut(node, name) ==> forall h :: 0 <= h < |r.cli.specs| ==> name !in r.cli.specs[h].sc)
  {
    hide KeyOf, ReadAttrs, Lookup, Agrees, Add, HasShortcut, AddSubs, Begun, SubsRegister;
    var begun, h := Begun(cli, group, d), |cli.specs|;
    BegunIs(cli, group, d);
    BegunHash(cli, group, d);
    AddIndexes(begun, Some(h), node.subs[0]);
    ChildNameFree(begun, Some(h), node.subs[0]);
    AddShortcutsFrom(cli, group, node);
    OneSub(begun, h, node);
    OneRegisters(begun, h, node);
    AddCases(cli, group, node);
    var r := Add(cli, group, node).cli;
    var name := r.specs[h + 1].name;
    forall x | 0 <= x < h
      ensures name !in r.specs[x].sc
    {
      SharedShortcut(cli, x, name);
      assert r.specs[x].sc == cli.specs[x].sc;
    }
  }

  lemma BegunHash(cli: Cli, group: Option<nat>, d: Draft)
    ensures Begun(cli, group, d).nameHash == cli.nameHash
  {
  }

  lemma SharedShortcut(cli: Cli, x: nat, s: string)
    requires Agrees(cli, {}) && x < |cli.specs|
    ensures s in cli.specs[x].sc ==> KeyOf(Some(ROOT_ID), s) in cli.nameHash
  {
    hide KeyOf, IdsOk, ListsOk, EntriesJustified;
  }

  lemma OneRegisters(c: Cli, h: nat, node: Node)
    requires h < |c.specs| && node.Cmd? && |node.subs| == 1 && node.subs[0].Cmd?
    requires Add(c, Some(h), node.subs[0]).status == Success
    ensures SubsRegister(c, h, node, 0, 0)
  {
  }

  lemma OneSub(c: Cli, h: nat, node: Node)
    requires h < |c.specs| && node.Cmd? && |node.subs| == 1 && node.subs[0].Cmd?
    ensures AddSubs(c, h, node, 0, 0) == Add(c, Some(h), node.subs[0])
  {
    hide Add;
    assert AddSubs(Add(c, Some(h), node.subs[0]).cli, h, node, 1, 0)
        == Added(Success, Add(c, Some(h), node.subs[0]).cli);
  }
}
