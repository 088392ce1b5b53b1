/** The order in which pkgconfig.py gives the linker its packages: a priority from the requirements, found by a
    recursion that is cut off at a fixed depth, and a sort. */
module LinkOrder {

  const LOOP_LIMIT: nat := 10

  /** pkg_dict: for each package asked for, what requires() returns. */
  type Packages = map<string, seq<string>>

  /** The priority when the recursion may go depth packages deep. */
  function Priority(g: Packages, name: string, depth: nat): nat
    requires name in g
    decreases depth, 1, 0
  {
    if depth == 0 then 0 else 1 + PrioritySum(g, g[name], depth - 1)
  }

  function PrioritySum(g: Packages, reqs: seq<string>, depth: nat): nat
    decreases depth, 2, |reqs|
  {
    if reqs == [] then 0
    else PrioritySum(g, reqs[..|reqs| - 1], depth) + PriorityOf(g, reqs[|reqs| - 1], depth)
  }

  /** Requirements that were not asked for are passed over. */
  function PriorityOf(g: Packages, name: string, depth: nat): nat
    decreases depth, 2, 0
  {
    if name in g then Priority(g, name, depth) else 0
  }

  method CalculatePkgPriority(name: string, g: Packages, loopCnt: nat) returns (prio: nat)
    requires name in g && loopCnt <= LOOP_LIMIT + 1
    ensures prio == Priority(g, name, LOOP_LIMIT + 1 - loopCnt)
    decreases LOOP_LIMIT + 1 - loopCnt
  {
    if loopCnt > LOOP_LIMIT {
      return 0;
    }
    var reqs := g[name];
    prio := 1;
    for i := 0 to |reqs|
      invariant prio == 1 + PrioritySum(g, reqs[..i], LOOP_LIMIT - loopCnt)
    {
      assert reqs[..i + 1][..i] == reqs[..i];
      if reqs[i] !in g {
        continue;
      }
      var p := CalculatePkgPriority(reqs[i], g, loopCnt + 1);
      prio := prio + p;
    }
    assert reqs[..|reqs|] == reqs;
  }

  // ----- what a priority counts -----

  /** How many chains of so many requirements start at the package, among the packages asked for. */
  function Chains(g: Packages, name: string, edges: nat): nat
    requires name in g
    decreases edges, 1, 0
  {
    if edges == 0 then 1 else ChainsFrom(g, g[name], edges - 1)
  }

  function ChainsFrom(g: Packages, reqs: seq<string>, edges: nat): nat
    decreases edges, 2, |reqs|
  {
    if reqs == [] then 0
    else
      var last := reqs[|reqs| - 1];
      ChainsFrom(g, reqs[..|reqs| - 1], edges) + if last in g then Chains(g, last, edges) else 0
  }

  function ChainsUpTo(g: Packages, name: string, depth: nat): nat
    requires name in g
    decreases depth
  {
    if depth == 0 then 0 else ChainsUpTo(g, name, depth - 1) + Chains(g, name, depth - 1)
  }

  lemma {:induction false} SumDeeper(g: Packages, reqs: seq<string>, depth: nat)
    requires forall req :: req in reqs && req in g ==>
               Priority(g, req, depth + 1) == Priority(g, req, depth) + Chains(g, req, depth)
    ensures PrioritySum(g, reqs, depth + 1) == PrioritySum(g, reqs, depth) + ChainsFrom(g, reqs, depth)
  {
    hide Priority, Chains;
    if reqs != [] {
      var init, last := reqs[..|reqs| - 1], reqs[|reqs| - 1];
      assert reqs == init + [last] && last in reqs && forall req :: req in init ==> req in reqs;
      SumDeeper(g, init, depth);
    }
  }

  lemma {:induction false} OneDeeper(g: Packages, name: string, depth: nat)
    requires name in g
    ensures Priority(g, name, depth + 1) == Priority(g, name, depth) + Chains(g, name, depth)
    decreases depth
  {
    if depth == 0 {
      NoDepth(g, g[name]);
    } else {
      forall req | req in g[name] && req in g
        ensures Priority(g, req, depth) == Priority(g, req, depth - 1) + Chains(g, req, depth - 1)
      {
        OneDeeper(g, req, depth - 1);
      }
      SumDeeper(g, g[name], depth - 1);
    }
  }

  lemma {:induction false} NoDepth(g: Packages, reqs: seq<string>)
    ensures PrioritySum(g, reqs, 0) == 0
  {
    if reqs != [] {
      NoDepth(g, reqs[..|reqs| - 1]);
    }
  }

  /** The priority of a package is the number of chains of requirements that start there, of all lengths below the
      cutoff. */
  lemma {:induction false} PriorityCounts(g: Packages, name: string, depth: nat)
    requires name in g
    ensures Priority(g, name, depth) == ChainsUpTo(g, name, depth)
    decreases depth
  {
    if depth > 0 {
      PriorityCounts(g, name, depth - 1);
      OneDeeper(g, name, depth - 1);
    }
  }

  /** The link order goes by the chains of at most nine requirements. */
  lemma PrioritiesCount(g: Packages, name: string)
    requires name in g
    ensures name in Priorities(g) && Priorities(g)[name] == ChainsUpTo(g, name, 10)
  {
    hide Priority, ChainsUpTo;
    PriorityCounts(g, name, 10);
  }

  // ----- the cutoff -----

  /** The packages asked for hold a chain of so many requirements that starts at name. */
  predicate HasChain(g: Packages, name: string, edges: nat)
    requires name in g
    decreases edges
  {
    edges == 0 || exists req :: req in g[name] && req in g && HasChain(g, req, edges - 1)
  }

  lemma {:induction false} SumSame(g: Packages, reqs: seq<string>, a: nat, b: nat)
    requires forall req :: req in reqs ==> PriorityOf(g, req, a) == PriorityOf(g, req, b)
    ensures PrioritySum(g, reqs, a) == PrioritySum(g, reqs, b)
  {
    hide PriorityOf;
    if reqs != [] {
      SumSame(g, reqs[..|reqs| - 1], a, b);
    }
  }

  lemma {:induction false} SumGrows(g: Packages, reqs: seq<string>, depth: nat)
    requires forall req :: req in reqs ==> PriorityOf(g, req, depth) <= PriorityOf(g, req, depth + 1)
    ensures PrioritySum(g, reqs, depth) <= PrioritySum(g, reqs, depth + 1)
    ensures (exists req :: req in reqs && PriorityOf(g, req, depth) < PriorityOf(g, req, depth + 1)) ==>
              PrioritySum(g, reqs, depth) < PrioritySum(g, reqs, depth + 1)
  {
    hide PriorityOf;
    if reqs != [] {
      var init, last := reqs[..|reqs| - 1], reqs[|reqs| - 1];
      SumGrows(g, init, depth);
      assert reqs == init + [last];
      assert forall req :: req in reqs ==> req in init || req == last;
    }
  }

  lemma {:induction false} PriorityGrows(g: Packages, name: string, depth: nat)
    requires name in g
    ensures Priority(g, name, depth) <= Priority(g, name, depth + 1)
    ensures HasChain(g, name, depth) ==> Priority(g, name, depth) < Priority(g, name, depth + 1)
    decreases depth
  {
    if depth > 0 {
      forall req | req in g[name]
        ensures PriorityOf(g, req, depth - 1) <= PriorityOf(g, req, depth)
        ensures req in g && HasChain(g, req, depth - 1) ==> PriorityOf(g, req, depth - 1) < PriorityOf(g, req, depth)
      {
        if req in g {
          PriorityGrows(g, req, depth - 1);
        }
      }
      SumGrows(g, g[name], depth - 1);
    }
  }

  lemma {:induction false} NoChainSettles(g: Packages, name: string, edges: nat, depth: nat)
    requires name in g && !HasChain(g, name, edges) && depth >= edges
    ensures Priority(g, name, depth) == Priority(g, name, edges)
    decreases edges
  {
    forall req | req in g[name]
      ensures PriorityOf(g, req, depth - 1) == PriorityOf(g, req, edges - 1)
    {
      if req in g {
        NoChainSettles(g, req, edges - 1, depth - 1);
      }
    }
    SumSame(g, g[name], depth - 1, edges - 1);
  }

  /** Cutting the recursion off at a depth leaves a priority as any deeper recursion gives it exactly when no chain of
      that many requirements starts at the package. */
  lemma CutoffExact(g: Packages, name: string, depth: nat)
    requires name in g
    ensures !HasChain(g, name, depth) <==> forall d :: d >= depth ==> Priority(g, name, d) == Priority(g, name, depth)
  {
    if HasChain(g, name, depth) {
      PriorityGrows(g, name, depth);
      assert Priority(g, name, depth + 1) != Priority(g, name, depth);
    } else {
      forall d | d >= depth
        ensures Priority(g, name, d) == Priority(g, name, depth)
      {
        NoChainSettles(g, name, depth, d);
      }
    }
  }

  lemma {:induction false} SumAtLeast(g: Packages, reqs: seq<string>, req: string, depth: nat)
    requires req in reqs
    ensures PrioritySum(g, reqs, depth) >= PriorityOf(g, req, depth)
  {
    hide PriorityOf;
    if req != reqs[|reqs| - 1] {
      assert req in reqs[..|reqs| - 1];
      SumAtLeast(g, reqs[..|reqs| - 1], req, depth);
    }
  }

  /** A package comes out above a requirement from which no long chain starts. */
  lemma AboveRequirement(g: Packages, name: string, req: string, depth: nat)
    requires name in g && req in g && req in g[name] && depth > 0 && !HasChain(g, req, depth - 1)
    ensures Priority(g, name, depth) > Priority(g, req, depth)
  {
    SumAtLeast(g, g[name], req, depth - 1);
    NoChainSettles(g, req, depth - 1, depth);
  }

  /** A package with one requirement comes out above it exactly when the cutoff does not reach it. */
  lemma AboveOnlyRequirement(g: Packages, name: string, req: string, depth: nat)
    requires name in g && req in g && g[name] == [req] && depth > 0
    ensures Priority(g, name, depth) > Priority(g, req, depth) <==> !HasChain(g, req, depth - 1)
  {
    assert [req][..0] == [];
    assert PrioritySum(g, [req], depth - 1) == Priority(g, req, depth - 1);
    PriorityGrows(g, req, depth - 1);
    if !HasChain(g, req, depth - 1) {
      AboveRequirement(g, name, req, depth);
    }
  }

  // ----- the sort -----

  function Rank(prio: map<string, nat>, name: string): nat {
    if name in prio then prio[name] else 0
  }

  function Insert(x: string, s: seq<string>, prio: map<string, nat>): seq<string> {
    if s == [] || Rank(prio, x) >= Rank(prio, s[0]) then [x] + s else [s[0]] + Insert(x, s[1..], prio)
  }

  /** Python's sorted with reverse=True: higher priorities first, equal ones in the order given. */
  function SortedByPriority(names: seq<string>, prio: map<string, nat>): seq<string> {
    if names == [] then [] else Insert(names[0], SortedByPriority(names[1..], prio), prio)
  }

  /** The names of one priority, in order. */
  function OfPriority(s: seq<string>, prio: map<string, nat>, p: nat): seq<string> {
    if s == [] then [] else (if Rank(prio, s[0]) == p then [s[0]] else []) + OfPriority(s[1..], prio, p)
  }

  predicate Descending(s: seq<string>, prio: map<string, nat>) {
    forall i, j :: 0 <= i < j < |s| ==> Rank(prio, s[i]) >= Rank(prio, s[j])
  }

  lemma {:induction false} InsertSame(x: string, s: seq<string>, prio: map<string, nat>)
    ensures multiset(Insert(x, s, prio)) == multiset{x} + multiset(s)
  {
    hide Rank;
    if s != [] && Rank(prio, x) < Rank(prio, s[0]) {
      InsertSame(x, s[1..], prio);
      assert s == [s[0]] + s[1..];
    }
  }

  lemma {:induction false} SortedSame(names: seq<string>, prio: map<string, nat>)
    ensures multiset(SortedByPriority(names, prio)) == multiset(names)
  {
    hide Rank, Insert;
    if names != [] {
      SortedSame(names[1..], prio);
      InsertSame(names[0], SortedByPriority(names[1..], prio), prio);
      assert names == [names[0]] + names[1..];
    }
  }

  lemma {:induction false} InsertDescending(x: string, s: seq<string>, prio: map<string, nat>)
    requires Descending(s, prio)
    ensures Descending(Insert(x, s, prio), prio)
  {
    hide Rank;
    if s != [] && Rank(prio, x) < Rank(prio, s[0]) {
      InsertDescending(x, s[1..], prio);
      var t := Insert(x, s[1..], prio);
      forall k | 0 <= k < |t|
        ensures Rank(prio, t[k]) <= Rank(prio, s[0])
      {
        InsertSame(x, s[1..], prio);
        assert t[k] in multiset(t);
        assert t[k] == x || t[k] in s[1..];
      }
    }
  }

  lemma {:induction false} SortedDescending(names: seq<string>, prio: map<string, nat>)
    ensures Descending(SortedByPriority(names, prio), prio)
  {
    hide Rank, Insert, Descending;
    if names == [] {
      NoneDescending(prio);
    } else {
      SortedDescending(names[1..], prio);
      InsertDescending(names[0], SortedByPriority(names[1..], prio), prio);
    }
  }

  lemma NoneDescending(prio: map<string, nat>)
    ensures Descending([], prio)
  {
  }

  lemma {:induction false} InsertStable(x: string, s: seq<string>, prio: map<string, nat>, p: nat)
    ensures OfPriority(Insert(x, s, prio), prio, p) == (if Rank(prio, x) == p then [x] else []) + OfPriority(s, prio, p)
  {
    hide Rank;
    var r := Insert(x, s, prio);
    if s != [] && Rank(prio, x) < Rank(prio, s[0]) {
      InsertStable(x, s[1..], prio, p);
      assert r[0] == s[0] && r[1..] == Insert(x, s[1..], prio);
    } else {
      assert r[0] == x && r[1..] == s;
    }
  }

  /** The sort keeps packages of one priority in the order of the command line. */
  lemma {:induction false} SortedStable(names: seq<string>, prio: map<string, nat>, p: nat)
    ensures OfPriority(SortedByPriority(names, prio), prio, p) == OfPriority(names, prio, p)
  {
    hide Rank, Insert;
    if names != [] {
      SortedStable(names[1..], prio, p);
      InsertStable(names[0], SortedByPriority(names[1..], prio), prio, p);
    }
  }

  // ----- the link order -----

  function Priorities(g: Packages): map<string, nat> {
    map name | name in g :: Priority(g, name, LOOP_LIMIT)
  }

  method InLinkOrder(names: seq<string>, g: Packages) returns (order: seq<string>)
    requires forall n :: n in names <==> n in g
    ensures order == SortedByPriority(names, Priorities(g))
  {
    var prio: map<string, nat> := map[];
    for i := 0 to |names|
      invariant forall n :: n in prio <==> n in names[..i]
      invariant forall n :: n in prio ==> prio[n] == Priority(g, n, LOOP_LIMIT)
    {
      var p := CalculatePkgPriority(names[i], g, 1);
      prio := prio[names[i] := p];
    }
    assert names[..|names|] == names;
    assert prio == Priorities(g);
    order := SortedByPriority(names, prio);
  }

  lemma ChainExtends(g: Packages, name: string, req: string, edges: nat)
    requires name in g && req in g && req in g[name] && HasChain(g, req, edges)
    ensures HasChain(g, name, edges + 1)
  {
  }

  /** A package from which no chain of ten requirements starts comes before everything it requires. */
  lemma RequirersFirst(names: seq<string>, g: Packages, i: nat, j: nat)
    requires forall n :: n in names <==> n in g
    requires var order := SortedByPriority(names, Priorities(g));
             && i < |order| && j < |order| && order[i] in g && order[j] in g[order[i]]
             && !HasChain(g, order[i], 10)
    ensures i < j
  {
    hide SortedByPriority, Priority, HasChain;
    var prio := Priorities(g);
    var order := SortedByPriority(names, prio);
    var req := order[j];
    SortedDescending(names, prio);
    SortedSame(names, prio);
    assert req in multiset(order);
    assert req in names;
    if HasChain(g, req, LOOP_LIMIT - 1) {
      ChainExtends(g, order[i], req, LOOP_LIMIT - 1);
    }
    AboveRequirement(g, order[i], req, LOOP_LIMIT);
    assert Rank(prio, order[i]) > Rank(prio, req);
  }

  function TwoCycle(x: string, y: string): Packages {
    map[x := [y], y := [x]]
  }

  /** Two packages that require each other: chains of every length, and a priority that is the depth of the cutoff. */
  lemma {:induction false} TwoCycleChains(x: string, y: string, n: nat)
    requires x != y
    ensures HasChain(TwoCycle(x, y), x, n) && Priority(TwoCycle(x, y), x, n) == n
    decreases n
  {
    var g := TwoCycle(x, y);
    assert g == TwoCycle(y, x);
    if n > 0 {
      TwoCycleChains(y, x, n - 1);
      assert [y][..0] == [];
      assert PrioritySum(g, [y], n - 1) == PriorityOf(g, y, n - 1);
    }
  }

  /** Their order is that of the command line, so the second stands behind the first that it requires as well. */
  lemma TwoCycleOrder(x: string, y: string)
    requires x != y
    ensures Priorities(TwoCycle(x, y)) == map[x := 10, y := 10]
    ensures SortedByPriority([x, y], Priorities(TwoCycle(x, y))) == [x, y]
  {
    hide Priority, HasChain;
    var prio := Priorities(TwoCycle(x, y));
    assert TwoCycle(x, y) == TwoCycle(y, x);
    TwoCycleChains(x, y, LOOP_LIMIT);
    TwoCycleChains(y, x, LOOP_LIMIT);
    SortTwo(x, y, prio);
  }

  lemma SortTwo(x: string, y: string, prio: map<string, nat>)
    requires Rank(prio, x) == Rank(prio, y)
    ensures SortedByPriority([x, y], prio) == [x, y]
  {
    hide Rank;
    assert [x, y][1..] == [y] && [y][1..] == [];
    assert SortedByPriority([], prio) == [];
    assert SortedByPriority([y], prio) == Insert(y, [], prio) == [y];
    assert [x] + [y] == [x, y];
  }
}
