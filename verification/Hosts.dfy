/**
 * The alias check of parseHosts (core/Clash.Meta/config/config.go): a host may be an alias of
 * another name, and a circle of aliases is to be refused.
 *
 * The trie is a map from entries to values; `f` gives the entry of a name, which for a trie
 * without wildcards is its lowered labels. The aliases in it keep their spelling, and the check
 * compares them with a host's name as it is spelled. The hosts are entered in the order `order`
 * in which Go happens to walk the map. A host's decoded value may be missing (not a valid
 * value). The loop that follows the aliases has no bound of its own; `Hangs` stands for a loop
 * that never ends.
 */
module Hosts {
  import opened Prelude
  import opened Graphs

  /** An entry of the trie: the labels of a name. */
  type Key = seq<string>

  type Fold = string -> Key

  datatype HostValue = IPs(ips: seq<string>) | Alias(domain: string)

  /** What the trie holds. */
  type Tree = map<Key, HostValue>

  datatype Verdict = Clear | Cycle | Endless

  datatype Outcome = Accepted(tree: Tree) | InvalidValue(name: string) | CycleFound(name: string) | Hangs(name: string)

  function DefaultTree(f: Fold): Tree {
    map[f("localhost") := IPs(["127.0.0.1"])]
  }

  predicate IsAlias(f: Fold, tree: Tree, d: string) {
    f(d) in tree && tree[f(d)].Alias?
  }

  // ----- following aliases -----

  /** The k-th name met when following aliases from `start`, as it is spelled; None once there is none. */
  ghost function Chain(f: Fold, tree: Tree, start: string, k: nat): Option<string> {
    if k == 0 then Some(start)
    else
      var d := Chain(f, tree, start, k - 1);
      if d.Some? && IsAlias(f, tree, d.value) then Some(tree[f(d.value)].domain) else None
  }

  ghost predicate AliasAt(f: Fold, tree: Tree, start: string, k: nat) {
    Chain(f, tree, start, k).Some? && IsAlias(f, tree, Chain(f, tree, start, k).value)
  }

  /** The walk looks at the k-th name: an alias, and not of the name being entered. */
  ghost predicate GoesOnAt(f: Fold, tree: Tree, start: string, domain: string, k: nat) {
    AliasAt(f, tree, start, k) && tree[f(Chain(f, tree, start, k).value)].domain != domain
  }

  ghost predicate StopsAt(f: Fold, tree: Tree, start: string, domain: string, k: nat) {
    && (forall j :: 0 <= j < k ==> GoesOnAt(f, tree, start, domain, j))
    && !GoesOnAt(f, tree, start, domain, k)
  }

  /** How the loop ends, if it does. */
  ghost function WalkEnd(f: Fold, tree: Tree, start: string, domain: string): Verdict {
    if k: nat :| StopsAt(f, tree, start, domain, k) then
      if AliasAt(f, tree, start, k) then Cycle else Clear
    else Endless
  }

  lemma WalkEndAt(f: Fold, tree: Tree, start: string, domain: string, k: nat)
    requires StopsAt(f, tree, start, domain, k)
    ensures WalkEnd(f, tree, start, domain) == if AliasAt(f, tree, start, k) then Cycle else Clear
  {
    forall m: nat | StopsAt(f, tree, start, domain, m) ensures m == k {
      assert GoesOnAt(f, tree, start, domain, k) == GoesOnAt(f, tree, start, domain, m) == false;
    }
  }

  /** The same entry of the tree is met at i and at j. */
  ghost predicate Meets(f: Fold, tree: Tree, start: string, i: nat, j: nat) {
    && Chain(f, tree, start, i).Some? && Chain(f, tree, start, j).Some?
    && f(Chain(f, tree, start, i).value) == f(Chain(f, tree, start, j).value)
  }

  lemma {:induction false} MeetsAgain(f: Fold, tree: Tree, start: string, i: nat, j: nat, m: nat)
    requires Meets(f, tree, start, i, j)
    requires forall k :: i <= k < i + m ==> AliasAt(f, tree, start, k)
    ensures Meets(f, tree, start, i + m, j + m)
    ensures m > 0 ==> Chain(f, tree, start, i + m) == Chain(f, tree, start, j + m)
  {
    if m == 0 {
    } else {
      MeetsAgain(f, tree, start, i, j, m - 1);
      assert AliasAt(f, tree, start, i + m - 1);
    }
  }

  /** A walk over more aliases than the tree has entries meets an entry twice. */
  lemma ChainMeetsItself(f: Fold, tree: Tree, start: string) returns (i: nat, j: nat)
    requires forall k :: 0 <= k <= |tree| ==> AliasAt(f, tree, start, k)
    ensures i < j <= |tree| && Meets(f, tree, start, i, j)
  {
    var names := seq(|tree| + 1, k requires 0 <= k <= |tree| =>
      assert AliasAt(f, tree, start, k); f(Chain(f, tree, start, k).value));
    forall x | x in names ensures x in tree.Keys {
      var k :| 0 <= k < |names| && names[k] == x;
      assert AliasAt(f, tree, start, k);
    }
    i, j := Pigeonhole(names, tree.Keys);
    assert AliasAt(f, tree, start, i) && AliasAt(f, tree, start, j);
    assert names[i] == names[j];
  }

  lemma {:induction false} PeriodicGoesOn(f: Fold, tree: Tree, start: string, domain: string, i: nat, j: nat, k: nat)
    requires i < j <= |tree| && Meets(f, tree, start, i, j)
    requires forall m :: 0 <= m <= |tree| ==> GoesOnAt(f, tree, start, domain, m)
    ensures forall m :: 0 <= m <= k ==> GoesOnAt(f, tree, start, domain, m)
  {
    if k <= |tree| {
    } else {
      PeriodicGoesOn(f, tree, start, domain, i, j, k - 1);
      forall m | i <= m < k ensures AliasAt(f, tree, start, m) {
        assert GoesOnAt(f, tree, start, domain, m);
      }
      MeetsAgain(f, tree, start, i, j, k - j);
      assert GoesOnAt(f, tree, start, domain, k - (j - i));
    }
  }

  /** So it never ends. */
  lemma LongWalkIsEndless(f: Fold, tree: Tree, start: string, domain: string)
    requires forall k :: 0 <= k <= |tree| ==> GoesOnAt(f, tree, start, domain, k)
    ensures forall k: nat :: GoesOnAt(f, tree, start, domain, k)
    ensures WalkEnd(f, tree, start, domain) == Endless
  {
    forall k | 0 <= k <= |tree| ensures AliasAt(f, tree, start, k) {
      assert GoesOnAt(f, tree, start, domain, k);
    }
    var i, j := ChainMeetsItself(f, tree, start);
    forall k: nat ensures GoesOnAt(f, tree, start, domain, k) {
      PeriodicGoesOn(f, tree, start, domain, i, j, k);
    }
  }

  /** The loop of parseHosts; a walk of more steps than the tree has names is one that never ends. */
  method FollowAliases(f: Fold, tree: Tree, start: string, domain: string) returns (v: Verdict)
    ensures v == WalkEnd(f, tree, start, domain)
  {
    var name := start;
    var steps := 0;
    while f(name) in tree && tree[f(name)].Alias?
      invariant steps <= |tree|
      invariant Chain(f, tree, start, steps) == Some(name)
      invariant forall k :: 0 <= k < steps ==> GoesOnAt(f, tree, start, domain, k)
      decreases |tree| + 1 - steps
    {
      if tree[f(name)].domain == domain {
        WalkEndAt(f, tree, start, domain, steps);
        return Cycle;
      }
      if steps == |tree| {
        assert GoesOnAt(f, tree, start, domain, steps);
        LongWalkIsEndless(f, tree, start, domain);
        return Endless;
      }
      name := tree[f(name)].domain;
      steps := steps + 1;
    }
    WalkEndAt(f, tree, start, domain, steps);
    return Clear;
  }

  // ----- entering the hosts -----

  /** The hosts as they are spelled. */
  type HostTable = map<string, Option<HostValue>>

  predicate IsOrderOf(hosts: HostTable, order: seq<string>) {
    && |order| == |hosts|
    && (forall i, j :: 0 <= i < j < |order| ==> order[i] != order[j])
    && (forall i :: 0 <= i < |order| ==> order[i] in hosts)
  }

  /** What the check makes of the hosts entered in the given order into the given tree. */
  ghost function Enter(f: Fold, hosts: HostTable, tree: Tree, order: seq<string>): Outcome
    requires forall i :: 0 <= i < |order| ==> order[i] in hosts
    decreases |order|
  {
    if order == [] then Accepted(tree)
    else
      var domain := order[0];
      match hosts[domain]
      case None => InvalidValue(domain)
      case Some(value) =>
        match Verdicts(f, tree, domain, value)
        case Cycle => CycleFound(domain)
        case Endless => Hangs(domain)
        case Clear => Enter(f, hosts, tree[f(domain) := value], order[1..])
  }

  ghost function Verdicts(f: Fold, tree: Tree, domain: string, value: HostValue): Verdict {
    if value.Alias? then WalkEnd(f, tree, value.domain, domain) else Clear
  }

  ghost function ParseOutcome(f: Fold, hosts: HostTable, order: seq<string>): Outcome
    requires IsOrderOf(hosts, order)
  {
    Enter(f, hosts, DefaultTree(f), order)
  }

  method ParseHosts(f: Fold, hosts: HostTable, order: seq<string>) returns (r: Outcome)
    requires IsOrderOf(hosts, order)
    ensures r == ParseOutcome(f, hosts, order)
  {
    var tree := DefaultTree(f);
    for i := 0 to |order|
      invariant Enter(f, hosts, tree, order[i..]) == ParseOutcome(f, hosts, order)
    {
      var domain := order[i];
      SuffixShrinks(order, i);
      match hosts[domain] {
        case None =>
          return InvalidValue(domain);
        case Some(value) =>
          if value.Alias? {
            var v := FollowAliases(f, tree, value.domain, domain);
            match v {
              case Cycle => return CycleFound(domain);
              case Endless => return Hangs(domain);
              case Clear =>
            }
          }
          tree := tree[f(domain) := value];
      }
    }
    return Accepted(tree);
  }

  // ----- the links of a tree -----

  /** The aliases in the tree, between entries. */
  ghost function Links(f: Fold, tree: Tree): Graph<Key> {
    map n | n in tree && tree[n].Alias? :: {f(tree[n].domain)}
  }

  lemma {:induction false} ChainReaches(f: Fold, tree: Tree, start: string, k: nat)
    requires Chain(f, tree, start, k).Some?
    ensures Reaches(Links(f, tree), f(start), f(Chain(f, tree, start, k).value))
  {
    if k == 0 {
      ReachesSelf(Links(f, tree), f(start));
    } else {
      ChainReaches(f, tree, start, k - 1);
      var a, b := f(Chain(f, tree, start, k - 1).value), f(Chain(f, tree, start, k).value);
      ReachesEdge(Links(f, tree), a, b);
      ReachesTransitive(Links(f, tree), f(start), a, b);
    }
  }

  /** A walk along links is the chain of its first name. */
  lemma {:induction false} WalkIsChain(f: Fold, tree: Tree, start: string, w: seq<Key>, k: nat)
    requires IsWalk(Links(f, tree), w) && w[0] == f(start) && k < |w|
    ensures Chain(f, tree, start, k).Some? && f(Chain(f, tree, start, k).value) == w[k]
    ensures forall j :: 0 <= j < k ==> AliasAt(f, tree, start, j)
  {
    if k == 0 {
    } else {
      WalkIsChain(f, tree, start, w, k - 1);
      assert Edge(Links(f, tree), w[k - 1], w[k]);
    }
  }

  lemma {:induction false} ChainIsWalk(f: Fold, tree: Tree, start: string, i: nat, n: nat) returns (p: seq<Key>)
    requires forall k :: i <= k < i + n ==> AliasAt(f, tree, start, k)
    requires Chain(f, tree, start, i).Some?
    ensures IsWalk(Links(f, tree), p) && |p| == n + 1
    ensures Chain(f, tree, start, i + n).Some?
    ensures p[0] == f(Chain(f, tree, start, i).value) && p[n] == f(Chain(f, tree, start, i + n).value)
  {
    if n == 0 {
      p := [f(Chain(f, tree, start, i).value)];
    } else {
      var front := ChainIsWalk(f, tree, start, i, n - 1);
      assert AliasAt(f, tree, start, i + n - 1);
      var next := f(Chain(f, tree, start, i + n).value);
      p := front + [next];
      assert Edge(Links(f, tree), front[n - 1], next);
      forall m | 0 <= m < |p| - 1 ensures Edge(Links(f, tree), p[m], p[m + 1]) {
        if m < n - 1 {
          assert Edge(Links(f, tree), front[m], front[m + 1]);
        }
      }
    }
  }

  /** A chain of aliases without end runs into a circle. */
  lemma AliasesForEverCircle(f: Fold, tree: Tree, start: string)
    requires forall k: nat :: AliasAt(f, tree, start, k)
    ensures LeadsToCycle(Links(f, tree), f(start))
  {
    var i, j := ChainMeetsItself(f, tree, start);
    var p := ChainIsWalk(f, tree, start, i, j - i);
    assert IsCycle(Links(f, tree), p);
    ChainReaches(f, tree, start, i);
  }

  lemma CycleVerdictMeansReached(f: Fold, tree: Tree, start: string, domain: string)
    requires WalkEnd(f, tree, start, domain).Cycle?
    ensures Reaches(Links(f, tree), f(start), f(domain))
  {
    var k: nat :| StopsAt(f, tree, start, domain, k);
    WalkEndAt(f, tree, start, domain, k);
    assert Chain(f, tree, start, k + 1) == Some(domain);
    ChainReaches(f, tree, start, k + 1);
  }

  lemma {:induction false} EndlessGoesOn(f: Fold, tree: Tree, start: string, domain: string, m: nat)
    requires WalkEnd(f, tree, start, domain).Endless?
    ensures forall j :: 0 <= j <= m ==> GoesOnAt(f, tree, start, domain, j)
  {
    if m == 0 {
    } else {
      EndlessGoesOn(f, tree, start, domain, m - 1);
    }
    assert !StopsAt(f, tree, start, domain, m);
  }

  lemma EndlessMeansCircle(f: Fold, tree: Tree, start: string, domain: string)
    requires WalkEnd(f, tree, start, domain).Endless?
    ensures LeadsToCycle(Links(f, tree), f(start))
  {
    forall k: nat ensures AliasAt(f, tree, start, k) {
      EndlessGoesOn(f, tree, start, domain, k);
      assert GoesOnAt(f, tree, start, domain, k);
    }
    AliasesForEverCircle(f, tree, start);
  }

  /** Where a chain meets the name being entered, as it is spelled, the verdict is a cycle. */
  lemma {:induction false} SpelledMeansCycle(f: Fold, tree: Tree, start: string, domain: string, k: nat)
    requires forall j :: 0 <= j <= k ==> AliasAt(f, tree, start, j)
    requires AliasAt(f, tree, start, k) && tree[f(Chain(f, tree, start, k).value)].domain == domain
    ensures WalkEnd(f, tree, start, domain).Cycle?
  {
    if m :| 0 <= m < k && !GoesOnAt(f, tree, start, domain, m) {
      assert AliasAt(f, tree, start, m);
      SpelledMeansCycle(f, tree, start, domain, m);
    } else {
      assert StopsAt(f, tree, start, domain, k);
      WalkEndAt(f, tree, start, domain, k);
    }
  }

  // ----- what a configuration says -----

  ghost predicate AllValid(hosts: HostTable) {
    forall d :: d in hosts ==> hosts[d].Some?
  }

  /** No two hosts are the same name but for their spelling. */
  ghost predicate FoldsApart(f: Fold, hosts: HostTable) {
    forall d, e :: d in hosts && e in hosts && f(d) == f(e) ==> d == e
  }

  ghost predicate Aliased(hosts: HostTable, d: string) {
    d in hosts && hosts[d].Some? && hosts[d].value.Alias?
  }

  function Target(hosts: HostTable, d: string): string
    requires d in hosts && hosts[d].Some? && hosts[d].value.Alias?
  {
    hosts[d].value.domain
  }

  /** The host d makes the entry a an alias of the entry b. */
  ghost predicate LinkedBy(f: Fold, hosts: HostTable, d: string, a: Key, b: Key) {
    Aliased(hosts, d) && f(d) == a && f(Target(hosts, d)) == b
  }

  /** The aliases of the configuration, between entries. */
  ghost function AliasGraph(f: Fold, hosts: HostTable): Graph<Key> {
    map a | a in (set d | d in hosts :: f(d)) :: Targets(f, hosts, a)
  }

  ghost function Targets(f: Fold, hosts: HostTable, a: Key): set<Key> {
    set d | d in hosts && Aliased(hosts, d) && f(d) == a :: f(Target(hosts, d))
  }

  lemma AliasEdge(f: Fold, hosts: HostTable, a: Key, b: Key)
    ensures Edge(AliasGraph(f, hosts), a, b) <==> exists d :: LinkedBy(f, hosts, d, a, b)
  {
    if Edge(AliasGraph(f, hosts), a, b) {
      assert b in Targets(f, hosts, a);
      var d :| d in hosts && Aliased(hosts, d) && f(d) == a && f(Target(hosts, d)) == b;
      assert LinkedBy(f, hosts, d, a, b);
    }
  }

  lemma HostEdge(f: Fold, hosts: HostTable, d: string)
    requires Aliased(hosts, d)
    ensures Edge(AliasGraph(f, hosts), f(d), f(Target(hosts, d)))
  {
    assert LinkedBy(f, hosts, d, f(d), f(Target(hosts, d)));
    AliasEdge(f, hosts, f(d), f(Target(hosts, d)));
  }

  lemma AliasGraphIsFunctional(f: Fold, hosts: HostTable)
    requires FoldsApart(f, hosts)
    ensures Functional(AliasGraph(f, hosts))
  {
    forall a, b, c | Edge(AliasGraph(f, hosts), a, b) && Edge(AliasGraph(f, hosts), a, c) ensures b == c {
      AliasEdge(f, hosts, a, b);
      AliasEdge(f, hosts, a, c);
    }
  }

  /** The tree holds the hosts in `done`, and no other alias. */
  ghost predicate Holds(f: Fold, hosts: HostTable, tree: Tree, done: set<string>) {
    && done <= hosts.Keys
    && (forall d :: d in done ==> f(d) in tree && hosts[d] == Some(tree[f(d)]))
    && (forall n :: n in tree && tree[n].Alias? ==> EnteredAs(f, done, n))
  }

  ghost predicate EnteredAs(f: Fold, done: set<string>, n: Key) {
    exists d :: d in done && f(d) == n
  }

  lemma HoldsNext(f: Fold, hosts: HostTable, tree: Tree, done: set<string>, domain: string, value: HostValue)
    requires FoldsApart(f, hosts) && Holds(f, hosts, tree, done)
    requires domain in hosts && domain !in done && hosts[domain] == Some(value)
    ensures Holds(f, hosts, tree[f(domain) := value], done + {domain})
  {
    var next := tree[f(domain) := value];
    forall n | n in next && next[n].Alias? ensures EnteredAs(f, done + {domain}, n) {
      if n == f(domain) {
        assert domain in done + {domain};
      } else {
        assert EnteredAs(f, done, n);
        var d :| d in done && f(d) == n;
        assert d in done + {domain};
      }
    }
  }

  /** The hosts of a part of the configuration. */
  ghost function Only(hosts: HostTable, done: set<string>): HostTable {
    map d | d in hosts && d in done :: hosts[d]
  }

  lemma OnlyWithin(f: Fold, hosts: HostTable, small: set<string>, large: set<string>)
    requires small <= large
    ensures Within(AliasGraph(f, Only(hosts, small)), AliasGraph(f, Only(hosts, large)))
    ensures Within(AliasGraph(f, Only(hosts, large)), AliasGraph(f, hosts))
  {
    forall a, b | Edge(AliasGraph(f, Only(hosts, small)), a, b) ensures Edge(AliasGraph(f, Only(hosts, large)), a, b) {
      AliasEdge(f, Only(hosts, small), a, b);
      var d :| LinkedBy(f, Only(hosts, small), d, a, b);
      assert LinkedBy(f, Only(hosts, large), d, a, b);
      AliasEdge(f, Only(hosts, large), a, b);
    }
    forall a, b | Edge(AliasGraph(f, Only(hosts, large)), a, b) ensures Edge(AliasGraph(f, hosts), a, b) {
      AliasEdge(f, Only(hosts, large), a, b);
      var d :| LinkedBy(f, Only(hosts, large), d, a, b);
      assert LinkedBy(f, hosts, d, a, b);
      AliasEdge(f, hosts, a, b);
    }
  }

  /** The links of a tree are the aliases of the hosts in it. */
  lemma LinksAre(f: Fold, hosts: HostTable, tree: Tree, done: set<string>, a: Key, b: Key)
    requires Holds(f, hosts, tree, done)
    ensures Edge(Links(f, tree), a, b) <==> Edge(AliasGraph(f, Only(hosts, done)), a, b)
  {
    AliasEdge(f, Only(hosts, done), a, b);
    if Edge(Links(f, tree), a, b) {
      assert EnteredAs(f, done, a);
      var d :| d in done && f(d) == a;
      assert LinkedBy(f, Only(hosts, done), d, a, b);
    }
    if d :| LinkedBy(f, Only(hosts, done), d, a, b) {
      assert d in done;
    }
  }

  lemma LinksWithin(f: Fold, hosts: HostTable, tree: Tree, done: set<string>)
    requires Holds(f, hosts, tree, done)
    ensures Within(Links(f, tree), AliasGraph(f, Only(hosts, done)))
    ensures Within(AliasGraph(f, Only(hosts, done)), Links(f, tree))
    ensures Within(Links(f, tree), AliasGraph(f, hosts))
  {
    OnlyWithin(f, hosts, done, done);
    forall a, b ensures Edge(Links(f, tree), a, b) <==> Edge(AliasGraph(f, Only(hosts, done)), a, b) {
      LinksAre(f, hosts, tree, done, a, b);
    }
  }

  lemma LinksAreAll(f: Fold, hosts: HostTable, tree: Tree)
    requires Holds(f, hosts, tree, hosts.Keys)
    ensures Within(AliasGraph(f, hosts), Links(f, tree)) && Within(Links(f, tree), AliasGraph(f, hosts))
  {
    assert Only(hosts, hosts.Keys) == hosts;
    LinksWithin(f, hosts, tree, hosts.Keys);
  }

  /** Where hosts are told apart, an alias of the tree is that of one host. */
  lemma WhoseAlias(f: Fold, hosts: HostTable, tree: Tree, done: set<string>, n: Key) returns (d: string)
    requires Holds(f, hosts, tree, done) && n in tree && tree[n].Alias?
    ensures d in done && f(d) == n && Aliased(hosts, d) && Target(hosts, d) == tree[n].domain
  {
    assert EnteredAs(f, done, n);
    d :| d in done && f(d) == n;
  }

  // ----- circles that the check cannot see -----

  /**
   * The host d lies on a circle of aliases, and the alias that leads back to it there is its
   * own or does not spell it as it is entered. When d is entered last of its circle, the check
   * does not notice that it closes one.
   */
  ghost predicate Unseen(f: Fold, hosts: HostTable, d: string) {
    && d in hosts && OnCycle(AliasGraph(f, hosts), f(d))
    && forall a :: LeadsBack(f, hosts, a, d) ==> a == d || Target(hosts, a) != d
  }

  /** The alias of a, reached from d, is d in some spelling. */
  ghost predicate LeadsBack(f: Fold, hosts: HostTable, a: string, d: string) {
    Aliased(hosts, a) && f(Target(hosts, a)) == f(d) && Reaches(AliasGraph(f, hosts), f(d), f(a))
  }

  ghost predicate ReachesUnseen(f: Fold, hosts: HostTable, n: Key) {
    exists d :: Unseen(f, hosts, d) && Reaches(AliasGraph(f, hosts), n, f(d))
  }

  /** Every circle in a part of the alias graph has an unseen host. */
  ghost predicate CirclesUnseen(f: Fold, hosts: HostTable, g: Graph<Key>) {
    forall n :: OnCycle(g, n) ==> ReachesUnseen(f, hosts, n)
  }

  /** An unseen host never makes the check report a cycle, whatever has been entered before. */
  lemma UnseenIsNotSeen(f: Fold, hosts: HostTable, tree: Tree, done: set<string>, d: string)
    requires Holds(f, hosts, tree, done) && d !in done && Unseen(f, hosts, d) && Aliased(hosts, d)
    ensures !WalkEnd(f, tree, Target(hosts, d), d).Cycle?
  {
    var g, start := AliasGraph(f, hosts), Target(hosts, d);
    if WalkEnd(f, tree, start, d).Cycle? {
      var k: nat :| StopsAt(f, tree, start, d, k);
      WalkEndAt(f, tree, start, d, k);
      var n := f(Chain(f, tree, start, k).value);
      var a := WhoseAlias(f, hosts, tree, done, n);
      LinksWithin(f, hosts, tree, done);
      ChainReaches(f, tree, start, k);
      ReachesWithin(Links(f, tree), g, f(start), n);
      HostEdge(f, hosts, d);
      ReachesEdge(g, f(d), f(start));
      ReachesTransitive(g, f(d), f(start), n);
      assert LeadsBack(f, hosts, a, d);
    }
  }

  /** The chain of d comes back to it in k steps, over aliases in the tree. */
  ghost predicate ComesBack(f: Fold, hosts: HostTable, tree: Tree, d: string, k: nat)
    requires Aliased(hosts, d)
  {
    && (forall j :: 0 <= j < k ==> AliasAt(f, tree, Target(hosts, d), j))
    && Chain(f, tree, Target(hosts, d), k).Some? && f(Chain(f, tree, Target(hosts, d), k).value) == f(d)
  }

  /** The chain of an entered host that closes a circle comes back to it, over aliases of other hosts. */
  lemma ChainComesBack(f: Fold, hosts: HostTable, tree: Tree, done: set<string>, d: string) returns (k: nat)
    requires FoldsApart(f, hosts) && Holds(f, hosts, tree, done) && d !in done && Aliased(hosts, d)
    requires OnCycle(Links(f, tree[f(d) := hosts[d].value]), f(d))
    ensures ComesBack(f, hosts, tree, d, k)
  {
    var g := Links(f, tree[f(d) := hosts[d].value]);
    var p :| IsCycle(g, p) && p[0] == f(d);
    assert Edge(g, p[0], p[1]);
    var i := 1;
    while p[i] != f(d)
      invariant 1 <= i < |p|
      invariant forall j :: 1 <= j < i ==> p[j] != f(d)
      decreases |p| - i
    {
      i := i + 1;
    }
    var q := p[1..i + 1];
    forall m | 0 <= m < |q| - 1 ensures Edge(Links(f, tree), q[m], q[m + 1]) {
      assert Edge(g, p[m + 1], p[m + 2]);
    }
    k := i - 1;
    WalkIsChain(f, tree, Target(hosts, d), q, k);
  }

  ghost function NameAt(f: Fold, tree: Tree, start: string, j: nat): Key {
    if Chain(f, tree, start, j).Some? then f(Chain(f, tree, start, j).value) else []
  }

  /** The names met on the way back, and d itself. */
  ghost function Round(f: Fold, tree: Tree, start: string, k: nat): set<Key> {
    set j | 0 <= j <= k :: NameAt(f, tree, start, j)
  }

  /** The alias of a name on the way back is the next name on it. */
  lemma RoundStep(f: Fold, hosts: HostTable, tree: Tree, done: set<string>, start: string, j: nat, b: Key)
    requires FoldsApart(f, hosts) && Holds(f, hosts, tree, done) && AliasAt(f, tree, start, j)
    requires Edge(AliasGraph(f, hosts), NameAt(f, tree, start, j), b)
    ensures b == NameAt(f, tree, start, j + 1)
  {
    var a := NameAt(f, tree, start, j);
    AliasEdge(f, hosts, a, b);
    var e :| LinkedBy(f, hosts, e, a, b);
    var e' := WhoseAlias(f, hosts, tree, done, a);
    assert e == e';
  }

  lemma RoundStart(f: Fold, hosts: HostTable, tree: Tree, d: string, b: Key)
    requires FoldsApart(f, hosts) && Aliased(hosts, d) && Edge(AliasGraph(f, hosts), f(d), b)
    ensures b == NameAt(f, tree, Target(hosts, d), 0)
  {
    AliasEdge(f, hosts, f(d), b);
    var e :| LinkedBy(f, hosts, e, f(d), b);
    assert e == d;
  }

  lemma RoundIsClosed(f: Fold, hosts: HostTable, tree: Tree, done: set<string>, d: string, k: nat, a: Key, b: Key)
    requires FoldsApart(f, hosts) && Holds(f, hosts, tree, done) && Aliased(hosts, d) && ComesBack(f, hosts, tree, d, k)
    requires a in Round(f, tree, Target(hosts, d), k) && Edge(AliasGraph(f, hosts), a, b)
    ensures b in Round(f, tree, Target(hosts, d), k)
  {
    var start := Target(hosts, d);
    var j :| 0 <= j <= k && a == NameAt(f, tree, start, j);
    if j == k {
      RoundStart(f, hosts, tree, d, b);
    } else {
      RoundStep(f, hosts, tree, done, start, j, b);
    }
  }

  /** A host whose entry is let through and yet closes a circle is unseen. */
  lemma LetThroughIsUnseen(f: Fold, hosts: HostTable, tree: Tree, done: set<string>, d: string)
    requires FoldsApart(f, hosts) && Holds(f, hosts, tree, done) && d in hosts && d !in done && Aliased(hosts, d)
    requires WalkEnd(f, tree, Target(hosts, d), d).Clear?
    requires OnCycle(Links(f, tree[f(d) := hosts[d].value]), f(d))
    ensures Unseen(f, hosts, d)
  {
    var g, start := AliasGraph(f, hosts), Target(hosts, d);
    HoldsNext(f, hosts, tree, done, d, hosts[d].value);
    LinksWithin(f, hosts, tree[f(d) := hosts[d].value], done + {d});
    OnCycleWithin(Links(f, tree[f(d) := hosts[d].value]), g, f(d));
    var k := ChainComesBack(f, hosts, tree, done, d);
    forall a | LeadsBack(f, hosts, a, d) ensures a == d || Target(hosts, a) != d {
      if a != d && Target(hosts, a) == d {
        var j := WhereOnRound(f, hosts, tree, done, d, k, a);
        SpelledMeansCycle(f, tree, start, d, j);
      }
    }
  }

  lemma ReachedIsOnRound(f: Fold, hosts: HostTable, tree: Tree, done: set<string>, d: string, k: nat, n: Key)
    requires FoldsApart(f, hosts) && Holds(f, hosts, tree, done) && Aliased(hosts, d) && ComesBack(f, hosts, tree, d, k)
    requires Reaches(AliasGraph(f, hosts), f(d), n)
    ensures n in Round(f, tree, Target(hosts, d), k)
  {
    var g, s := AliasGraph(f, hosts), Round(f, tree, Target(hosts, d), k);
    var w :| IsWalk(g, w) && w[0] == f(d) && w[|w| - 1] == n;
    forall x, y | x in s && Edge(g, x, y) ensures y in s {
      RoundIsClosed(f, hosts, tree, done, d, k, x, y);
    }
    assert f(d) == NameAt(f, tree, Target(hosts, d), k);
    WalkStaysIn(g, s, w, |w| - 1);
  }

  /** A host reached from d is met on the way back to it. */
  lemma WhereOnRound(f: Fold, hosts: HostTable, tree: Tree, done: set<string>, d: string, k: nat, a: string)
    returns (j: nat)
    requires FoldsApart(f, hosts) && Holds(f, hosts, tree, done) && Aliased(hosts, d) && ComesBack(f, hosts, tree, d, k)
    requires Aliased(hosts, a) && a != d && Reaches(AliasGraph(f, hosts), f(d), f(a))
    ensures j < k && AliasAt(f, tree, Target(hosts, d), j)
    ensures tree[f(Chain(f, tree, Target(hosts, d), j).value)].domain == Target(hosts, a)
  {
    ReachedIsOnRound(f, hosts, tree, done, d, k, f(a));
    j :| 0 <= j <= k && f(a) == NameAt(f, tree, Target(hosts, d), j);
    assert f(a) != f(d) && NameAt(f, tree, Target(hosts, d), k) == f(d);
    assert j < k && AliasAt(f, tree, Target(hosts, d), j);
    var e := WhoseAlias(f, hosts, tree, done, f(a));
    assert e == a;
  }

  // ----- entering host after host -----

  lemma LinksAreFunctional(f: Fold, tree: Tree)
    ensures Functional(Links(f, tree))
  {
  }

  /** A circle of the grown tree that does not pass the new entry was there before. */
  lemma OldCircle(f: Fold, tree: Tree, n: Key, value: HostValue, p: seq<Key>)
    requires IsCycle(Links(f, tree[n := value]), p) && n !in p
    ensures IsCycle(Links(f, tree), p)
  {
    forall i | 0 <= i < |p| - 1 ensures Edge(Links(f, tree), p[i], p[i + 1]) {
      assert Edge(Links(f, tree[n := value]), p[i], p[i + 1]);
      assert p[i] in p;
    }
  }

  /** Letting a host in never completes a circle without an unseen host. */
  lemma LetInKeepsUnseen(f: Fold, hosts: HostTable, tree: Tree, done: set<string>, d: string, value: HostValue)
    requires FoldsApart(f, hosts) && Holds(f, hosts, tree, done)
    requires d in hosts && d !in done && hosts[d] == Some(value) && Verdicts(f, tree, d, value).Clear?
    requires CirclesUnseen(f, hosts, Links(f, tree))
    ensures CirclesUnseen(f, hosts, Links(f, tree[f(d) := value]))
  {
    var next := tree[f(d) := value];
    HoldsNext(f, hosts, tree, done, d, value);
    LinksWithin(f, hosts, next, done + {d});
    forall n | OnCycle(Links(f, next), n) ensures ReachesUnseen(f, hosts, n) {
      var p :| IsCycle(Links(f, next), p) && p[0] == n;
      if f(d) in p {
        LinksAreFunctional(f, next);
        CycleMember(Links(f, next), p, f(d));
        if value.Alias? {
          LetThroughIsUnseen(f, hosts, tree, done, d);
          ReachesWithin(Links(f, next), AliasGraph(f, hosts), n, f(d));
        }
      } else {
        OldCircle(f, tree, f(d), value, p);
        assert OnCycle(Links(f, tree), n);
      }
    }
  }

  /** A hang means that a host leads into a circle with an unseen host, from outside it. */
  ghost predicate LeadsInto(f: Fold, hosts: HostTable, e: string, d: string) {
    && Aliased(hosts, e) && Unseen(f, hosts, d)
    && Reaches(AliasGraph(f, hosts), f(e), f(d)) && !Reaches(AliasGraph(f, hosts), f(d), f(e))
  }

  lemma HangLeadsInto(f: Fold, hosts: HostTable, tree: Tree, done: set<string>, e: string) returns (d: string)
    requires FoldsApart(f, hosts) && Holds(f, hosts, tree, done) && e !in done && Aliased(hosts, e)
    requires CirclesUnseen(f, hosts, Links(f, tree)) && WalkEnd(f, tree, Target(hosts, e), e).Endless?
    ensures LeadsInto(f, hosts, e, d)
  {
    var g, t := AliasGraph(f, hosts), f(Target(hosts, e));
    EndlessMeansCircle(f, tree, Target(hosts, e), e);
    var n :| Reaches(Links(f, tree), t, n) && OnCycle(Links(f, tree), n);
    LinksWithin(f, hosts, tree, done);
    ReachesWithin(Links(f, tree), g, t, n);
    d :| Unseen(f, hosts, d) && Reaches(g, n, f(d));
    HostEdge(f, hosts, e);
    ReachesEdge(g, f(e), t);
    ReachesTransitive(g, f(e), t, n);
    ReachesTransitive(g, f(e), n, f(d));
    if Reaches(g, f(d), f(e)) {
      ReachesTransitive(g, n, f(d), f(e));
      OnlyEnteredOnCircle(f, hosts, tree, done, n, e);
    }
  }

  /** A circle of the tree leads to no host that has not been entered. */
  lemma OnlyEnteredOnCircle(f: Fold, hosts: HostTable, tree: Tree, done: set<string>, n: Key, e: string)
    requires FoldsApart(f, hosts) && Holds(f, hosts, tree, done) && OnCycle(Links(f, tree), n)
    requires e in hosts && Reaches(AliasGraph(f, hosts), n, f(e))
    ensures e in done
  {
    var g := AliasGraph(f, hosts);
    var p :| IsCycle(Links(f, tree), p) && p[0] == n;
    LinksWithin(f, hosts, tree, done);
    WalkWithin(Links(f, tree), g, p);
    AliasGraphIsFunctional(f, hosts);
    CycleIsClosed(g, p, n, f(e));
    var i :| 0 <= i < |p| && p[i] == f(e);
    var k := if i == |p| - 1 then 0 else i;
    assert Edge(Links(f, tree), p[k], p[k + 1]);
    var e' := WhoseAlias(f, hosts, tree, done, f(e));
    assert e' == e;
  }

  /** A cycle that is reported is one of the configuration. */
  lemma ReportedIsCircle(f: Fold, hosts: HostTable, tree: Tree, done: set<string>, d: string)
    requires Holds(f, hosts, tree, done) && Aliased(hosts, d) && WalkEnd(f, tree, Target(hosts, d), d).Cycle?
    ensures OnCycle(AliasGraph(f, hosts), f(d))
  {
    var g, t := AliasGraph(f, hosts), f(Target(hosts, d));
    CycleVerdictMeansReached(f, tree, Target(hosts, d), d);
    LinksWithin(f, hosts, tree, done);
    ReachesWithin(Links(f, tree), g, t, f(d));
    HostEdge(f, hosts, d);
    EdgeAndBack(g, f(d), t);
  }

  /** The part of an order that is still to come. */
  ghost predicate Rest(hosts: HostTable, done: set<string>, order: seq<string>) {
    && (forall i, j :: 0 <= i < j < |order| ==> order[i] != order[j])
    && (forall i :: 0 <= i < |order| ==> order[i] in hosts && order[i] !in done)
  }

  lemma RestNext(hosts: HostTable, done: set<string>, order: seq<string>)
    requires Rest(hosts, done, order) && order != []
    ensures Rest(hosts, done + {order[0]}, order[1..])
    ensures Elements(order) == {order[0]} + Elements(order[1..])
  {
    assert order == [order[0]] + order[1..];
  }

  /** What an outcome tells, from any point of the order on. */
  ghost predicate Tells(f: Fold, hosts: HostTable, r: Outcome, done: set<string>) {
    match r
    case Accepted(tree) => Holds(f, hosts, tree, done) && CirclesUnseen(f, hosts, Links(f, tree))
    case InvalidValue(d) => d in hosts && hosts[d].None?
    case CycleFound(d) => OnCycle(AliasGraph(f, hosts), f(d))
    case Hangs(e) => exists d :: LeadsInto(f, hosts, e, d)
  }

  lemma {:induction false} EnterTells(f: Fold, hosts: HostTable, tree: Tree, done: set<string>, order: seq<string>)
    requires FoldsApart(f, hosts) && Holds(f, hosts, tree, done) && CirclesUnseen(f, hosts, Links(f, tree))
    requires Rest(hosts, done, order)
    ensures Tells(f, hosts, Enter(f, hosts, tree, order), done + Elements(order))
    decreases |order|
  {
    if order == [] {
      assert done + Elements(order) == done;
    } else {
      var d := order[0];
      RestNext(hosts, done, order);
      if hosts[d].Some? {
        var value := hosts[d].value;
        match Verdicts(f, tree, d, value) {
          case Cycle =>
            ReportedIsCircle(f, hosts, tree, done, d);
          case Endless =>
            var u := HangLeadsInto(f, hosts, tree, done, d);
          case Clear =>
            HoldsNext(f, hosts, tree, done, d, value);
            LetInKeepsUnseen(f, hosts, tree, done, d, value);
            EnterTells(f, hosts, tree[f(d) := value], done + {d}, order[1..]);
            assert done + {d} + Elements(order[1..]) == done + Elements(order);
        }
      }
    }
  }

  lemma StartHolds(f: Fold, hosts: HostTable)
    ensures Holds(f, hosts, DefaultTree(f), {}) && CirclesUnseen(f, hosts, Links(f, DefaultTree(f)))
  {
    EdgelessIsAcyclic(Links(f, DefaultTree(f)));
    AcyclicIffNoneOnCycle(Links(f, DefaultTree(f)));
  }

  lemma OrderCovers(hosts: HostTable, order: seq<string>)
    requires IsOrderOf(hosts, order)
    ensures Elements(order) == hosts.Keys && Rest(hosts, {}, order)
  {
    DistinctSize(order);
    SubsetSize(Elements(order), hosts.Keys);
  }

  /** Whatever the order, the outcome tells the truth about the configuration. */
  lemma OutcomeTells(f: Fold, hosts: HostTable, order: seq<string>)
    requires FoldsApart(f, hosts) && IsOrderOf(hosts, order)
    ensures Tells(f, hosts, ParseOutcome(f, hosts, order), hosts.Keys)
  {
    StartHolds(f, hosts);
    OrderCovers(hosts, order);
    EnterTells(f, hosts, DefaultTree(f), {}, order);
    assert {} + Elements(order) == hosts.Keys;
  }

  /** A configuration with a value that is not valid is never accepted. */
  lemma {:induction false} AcceptedMeansValid(f: Fold, hosts: HostTable, tree: Tree, order: seq<string>)
    requires forall i :: 0 <= i < |order| ==> order[i] in hosts
    requires Enter(f, hosts, tree, order).Accepted?
    ensures forall i :: 0 <= i < |order| ==> hosts[order[i]].Some?
    decreases |order|
  {
    if order == [] {
    } else {
      AcceptedMeansValid(f, hosts, tree[f(order[0]) := hosts[order[0]].value], order[1..]);
      forall i | 0 <= i < |order| ensures hosts[order[i]].Some? {
        assert i > 0 ==> order[i] == order[1..][i - 1];
      }
    }
  }

  // ----- when the check keeps its promise -----

  /** For every order in which Go walks the map: the loop ends, and exactly the circles are refused. */
  ghost predicate KeepsPromise(f: Fold, hosts: HostTable) {
    forall order :: IsOrderOf(hosts, order) ==>
      && !ParseOutcome(f, hosts, order).Hangs?
      && (ParseOutcome(f, hosts, order).Accepted? <==> Acyclic(AliasGraph(f, hosts)))
  }

  /** No host leads into a circle with an unseen host from outside. */
  ghost predicate NoLeadIn(f: Fold, hosts: HostTable) {
    forall e, d :: !LeadsInto(f, hosts, e, d)
  }

  ghost predicate NoneUnseen(f: Fold, hosts: HostTable) {
    forall d :: !Unseen(f, hosts, d)
  }

  /** A circle on which every alias is seen. */
  ghost predicate SeenCircle(f: Fold, hosts: HostTable, n: Key) {
    OnCycle(AliasGraph(f, hosts), n) && !ReachesUnseen(f, hosts, n)
  }

  /** The exact condition. */
  ghost predicate Sound(f: Fold, hosts: HostTable) {
    NoLeadIn(f, hosts) && (NoneUnseen(f, hosts) || exists n :: SeenCircle(f, hosts, n))
  }

  lemma SoundKeepsPromise(f: Fold, hosts: HostTable, order: seq<string>)
    requires AllValid(hosts) && FoldsApart(f, hosts) && IsOrderOf(hosts, order) && Sound(f, hosts)
    ensures !ParseOutcome(f, hosts, order).Hangs?
    ensures ParseOutcome(f, hosts, order).Accepted? <==> Acyclic(AliasGraph(f, hosts))
  {
    OutcomeTells(f, hosts, order);
    AcyclicIffNoneOnCycle(AliasGraph(f, hosts));
    var r := ParseOutcome(f, hosts, order);
    if r.Accepted? {
      AcceptedCirclesUnseen(f, hosts, r.tree);
      SoundHasNoUnseen(f, hosts);
    }
  }

  lemma SoundHasNoUnseen(f: Fold, hosts: HostTable)
    requires Sound(f, hosts) && CirclesUnseen(f, hosts, AliasGraph(f, hosts))
    ensures Acyclic(AliasGraph(f, hosts))
  {
    forall n ensures !SeenCircle(f, hosts, n) {
      assert OnCycle(AliasGraph(f, hosts), n) ==> ReachesUnseen(f, hosts, n);
    }
    assert NoneUnseen(f, hosts);
    AcyclicIffNoneOnCycle(AliasGraph(f, hosts));
    forall n ensures !OnCycle(AliasGraph(f, hosts), n) {
      assert !ReachesUnseen(f, hosts, n);
    }
  }

  /** What has been accepted has no circle that is seen. */
  lemma AcceptedCirclesUnseen(f: Fold, hosts: HostTable, tree: Tree)
    requires Holds(f, hosts, tree, hosts.Keys) && CirclesUnseen(f, hosts, Links(f, tree))
    ensures CirclesUnseen(f, hosts, AliasGraph(f, hosts))
  {
    LinksAreAll(f, hosts, tree);
    forall n | OnCycle(AliasGraph(f, hosts), n) ensures ReachesUnseen(f, hosts, n) {
      OnCycleWithin(AliasGraph(f, hosts), Links(f, tree), n);
    }
  }

  // ----- orders in which nothing goes wrong for a while -----

  lemma CycleVerdictCloses(f: Fold, hosts: HostTable, tree: Tree, done: set<string>, d: string)
    requires Holds(f, hosts, tree, done) && Aliased(hosts, d) && WalkEnd(f, tree, Target(hosts, d), d).Cycle?
    ensures !Acyclic(AliasGraph(f, Only(hosts, done + {d})))
  {
    var h, t := AliasGraph(f, Only(hosts, done + {d})), f(Target(hosts, d));
    CycleVerdictMeansReached(f, tree, Target(hosts, d), d);
    LinksWithin(f, hosts, tree, done);
    OnlyWithin(f, hosts, done, done + {d});
    ReachesWithin(Links(f, tree), AliasGraph(f, Only(hosts, done)), t, f(d));
    ReachesWithin(AliasGraph(f, Only(hosts, done)), h, t, f(d));
    HostEdge(f, Only(hosts, done + {d}), d);
    EdgeAndBack(h, f(d), t);
    AcyclicIffNoneOnCycle(h);
  }

  lemma EndlessVerdictCloses(f: Fold, hosts: HostTable, tree: Tree, done: set<string>, d: string)
    requires Holds(f, hosts, tree, done) && Aliased(hosts, d) && WalkEnd(f, tree, Target(hosts, d), d).Endless?
    ensures !Acyclic(AliasGraph(f, Only(hosts, done)))
  {
    EndlessMeansCircle(f, tree, Target(hosts, d), d);
    var n :| Reaches(Links(f, tree), f(Target(hosts, d)), n) && OnCycle(Links(f, tree), n);
    LinksWithin(f, hosts, tree, done);
    OnCycleWithin(Links(f, tree), AliasGraph(f, Only(hosts, done)), n);
    AcyclicIffNoneOnCycle(AliasGraph(f, Only(hosts, done)));
  }

  /** Where a part of the configuration has no circle, entering it raises nothing. */
  lemma ClearWhenAcyclic(f: Fold, hosts: HostTable, tree: Tree, done: set<string>, d: string, all: set<string>)
    requires Holds(f, hosts, tree, done) && d in hosts && hosts[d].Some? && done + {d} <= all
    requires Acyclic(AliasGraph(f, Only(hosts, all)))
    ensures Verdicts(f, tree, d, hosts[d].value).Clear?
  {
    OnlyWithin(f, hosts, done + {d}, all);
    AcyclicWithin(AliasGraph(f, Only(hosts, done + {d})), AliasGraph(f, Only(hosts, all)));
    OnlyWithin(f, hosts, done, done + {d});
    AcyclicWithin(AliasGraph(f, Only(hosts, done)), AliasGraph(f, Only(hosts, done + {d})));
    if Aliased(hosts, d) {
      if WalkEnd(f, tree, Target(hosts, d), d).Cycle? {
        CycleVerdictCloses(f, hosts, tree, done, d);
      } else if WalkEnd(f, tree, Target(hosts, d), d).Endless? {
        EndlessVerdictCloses(f, hosts, tree, done, d);
      }
    }
  }

  lemma EnterNext(f: Fold, hosts: HostTable, tree: Tree, d: string, rest: seq<string>)
    requires d in hosts && hosts[d].Some? && Verdicts(f, tree, d, hosts[d].value).Clear?
    requires forall i :: 0 <= i < |rest| ==> rest[i] in hosts
    ensures Enter(f, hosts, tree, [d] + rest) == Enter(f, hosts, tree[f(d) := hosts[d].value], rest)
  {
    assert ([d] + rest)[1..] == rest;
  }

  lemma {:induction false} EnterAcyclic(f: Fold, hosts: HostTable, tree: Tree, done: set<string>, os: seq<string>,
                                        rest: seq<string>)
    returns (final: Tree)
    requires AllValid(hosts) && FoldsApart(f, hosts) && Holds(f, hosts, tree, done) && Rest(hosts, done, os)
    requires forall i :: 0 <= i < |rest| ==> rest[i] in hosts
    requires Acyclic(AliasGraph(f, Only(hosts, done + Elements(os))))
    ensures Holds(f, hosts, final, done + Elements(os))
    ensures forall i :: 0 <= i < |os + rest| ==> (os + rest)[i] in hosts
    ensures Enter(f, hosts, tree, os + rest) == Enter(f, hosts, final, rest)
    decreases |os|
  {
    if os == [] {
      final := tree;
      assert os + rest == rest && done + Elements(os) == done;
    } else {
      var d := os[0];
      RestNext(hosts, done, os);
      assert done + {d} + Elements(os[1..]) == done + Elements(os);
      ClearWhenAcyclic(f, hosts, tree, done, d, done + Elements(os));
      HoldsNext(f, hosts, tree, done, d, hosts[d].value);
      final := EnterAcyclic(f, hosts, tree[f(d) := hosts[d].value], done + {d}, os[1..], rest);
      EnterNext(f, hosts, tree, d, os[1..] + rest);
      HeadAndRest(os, rest);
    }
  }

  lemma HeadAndRest(os: seq<string>, rest: seq<string>)
    requires os != []
    ensures os + rest == [os[0]] + (os[1..] + rest)
  {
  }

  lemma UnseenIsAliased(f: Fold, hosts: HostTable, d: string)
    requires FoldsApart(f, hosts) && d in hosts && OnCycle(AliasGraph(f, hosts), f(d))
    ensures Aliased(hosts, d)
  {
    var b := CycleHasEdge(AliasGraph(f, hosts), f(d));
    AliasEdge(f, hosts, f(d), b);
    var e :| LinkedBy(f, hosts, e, f(d), b);
    assert e == d;
  }

  // ----- circles of which none is seen -----

  /** Entering unseen hosts is accepted or never ends. */
  lemma {:induction false} EnterUnseen(f: Fold, hosts: HostTable, tree: Tree, done: set<string>, os: seq<string>)
    requires AllValid(hosts) && FoldsApart(f, hosts) && Holds(f, hosts, tree, done) && Rest(hosts, done, os)
    requires forall i :: 0 <= i < |os| ==> Unseen(f, hosts, os[i])
    ensures Enter(f, hosts, tree, os).Accepted? || Enter(f, hosts, tree, os).Hangs?
    decreases |os|
  {
    if os == [] {
    } else {
      var d := os[0];
      RestNext(hosts, done, os);
      UnseenIsAliased(f, hosts, d);
      UnseenIsNotSeen(f, hosts, tree, done, d);
      if Verdicts(f, tree, d, hosts[d].value).Clear? {
        HoldsNext(f, hosts, tree, done, d, hosts[d].value);
        EnterUnseen(f, hosts, tree[f(d) := hosts[d].value], done + {d}, os[1..]);
      }
    }
  }

  /** Without the unseen hosts there is no circle left. */
  lemma SeenPartIsAcyclic(f: Fold, hosts: HostTable, seen: set<string>)
    requires FoldsApart(f, hosts) && CirclesUnseen(f, hosts, AliasGraph(f, hosts))
    requires forall d :: d in seen <==> d in hosts && !Unseen(f, hosts, d)
    ensures Acyclic(AliasGraph(f, Only(hosts, seen)))
  {
    var h, g := AliasGraph(f, Only(hosts, seen)), AliasGraph(f, hosts);
    OnlyWithin(f, hosts, seen, seen);
    AliasGraphIsFunctional(f, hosts);
    forall p ensures !IsCycle(h, p) {
      if IsCycle(h, p) {
        WalkWithin(h, g, p);
        assert OnCycle(g, p[0]);
        var d :| Unseen(f, hosts, d) && Reaches(g, p[0], f(d));
        CycleIsClosed(g, p, p[0], f(d));
        OnPartCircle(f, hosts, seen, p, d);
      }
    }
  }

  /** The hosts on a circle of a part belong to the part. */
  lemma OnPartCircle(f: Fold, hosts: HostTable, part: set<string>, p: seq<Key>, d: string)
    requires FoldsApart(f, hosts) && IsCycle(AliasGraph(f, Only(hosts, part)), p) && d in hosts && f(d) in p
    ensures d in part
  {
    var h := AliasGraph(f, Only(hosts, part));
    var i :| 0 <= i < |p| && p[i] == f(d);
    var k := if i == |p| - 1 then 0 else i;
    assert Edge(h, p[k], p[k + 1]);
    AliasEdge(f, Only(hosts, part), f(d), p[k + 1]);
    var e :| LinkedBy(f, Only(hosts, part), e, f(d), p[k + 1]);
    assert e == d;
  }

  lemma {:induction false} SomeOrder(names: set<string>) returns (order: seq<string>)
    ensures Elements(order) == names && Distinct(order)
  {
    if names == {} {
      order := [];
    } else {
      var x :| x in names;
      var rest := SomeOrder(names - {x});
      order := [x] + rest;
      forall y ensures y in order <==> y in names {
        assert y in rest <==> y in Elements(rest);
      }
      forall i, j | 0 <= i < j < |order| ensures order[i] != order[j] {
        assert order[j] == rest[j - 1] && rest[j - 1] in Elements(rest);
      }
    }
  }

  lemma JoinedOrder(hosts: HostTable, a: seq<string>, b: seq<string>)
    requires Distinct(a) && Distinct(b) && Elements(a) !! Elements(b) && Elements(a) + Elements(b) == hosts.Keys
    ensures IsOrderOf(hosts, a + b)
    ensures Rest(hosts, {}, a) && Rest(hosts, Elements(a), b)
  {
    var order := a + b;
    forall i, j | 0 <= i < j < |order| ensures order[i] != order[j] {
      assert i < |a| ==> a[i] in Elements(a);
      assert j >= |a| ==> b[j - |a|] in Elements(b);
    }
    forall i | 0 <= i < |a| ensures a[i] in hosts {
      assert a[i] in Elements(a);
    }
    forall i | 0 <= i < |b| ensures b[i] in hosts && b[i] !in Elements(a) {
      assert b[i] in Elements(b);
    }
    assert Elements(order) == hosts.Keys;
    DistinctSize(order);
  }

  /** If every circle has an unseen host, some order is not refused. */
  lemma UnseenLast(f: Fold, hosts: HostTable) returns (order: seq<string>)
    requires AllValid(hosts) && FoldsApart(f, hosts) && CirclesUnseen(f, hosts, AliasGraph(f, hosts))
    ensures IsOrderOf(hosts, order)
    ensures ParseOutcome(f, hosts, order).Accepted? || ParseOutcome(f, hosts, order).Hangs?
  {
    var seen := set d | d in hosts && !Unseen(f, hosts, d);
    var a := SomeOrder(seen);
    var b := SomeOrder(hosts.Keys - seen);
    JoinedOrder(hosts, a, b);
    order := a + b;
    SeenPartIsAcyclic(f, hosts, seen);
    forall i | 0 <= i < |b| ensures Unseen(f, hosts, b[i]) {
      assert b[i] in Elements(b);
    }
    UnseenLastEnters(f, hosts, a, b);
  }

  lemma UnseenLastEnters(f: Fold, hosts: HostTable, a: seq<string>, b: seq<string>)
    requires AllValid(hosts) && FoldsApart(f, hosts) && IsOrderOf(hosts, a + b)
    requires Rest(hosts, {}, a) && Rest(hosts, Elements(a), b) && Acyclic(AliasGraph(f, Only(hosts, Elements(a))))
    requires forall i :: 0 <= i < |b| ==> Unseen(f, hosts, b[i])
    ensures ParseOutcome(f, hosts, a + b).Accepted? || ParseOutcome(f, hosts, a + b).Hangs?
  {
    StartHolds(f, hosts);
    assert {} + Elements(a) == Elements(a);
    var tree := EnterAcyclic(f, hosts, DefaultTree(f), {}, a, b);
    EnterUnseen(f, hosts, tree, Elements(a), b);
  }

  // ----- a circle with an unseen host that is led into -----

  /** The hosts on the circle of d. */
  ghost function Circle(f: Fold, hosts: HostTable, d: string): set<string> {
    set x | x in hosts && Reaches(AliasGraph(f, hosts), f(d), f(x))
  }

  lemma BrokenCircleIsAcyclic(f: Fold, hosts: HostTable, d: string)
    requires FoldsApart(f, hosts) && d in hosts && OnCycle(AliasGraph(f, hosts), f(d))
    ensures Acyclic(AliasGraph(f, Only(hosts, Circle(f, hosts, d) - {d})))
  {
    var part, g := Circle(f, hosts, d) - {d}, AliasGraph(f, hosts);
    var h := AliasGraph(f, Only(hosts, part));
    OnlyWithin(f, hosts, part, part);
    AliasGraphIsFunctional(f, hosts);
    forall p ensures !IsCycle(h, p) {
      if IsCycle(h, p) {
        WalkWithin(h, g, p);
        assert Edge(h, p[0], p[1]);
        AliasEdge(f, Only(hosts, part), p[0], p[1]);
        var x :| LinkedBy(f, Only(hosts, part), x, p[0], p[1]);
        CycleLeadsBack(g, f(d), p[0]);
        CycleIsClosed(g, p, p[0], f(d));
        OnPartCircle(f, hosts, part, p, d);
      }
    }
  }

  /** Some host outside the circle of d is an alias of a name on it. */
  lemma DirectLeadIn(f: Fold, hosts: HostTable, e: string, d: string) returns (e': string)
    requires LeadsInto(f, hosts, e, d)
    ensures Aliased(hosts, e') && !Reaches(AliasGraph(f, hosts), f(d), f(e'))
    ensures Reaches(AliasGraph(f, hosts), f(d), f(Target(hosts, e')))
  {
    var g := AliasGraph(f, hosts);
    var p :| IsWalk(g, p) && p[0] == f(e) && p[|p| - 1] == f(d);
    ReachesSelf(g, f(d));
    var i := 0;
    while !Reaches(g, f(d), p[i + 1])
      invariant i + 1 < |p| && !Reaches(g, f(d), p[i])
      decreases |p| - i
    {
      i := i + 1;
    }
    assert Edge(g, p[i], p[i + 1]);
    AliasEdge(f, hosts, p[i], p[i + 1]);
    e' :| LinkedBy(f, hosts, e', p[i], p[i + 1]);
  }

  /** With the circle in the tree, a name on it is an alias of another one on it. */
  lemma NextOnCircle(f: Fold, hosts: HostTable, tree: Tree, d: string, n: Key)
    requires FoldsApart(f, hosts) && OnCycle(AliasGraph(f, hosts), f(d)) && Holds(f, hosts, tree, Circle(f, hosts, d))
    requires Reaches(AliasGraph(f, hosts), f(d), n)
    ensures n in tree && tree[n].Alias? && Reaches(AliasGraph(f, hosts), f(d), f(tree[n].domain))
  {
    var g := AliasGraph(f, hosts);
    AliasGraphIsFunctional(f, hosts);
    CycleLeadsBack(g, f(d), n);
    var b := CycleHasEdge(g, n);
    AliasEdge(f, hosts, n, b);
    var x :| LinkedBy(f, hosts, x, n, b);
    assert x in Circle(f, hosts, d);
    ReachesEdge(g, n, b);
    ReachesTransitive(g, f(d), n, b);
  }

  lemma {:induction false} RoundAndRound(f: Fold, hosts: HostTable, tree: Tree, d: string, start: string, k: nat)
    requires FoldsApart(f, hosts) && OnCycle(AliasGraph(f, hosts), f(d)) && Holds(f, hosts, tree, Circle(f, hosts, d))
    requires Reaches(AliasGraph(f, hosts), f(d), f(start))
    ensures AliasAt(f, tree, start, k) && Reaches(AliasGraph(f, hosts), f(d), f(Chain(f, tree, start, k).value))
  {
    if k == 0 {
      NextOnCircle(f, hosts, tree, d, f(start));
    } else {
      RoundAndRound(f, hosts, tree, d, start, k - 1);
      NextOnCircle(f, hosts, tree, d, f(Chain(f, tree, start, k - 1).value));
      NextOnCircle(f, hosts, tree, d, f(Chain(f, tree, start, k).value));
    }
  }

  lemma LeadInHangs(f: Fold, hosts: HostTable, tree: Tree, d: string, e: string)
    requires FoldsApart(f, hosts) && OnCycle(AliasGraph(f, hosts), f(d)) && Holds(f, hosts, tree, Circle(f, hosts, d))
    requires Aliased(hosts, e) && !Reaches(AliasGraph(f, hosts), f(d), f(e))
    requires Reaches(AliasGraph(f, hosts), f(d), f(Target(hosts, e)))
    ensures WalkEnd(f, tree, Target(hosts, e), e).Endless?
  {
    var start := Target(hosts, e);
    forall k: nat ensures GoesOnAt(f, tree, start, e, k) {
      RoundAndRound(f, hosts, tree, d, start, k);
      RoundAndRound(f, hosts, tree, d, start, k + 1);
      assert Chain(f, tree, start, k + 1) == Some(tree[f(Chain(f, tree, start, k).value)].domain);
    }
    assert forall k: nat :: !StopsAt(f, tree, start, e, k);
  }

  /** Entering the circle with the unseen host last, and then the host that leads into it, never ends. */
  lemma LeadInOrder(f: Fold, hosts: HostTable, e0: string, d: string) returns (order: seq<string>)
    requires AllValid(hosts) && FoldsApart(f, hosts) && LeadsInto(f, hosts, e0, d)
    ensures IsOrderOf(hosts, order) && ParseOutcome(f, hosts, order).Hangs?
  {
    var e := DirectLeadIn(f, hosts, e0, d);
    ReachesSelf(AliasGraph(f, hosts), f(d));
    var circle := Circle(f, hosts, d);
    var a := SomeOrder(circle - {d});
    var b := SomeOrder(hosts.Keys - circle - {e});
    LeadInIsOrder(hosts, circle, d, e, a, b);
    order := a + ([d, e] + b);
    LeadInEnters(f, hosts, d, e, a, b);
  }

  lemma LeadInIsOrder(hosts: HostTable, circle: set<string>, d: string, e: string, a: seq<string>, b: seq<string>)
    requires circle <= hosts.Keys && d in circle && e in hosts && e !in circle && Distinct(a) && Distinct(b)
    requires Elements(a) == circle - {d} && Elements(b) == hosts.Keys - circle - {e}
    ensures IsOrderOf(hosts, a + ([d, e] + b)) && Rest(hosts, {}, a)
  {
    assert d !in Elements(b) && e !in Elements(b);
    TwoFirst(d, e, b);
    assert Elements([d, e] + b) == hosts.Keys - (circle - {d});
    JoinedOrder(hosts, a, [d, e] + b);
  }

  lemma LeadInEnters(f: Fold, hosts: HostTable, d: string, e: string, a: seq<string>, b: seq<string>)
    requires AllValid(hosts) && FoldsApart(f, hosts) && Unseen(f, hosts, d) && d in Circle(f, hosts, d)
    requires Elements(a) == Circle(f, hosts, d) - {d} && Rest(hosts, {}, a) && IsOrderOf(hosts, a + ([d, e] + b))
    requires Aliased(hosts, e) && !Reaches(AliasGraph(f, hosts), f(d), f(e))
    requires Reaches(AliasGraph(f, hosts), f(d), f(Target(hosts, e)))
    ensures ParseOutcome(f, hosts, a + ([d, e] + b)).Hangs?
  {
    var rest := [d, e] + b;
    SecondPartIn(hosts, a, rest);
    var tree := EnterCircle(f, hosts, d, a, rest);
    HangsThere(f, hosts, tree, d, e, b);
  }

  lemma SecondPartIn(hosts: HostTable, a: seq<string>, rest: seq<string>)
    requires IsOrderOf(hosts, a + rest)
    ensures forall i :: 0 <= i < |rest| ==> rest[i] in hosts
  {
    forall i | 0 <= i < |rest| ensures rest[i] in hosts {
      assert (a + rest)[|a| + i] == rest[i];
    }
  }

  lemma EnterCircle(f: Fold, hosts: HostTable, d: string, a: seq<string>, rest: seq<string>) returns (tree: Tree)
    requires AllValid(hosts) && FoldsApart(f, hosts) && d in hosts && OnCycle(AliasGraph(f, hosts), f(d))
    requires Elements(a) == Circle(f, hosts, d) - {d} && Rest(hosts, {}, a)
    requires forall i :: 0 <= i < |rest| ==> rest[i] in hosts
    ensures Holds(f, hosts, tree, Circle(f, hosts, d) - {d})
    ensures forall i :: 0 <= i < |a + rest| ==> (a + rest)[i] in hosts
    ensures Enter(f, hosts, DefaultTree(f), a + rest) == Enter(f, hosts, tree, rest)
  {
    StartHolds(f, hosts);
    BrokenCircleIsAcyclic(f, hosts, d);
    assert {} + Elements(a) == Circle(f, hosts, d) - {d};
    tree := EnterAcyclic(f, hosts, DefaultTree(f), {}, a, rest);
  }

  lemma TwoFirst(d: string, e: string, b: seq<string>)
    requires d != e && d !in b && e !in b && Distinct(b)
    ensures Distinct([d, e] + b) && Elements([d, e] + b) == {d, e} + Elements(b)
  {
    var s := [d, e] + b;
    forall i, j | 0 <= i < j < |s| ensures s[i] != s[j] {
      assert j >= 2 ==> s[j] == b[j - 2];
      assert i >= 2 ==> s[i] == b[i - 2];
    }
  }

  /** The unseen host is let in last of its circle. */
  lemma UnseenIsLetIn(f: Fold, hosts: HostTable, tree: Tree, d: string)
    requires AllValid(hosts) && FoldsApart(f, hosts) && Unseen(f, hosts, d) && d in Circle(f, hosts, d)
    requires Holds(f, hosts, tree, Circle(f, hosts, d) - {d})
    ensures Verdicts(f, tree, d, hosts[d].value).Clear?
    ensures Holds(f, hosts, tree[f(d) := hosts[d].value], Circle(f, hosts, d))
  {
    var rest := Circle(f, hosts, d) - {d};
    UnseenIsAliased(f, hosts, d);
    UnseenIsNotSeen(f, hosts, tree, rest, d);
    BrokenCircleIsAcyclic(f, hosts, d);
    if WalkEnd(f, tree, Target(hosts, d), d).Endless? {
      EndlessVerdictCloses(f, hosts, tree, rest, d);
    }
    HoldsNext(f, hosts, tree, rest, d, hosts[d].value);
    assert rest + {d} == Circle(f, hosts, d);
  }

  lemma HangsThere(f: Fold, hosts: HostTable, tree: Tree, d: string, e: string, b: seq<string>)
    requires AllValid(hosts) && FoldsApart(f, hosts) && Unseen(f, hosts, d) && d in Circle(f, hosts, d)
    requires Holds(f, hosts, tree, Circle(f, hosts, d) - {d})
    requires Aliased(hosts, e) && !Reaches(AliasGraph(f, hosts), f(d), f(e))
    requires Reaches(AliasGraph(f, hosts), f(d), f(Target(hosts, e)))
    requires forall i :: 0 <= i < |[d, e] + b| ==> ([d, e] + b)[i] in hosts
    ensures Enter(f, hosts, tree, [d, e] + b) == Hangs(e)
  {
    UnseenIsLetIn(f, hosts, tree, d);
    var next := tree[f(d) := hosts[d].value];
    LeadInHangs(f, hosts, next, d, e);
    assert [d, e] + b == [d] + ([e] + b);
    forall i | 0 <= i < |[e] + b| ensures ([e] + b)[i] in hosts {
      assert ([d, e] + b)[i + 1] == ([e] + b)[i];
    }
    EnterNext(f, hosts, tree, d, [e] + b);
    EnterHangs(f, hosts, next, e, b);
  }

  lemma EnterHangs(f: Fold, hosts: HostTable, tree: Tree, e: string, b: seq<string>)
    requires Aliased(hosts, e) && WalkEnd(f, tree, Target(hosts, e), e).Endless?
    requires forall i :: 0 <= i < |[e] + b| ==> ([e] + b)[i] in hosts
    ensures Enter(f, hosts, tree, [e] + b) == Hangs(e)
  {
  }

  // ----- the exact condition -----

  /**
   * The check keeps its promise exactly if no host leads into a circle with an unseen host, and
   * there is no such circle unless another circle is there that is always seen.
   */
  lemma PromiseIff(f: Fold, hosts: HostTable)
    requires AllValid(hosts) && FoldsApart(f, hosts)
    ensures KeepsPromise(f, hosts) <==> Sound(f, hosts)
  {
    if Sound(f, hosts) {
      forall order | IsOrderOf(hosts, order)
        ensures !ParseOutcome(f, hosts, order).Hangs?
        ensures ParseOutcome(f, hosts, order).Accepted? <==> Acyclic(AliasGraph(f, hosts))
      {
        SoundKeepsPromise(f, hosts, order);
      }
    }
    if !NoLeadIn(f, hosts) {
      var e, d :| LeadsInto(f, hosts, e, d);
      var order := LeadInOrder(f, hosts, e, d);
    } else if !Sound(f, hosts) {
      var d :| Unseen(f, hosts, d);
      AcyclicIffNoneOnCycle(AliasGraph(f, hosts));
      forall n | OnCycle(AliasGraph(f, hosts), n) ensures ReachesUnseen(f, hosts, n) {
        assert !SeenCircle(f, hosts, n);
      }
      var order := UnseenLast(f, hosts);
    }
  }

  // ----- configurations without unseen hosts -----

  /** Every alias of a host spells it as it is entered. */
  ghost predicate Spelled(f: Fold, hosts: HostTable) {
    forall a, d :: Aliased(hosts, a) && d in hosts && f(Target(hosts, a)) == f(d) ==> Target(hosts, a) == d
  }

  ghost predicate NoSelfAlias(f: Fold, hosts: HostTable) {
    forall d :: Aliased(hosts, d) ==> f(Target(hosts, d)) != f(d)
  }

  /** Where no two names are folded together the hosts are apart, and aliases spell them. */
  lemma UnfoldedIsSpelled(f: Fold, hosts: HostTable)
    requires forall a, b :: f(a) == f(b) ==> a == b
    ensures FoldsApart(f, hosts) && Spelled(f, hosts)
  {
  }

  lemma CyclePredecessor(f: Fold, hosts: HostTable, d: string) returns (a: string)
    requires OnCycle(AliasGraph(f, hosts), f(d))
    ensures LeadsBack(f, hosts, a, d)
  {
    var g := AliasGraph(f, hosts);
    var p :| IsCycle(g, p) && p[0] == f(d);
    var i := |p| - 2;
    assert Edge(g, p[i], p[i + 1]);
    AliasEdge(f, hosts, p[i], p[i + 1]);
    a :| LinkedBy(f, hosts, a, p[i], p[i + 1]);
    WalkSlice(g, p, 0, i + 1);
    var q := p[0..i + 1];
    assert IsWalk(g, q) && q[0] == f(d) && q[|q| - 1] == f(a);
  }

  lemma SpelledIsSeen(f: Fold, hosts: HostTable)
    requires Spelled(f, hosts) && NoSelfAlias(f, hosts)
    ensures NoneUnseen(f, hosts)
  {
    forall d ensures !Unseen(f, hosts, d) {
      if Unseen(f, hosts, d) {
        var a := CyclePredecessor(f, hosts, d);
      }
    }
  }

  /** If aliases spell the hosts and no host is aliased to itself, exactly the circles are refused, in every order. */
  lemma ExactWithoutSelfAlias(f: Fold, hosts: HostTable, order: seq<string>)
    requires AllValid(hosts) && FoldsApart(f, hosts) && IsOrderOf(hosts, order)
    requires Spelled(f, hosts) && NoSelfAlias(f, hosts)
    ensures !ParseOutcome(f, hosts, order).Hangs?
    ensures ParseOutcome(f, hosts, order).Accepted? <==> Acyclic(AliasGraph(f, hosts))
  {
    SpelledIsSeen(f, hosts);
    assert NoLeadIn(f, hosts);
    SoundKeepsPromise(f, hosts, order);
  }

  /** A host aliased to itself is unseen. */
  lemma SelfAliasIsUnseen(f: Fold, hosts: HostTable, d: string)
    requires FoldsApart(f, hosts) && Aliased(hosts, d) && f(Target(hosts, d)) == f(d)
    ensures Unseen(f, hosts, d)
  {
    var g := AliasGraph(f, hosts);
    HostEdge(f, hosts, d);
    var p := [f(d), f(d)];
    assert IsCycle(g, p) && p[0] == f(d);
    AliasGraphIsFunctional(f, hosts);
    forall a | LeadsBack(f, hosts, a, d) ensures a == d {
      CycleIsClosed(g, p, f(d), f(a));
    }
  }

  // ----- the smallest configuration that hangs -----

  /** A host whose alias leads to no entry is let in. */
  lemma LetInFirst(f: Fold, hosts: HostTable, tree: Tree, d: string, t: string, rest: seq<string>)
    requires d in hosts && hosts[d] == Some(Alias(t)) && !IsAlias(f, tree, t)
    requires forall i :: 0 <= i < |rest| ==> rest[i] in hosts
    ensures Enter(f, hosts, tree, [d] + rest) == Enter(f, hosts, tree[f(d) := Alias(t)], rest)
  {
    assert Chain(f, tree, t, 0) == Some(t);
    WalkEndAt(f, tree, t, d, 0);
    EnterNext(f, hosts, tree, d, rest);
  }

  lemma {:induction false} SelfAliasGoesRound(f: Fold, tree: Tree, d: string, k: nat)
    requires f(d) in tree && tree[f(d)] == Alias(d)
    ensures Chain(f, tree, d, k) == Some(d)
  {
    if k == 0 {
    } else {
      SelfAliasGoesRound(f, tree, d, k - 1);
    }
  }

  /** A host aliased to itself, and a second one aliased to it: entered in this order, the check never ends. */
  lemma SelfAliasHangs(f: Fold, d: string, e: string)
    requires d != e && f(d) != f("localhost")
    ensures var hosts := map[d := Some(Alias(d)), e := Some(Alias(d))];
      IsOrderOf(hosts, [d, e]) && ParseOutcome(f, hosts, [d, e]) == Hangs(e)
  {
    var hosts := map[d := Some(Alias(d)), e := Some(Alias(d))];
    assert [d] + [e] == [d, e];
    LetInFirst(f, hosts, DefaultTree(f), d, d, [e]);
    var tree := DefaultTree(f)[f(d) := Alias(d)];
    forall k | 0 <= k <= |tree| ensures GoesOnAt(f, tree, d, e, k) {
      SelfAliasGoesRound(f, tree, d, k);
    }
    LongWalkIsEndless(f, tree, d, e);
  }

  // ----- what is in an accepted tree -----

  /** Every host has its value there, and "localhost" its address unless a host is entered as that. */
  lemma AcceptedTreeIs(f: Fold, hosts: HostTable, order: seq<string>)
    requires FoldsApart(f, hosts) && IsOrderOf(hosts, order) && ParseOutcome(f, hosts, order).Accepted?
    ensures var tree := ParseOutcome(f, hosts, order).tree;
      && (forall d :: d in hosts ==> f(d) in tree && Some(tree[f(d)]) == hosts[d])
      && (forall k :: k in tree ==> k == f("localhost") || exists d :: d in hosts && f(d) == k)
      && ((forall d :: d in hosts ==> f(d) != f("localhost")) ==>
        f("localhost") in tree && tree[f("localhost")] == IPs(["127.0.0.1"]))
  {
    OutcomeTells(f, hosts, order);
    AcceptedMeansValid(f, hosts, DefaultTree(f), order);
    OrderCovers(hosts, order);
    var tree := ParseOutcome(f, hosts, order).tree;
    forall d | d in hosts ensures hosts[d].Some? {
      assert d in Elements(order);
    }
    forall k | k in tree ensures k == f("localhost") || exists d :: d in hosts && f(d) == k {
      EnterLeaves(f, hosts, DefaultTree(f), order, k);
    }
    EnterLeaves(f, hosts, DefaultTree(f), order, f("localhost"));
  }

  /** What no host is entered as stays as it was. */
  lemma {:induction false} EnterLeaves(f: Fold, hosts: HostTable, tree: Tree, order: seq<string>, k: Key)
    requires forall i :: 0 <= i < |order| ==> order[i] in hosts
    requires Enter(f, hosts, tree, order).Accepted?
    ensures var final := Enter(f, hosts, tree, order).tree;
      (forall d :: d in hosts ==> f(d) != k) ==> (k in final <==> k in tree) && (k in tree ==> final[k] == tree[k])
    decreases |order|
  {
    if order == [] {
    } else {
      EnterLeaves(f, hosts, tree[f(order[0]) := hosts[order[0]].value], order[1..], k);
    }
  }
}
