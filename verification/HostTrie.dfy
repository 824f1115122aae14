/**
 * The host check and the host search over the domain trie itself, with its wildcards, its
 * refusal of malformed names and its one entry for two spellings of a name. Hosts leaves
 * these out to say which configurations keep the check's promise in every order; here is
 * what one order achieves, for any hosts.
 *
 * `split` lowers a name and splits it at the dots, or refuses it for a final dot or for
 * blanks around it.
 */
module HostTrie {
  import opened Prelude
  import opened Graphs
  import opened DomainTrie
  import opened Hosts
  import opened HostSearch

  type Splitter = string -> Option<Labels>

  /** No empty label but for the first of several. */
  predicate WellSplit(parts: Labels) {
    parts != [] && parts != [""] && forall i :: 0 < i < |parts| ==> parts[i] != ""
  }

  function LabelsOf(split: Splitter, name: string): Option<Labels> {
    match split(name)
    case None => None
    case Some(parts) => if WellSplit(parts) then Some(parts) else None
  }

  /** Stands for the entry of a name that is not found. */
  const NOWHERE: Key := ["", ""]

  function EntryOf(split: Splitter, keys: set<Key>, name: string): Key {
    match LabelsOf(split, name)
    case None => NOWHERE
    case Some(parts) =>
      if parts[0] == "" then NOWHERE
      else
        match Find(keys, parts, [])
        case None => NOWHERE
        case Some(k) => k
  }

  /** From a name to its entry in a trie with the given patterns. */
  function Finder(split: Splitter, keys: set<Key>): Fold {
    name => EntryOf(split, keys, name)
  }

  // ----- the trie behind it -----

  function SearchName(split: Splitter, root: Node<HostValue>, name: string): Option<HostValue> {
    match LabelsOf(split, name)
    case None => None
    case Some(parts) => if parts[0] == "" then None else DomainTrie.Search(root, parts)
  }

  function Written(split: Splitter, domain: string): set<Key> {
    match LabelsOf(split, domain)
    case None => {}
    case Some(parts) => Paths(parts)
  }

  function InsertName(split: Splitter, root: Node<HostValue>, domain: string, v: HostValue): Node<HostValue> {
    match LabelsOf(split, domain)
    case None => root
    case Some(parts) => InsertDomain(root, parts, v)
  }

  function Entered(split: Splitter, tree: Tree, domain: string, v: HostValue): Tree {
    Put(tree, Written(split, domain), v)
  }

  /** To search the trie is to look up the entry of the name. */
  lemma SearchIsLookup(split: Splitter, root: Node<HostValue>, tree: Tree, name: string)
    requires Below(root, tree, []) && NOWHERE !in tree
    ensures var f := Finder(split, tree.Keys);
      SearchName(split, root, name) == if f(name) in tree then Some(tree[f(name)]) else None
  {
    if LabelsOf(split, name).Some? {
      SearchIsFind(root, tree, LabelsOf(split, name).value, []);
    }
  }

  lemma InsertIsEntered(split: Splitter, root: Node<HostValue>, tree: Tree, domain: string, v: HostValue)
    requires Below(root, tree, []) && NOWHERE !in tree
    ensures Below(InsertName(split, root, domain, v), Entered(split, tree, domain, v), [])
    ensures NOWHERE !in Entered(split, tree, domain, v)
  {
    match LabelsOf(split, domain) {
      case None => assert Entered(split, tree, domain, v) == tree;
      case Some(parts) =>
        InsertDomainIsPut(root, tree, parts, v);
        PathsSomewhere(parts);
    }
  }

  lemma PathsSomewhere(parts: Labels)
    requires WellSplit(parts)
    ensures NOWHERE !in Paths(parts)
  {
    if parts[0] == COMPLEX_WILDCARD {
      assert |parts| > 1 ==> parts[1..][0] == parts[1];
      assert ([DOT_WILDCARD] + parts[1..])[1..] == parts[1..];
    }
  }

  // ----- the check -----

  function StartTree(split: Splitter): Tree {
    Entered(split, map[], "localhost", IPs(["127.0.0.1"]))
  }

  ghost function Outcomes(split: Splitter, hosts: HostTable, order: seq<string>): Outcome
    requires forall i :: 0 <= i < |order| ==> order[i] in hosts
  {
    if order == [] then Accepted(StartTree(split))
    else
      match Outcomes(split, hosts, order[..|order| - 1])
      case Accepted(tree) => Next(split, hosts, tree, order[|order| - 1])
      case other => other
  }

  ghost function Next(split: Splitter, hosts: HostTable, tree: Tree, domain: string): Outcome
    requires domain in hosts
  {
    match hosts[domain]
    case None => InvalidValue(domain)
    case Some(value) =>
      match Verdicts(Finder(split, tree.Keys), tree, domain, value)
      case Cycle => CycleFound(domain)
      case Endless => Hangs(domain)
      case Clear => Accepted(Entered(split, tree, domain, value))
  }

  lemma {:induction false} OnceDecided(split: Splitter, hosts: HostTable, order: seq<string>, i: nat)
    requires forall m :: 0 <= m < |order| ==> order[m] in hosts
    requires i <= |order| && !Outcomes(split, hosts, order[..i]).Accepted?
    ensures Outcomes(split, hosts, order) == Outcomes(split, hosts, order[..i])
    decreases |order|
  {
    if i == |order| {
      WholePrefix(order);
    } else {
      assert order[..|order| - 1][..i] == order[..i];
      OnceDecided(split, hosts, order[..|order| - 1], i);
    }
  }

  /** The walk from the alias of a host, if it is one. */
  method CheckAlias(split: Splitter, tree: Tree, domain: string, value: HostValue) returns (v: Verdict)
    ensures v == Verdicts(Finder(split, tree.Keys), tree, domain, value)
  {
    if value.Alias? {
      v := FollowAliases(Finder(split, tree.Keys), tree, value.domain, domain);
    } else {
      v := Clear;
    }
  }

  /** parseHosts over the trie; beside the trie a table of what it holds. */
  method ParseHosts(split: Splitter, hosts: HostTable, order: seq<string>) returns (r: Outcome, root: Node<HostValue>)
    requires IsOrderOf(hosts, order)
    ensures r == Outcomes(split, hosts, order)
    ensures r.Accepted? ==> Below(root, r.tree, []) && NOWHERE !in r.tree
  {
    var tree := StartTree(split);
    root := InsertName(split, EmptyNode(), "localhost", IPs(["127.0.0.1"]));
    StartIsBelow(split);
    for i := 0 to |order|
      invariant Outcomes(split, hosts, order[..i]) == Accepted(tree)
      invariant Below(root, tree, []) && NOWHERE !in tree
    {
      var domain := order[i];
      PrefixGrows(order, i);
      FrontOfSnoc(order[..i], domain);
      match hosts[domain] {
        case None =>
          OnceDecided(split, hosts, order, i + 1);
          return InvalidValue(domain), root;
        case Some(value) =>
          var v := CheckAlias(split, tree, domain, value);
          if !v.Clear? {
            OnceDecided(split, hosts, order, i + 1);
            return if v.Cycle? then CycleFound(domain) else Hangs(domain), root;
          }
          InsertIsEntered(split, root, tree, domain, value);
          root := InsertName(split, root, domain, value);
          tree := Entered(split, tree, domain, value);
      }
      ghost var before := Outcomes(split, hosts, order[..i]).tree;
      assert Outcomes(split, hosts, order[..i + 1]) == Next(split, hosts, before, domain);
    }
    WholePrefix(order);
    return Accepted(tree), root;
  }

  lemma StartIsBelow(split: Splitter)
    ensures Below(InsertName(split, EmptyNode(), "localhost", IPs(["127.0.0.1"])), StartTree(split), [])
    ensures NOWHERE !in StartTree(split)
  {
    forall p: Labels ensures Entry<HostValue>(EmptyNode(), p).None? {
      EntryOfEmpty<HostValue>(p);
    }
    InsertIsEntered(split, EmptyNode(), map[], "localhost", IPs(["127.0.0.1"]));
  }

  // ----- which host wrote an entry -----

  /** The place in the order of the host that wrote the entry last. */
  ghost function LastWrite(split: Splitter, order: seq<string>, k: Key): (r: Option<nat>)
    ensures r.Some? ==>
      && r.value < |order| && k in Written(split, order[r.value])
      && forall j :: r.value < j < |order| ==> k !in Written(split, order[j])
    ensures r.None? ==> forall j :: 0 <= j < |order| ==> k !in Written(split, order[j])
  {
    if order == [] then None
    else if k in Written(split, order[|order| - 1]) then Some(|order| - 1)
    else LastWrite(split, order[..|order| - 1], k)
  }

  ghost predicate AcceptedAs(split: Splitter, hosts: HostTable, order: seq<string>, tree: Tree) {
    && (forall i :: 0 <= i < |order| ==> order[i] in hosts)
    && Outcomes(split, hosts, order) == Accepted(tree)
  }

  /** The last host was let in by the tree that the others made. */
  lemma AcceptedLast(split: Splitter, hosts: HostTable, order: seq<string>, tree: Tree) returns (before: Tree)
    requires AcceptedAs(split, hosts, order, tree) && order != []
    ensures var d := order[|order| - 1];
      && AcceptedAs(split, hosts, order[..|order| - 1], before) && hosts[d].Some?
      && Verdicts(Finder(split, before.Keys), before, d, hosts[d].value).Clear?
      && tree == Entered(split, before, d, hosts[d].value)
  {
    before := Outcomes(split, hosts, order[..|order| - 1]).tree;
  }

  lemma EnteredTells(split: Splitter, tree: Tree, d: string, v: HostValue, k: Key)
    ensures k in Entered(split, tree, d, v) <==> k in Written(split, d) || k in tree
    ensures k in Entered(split, tree, d, v) ==>
      Entered(split, tree, d, v)[k] == if k in Written(split, d) then v else tree[k]
    ensures tree.Keys <= Entered(split, tree, d, v).Keys
  {
  }

  /** Each entry holds the value of the host that wrote it last. */
  lemma {:induction false} TreeTells(split: Splitter, hosts: HostTable, order: seq<string>, tree: Tree, k: Key)
    requires AcceptedAs(split, hosts, order, tree)
    ensures match LastWrite(split, order, k)
      case None => k in tree ==> tree[k].IPs?
      case Some(i) => hosts[order[i]].Some? && k in tree && tree[k] == hosts[order[i]].value
    decreases |order|
  {
    if order == [] {
      EnteredTells(split, map[], "localhost", IPs(["127.0.0.1"]), k);
    } else {
      var front, d := order[..|order| - 1], order[|order| - 1];
      var before := AcceptedLast(split, hosts, order, tree);
      TreeTells(split, hosts, front, before, k);
      EnteredTells(split, before, d, hosts[d].value, k);
    }
  }

  /** The tree that a host met, and that it was let in there. */
  lemma {:induction false} AcceptedAt(split: Splitter, hosts: HostTable, order: seq<string>, tree: Tree, i: nat)
    returns (before: Tree)
    requires AcceptedAs(split, hosts, order, tree) && i < |order|
    ensures AcceptedAs(split, hosts, order[..i], before) && before.Keys <= tree.Keys
    ensures hosts[order[i]].Some?
    ensures Verdicts(Finder(split, before.Keys), before, order[i], hosts[order[i]].value).Clear?
    decreases |order|
  {
    var front, d := order[..|order| - 1], order[|order| - 1];
    before := AcceptedLast(split, hosts, order, tree);
    EnteredTells(split, before, d, hosts[d].value, []);
    if i < |front| {
      before := AcceptedAt(split, hosts, front, before, i);
      assert front[..i] == order[..i];
    }
  }

  lemma WrittenBefore(split: Splitter, hosts: HostTable, order: seq<string>, tree: Tree, i: nat, before: Tree, k: Key)
    requires AcceptedAs(split, hosts, order, tree) && i < |order| && AcceptedAs(split, hosts, order[..i], before)
    requires LastWrite(split, order, k).Some? && LastWrite(split, order, k).value < i
    ensures k in before && k in tree && before[k] == tree[k]
  {
    WriteStays(split, order, i, k);
    TreeTells(split, hosts, order, tree, k);
    TreeTells(split, hosts, order[..i], before, k);
  }

  lemma WriteStays(split: Splitter, order: seq<string>, i: nat, k: Key)
    requires i < |order| && LastWrite(split, order, k).Some? && LastWrite(split, order, k).value < i
    ensures LastWrite(split, order[..i], k) == LastWrite(split, order, k)
    ensures order[..i][LastWrite(split, order, k).value] == order[LastWrite(split, order, k).value]
  {
    var j := LastWrite(split, order, k).value;
    assert k in Written(split, order[..i][j]);
  }

  /**
   * A refusal or a hang is that of the first host not let in: its value is none, or its walk meets it
   * or never ends.
   */
  lemma {:induction false} NotAcceptedFor(split: Splitter, hosts: HostTable, order: seq<string>)
    returns (i: nat, before: Tree)
    requires forall m :: 0 <= m < |order| ==> order[m] in hosts
    requires !Outcomes(split, hosts, order).Accepted?
    ensures i < |order| && AcceptedAs(split, hosts, order[..i], before)
    ensures match Outcomes(split, hosts, order)
      case InvalidValue(d) => d == order[i] && hosts[d].None?
      case CycleFound(d) =>
        d == order[i] && hosts[d].Some? && hosts[d].value.Alias?
        && WalkEnd(Finder(split, before.Keys), before, hosts[d].value.domain, d).Cycle?
      case Hangs(d) =>
        d == order[i] && hosts[d].Some? && hosts[d].value.Alias?
        && WalkEnd(Finder(split, before.Keys), before, hosts[d].value.domain, d).Endless?
    decreases |order|
  {
    var front := order[..|order| - 1];
    if Outcomes(split, hosts, front).Accepted? {
      i, before := |front|, Outcomes(split, hosts, front).tree;
    } else {
      i, before := NotAcceptedFor(split, hosts, front);
      assert front[..i] == order[..i];
    }
  }

  /**
   * A host is entered exactly under the patterns of its labels, and not at all if one of them is empty
   * but the first.
   */
  lemma EntersUnder(split: Splitter, tree: Tree, d: string, v: HostValue, k: Key)
    ensures k in Entered(split, tree, d, v) && k !in tree ==>
      split(d).Some? && k in Paths(split(d).value) && forall i :: 0 < i < |split(d).value| ==> split(d).value[i] != ""
    ensures split(d).Some? && split(d).value != [] && "" !in split(d).value ==>
      Written(split, d) == Paths(split(d).value)
  {
    if split(d).Some? && split(d).value != [] && split(d).value[0] != "" {
      assert split(d).value != [""];
    }
  }

  // ----- circles that the check has let in -----

  /** The aliases between the entries of the trie. */
  ghost function Net(split: Splitter, tree: Tree): Graph<Key> {
    Links(Finder(split, tree.Keys), tree)
  }

  /**
   * Where a circle was closed unnoticed: the link from a leads to b, the entry of the circle
   * that was written by the last of its hosts, and it is that host's own or does not spell it.
   */
  ghost predicate Seam(split: Splitter, order: seq<string>, tree: Tree, a: Key, b: Key) {
    var g := Net(split, tree);
    && Edge(g, a, b) && Reaches(g, b, a) && LastWrite(split, order, b).Some?
    && (LastWrite(split, order, a) == LastWrite(split, order, b)
        || tree[a].domain != order[LastWrite(split, order, b).value])
  }

  /** With fewer entries a name still has the same one, if that is there. */
  lemma FinderStays(split: Splitter, keys: set<Key>, fewer: set<Key>, name: string)
    requires fewer <= keys && Finder(split, keys)(name) in fewer
    ensures Finder(split, fewer)(name) == Finder(split, keys)(name)
  {
    if LabelsOf(split, name).Some? {
      FindStays(keys, fewer, LabelsOf(split, name).value, []);
    }
  }

  /** A walk along aliases whose entries, but for the first, were there when the i-th host was entered. */
  ghost predicate WalkOfOld(split: Splitter, order: seq<string>, tree: Tree, i: nat, q: seq<Key>) {
    && IsWalk(Links(Finder(split, tree.Keys), tree), q)
    && (forall x :: 0 <= x < |q| ==> q[x] in tree && tree[q[x]].Alias?)
    && forall x :: 0 < x < |q| ==> LastWrite(split, order, q[x]).Some? && LastWrite(split, order, q[x]).value < i
  }

  /** The alias at each entry leads to the next one. */
  ghost predicate Follows(f: Fold, before: Tree, tree: Tree, q: seq<Key>, k: nat) {
    && k + 1 < |q| && q[k] in tree && tree[q[k]].Alias?
    && f(tree[q[k]].domain) == q[k + 1]
    && q[k + 1] in tree && q[k + 1] in before && before[q[k + 1]] == tree[q[k + 1]] && before[q[k + 1]].Alias?
  }

  lemma OldStep(split: Splitter, hosts: HostTable, order: seq<string>, tree: Tree, i: nat, before: Tree,
                q: seq<Key>, k: nat)
    requires AcceptedAs(split, hosts, order, tree) && i < |order| && AcceptedAs(split, hosts, order[..i], before)
    requires before.Keys <= tree.Keys && WalkOfOld(split, order, tree, i, q) && k + 1 < |q|
    ensures Follows(Finder(split, before.Keys), before, tree, q, k)
  {
    assert Edge(Links(Finder(split, tree.Keys), tree), q[k], q[k + 1]);
    WrittenBefore(split, hosts, order, tree, i, before, q[k + 1]);
    FinderStays(split, tree.Keys, before.Keys, tree[q[k]].domain);
  }

  /** So the walk from the alias of the first entry meets the same entries. */
  lemma {:induction false} OldWalk(f: Fold, before: Tree, tree: Tree, q: seq<Key>, k: nat)
    requires Follows(f, before, tree, q, 0) && Follows(f, before, tree, q, k)
    requires forall x :: 0 <= x <= k ==> Follows(f, before, tree, q, x)
    ensures Chain(f, before, tree[q[0]].domain, k) == Some(tree[q[k]].domain)
    ensures forall x :: 0 <= x <= k ==> AliasAt(f, before, tree[q[0]].domain, x)
  {
    if k == 0 {
    } else {
      assert Follows(f, before, tree, q, k - 1);
      OldWalk(f, before, tree, q, k - 1);
    }
  }

  /** Had the last alias of such a walk spelled the i-th host, the check would have noticed. */
  lemma OldWalkIsNoticed(split: Splitter, hosts: HostTable, order: seq<string>, tree: Tree, i: nat, q: seq<Key>)
    requires AcceptedAs(split, hosts, order, tree) && i < |order| && WalkOfOld(split, order, tree, i, q) && |q| >= 2
    requires LastWrite(split, order, q[0]) == Some(i)
    ensures tree[q[|q| - 1]].domain != order[i]
  {
    var before := AcceptedAt(split, hosts, order, tree, i);
    var f, d, k := Finder(split, before.Keys), order[i], |q| - 2;
    TreeTells(split, hosts, order, tree, q[0]);
    forall x | 0 <= x <= k ensures Follows(f, before, tree, q, x) {
      OldStep(split, hosts, order, tree, i, before, q, x);
    }
    assert Follows(f, before, tree, q, 0) && Follows(f, before, tree, q, k);
    OldWalk(f, before, tree, q, k);
    if tree[q[k + 1]].domain == d {
      SpelledMeansCycle(f, before, tree[q[0]].domain, d, k);
    }
  }

  // ----- every circle has a seam -----

  /** What a walk passes, but for its end, are aliases, and hosts wrote them. */
  lemma OnCycleWritten(split: Splitter, hosts: HostTable, order: seq<string>, tree: Tree, p: seq<Key>, x: nat)
    requires AcceptedAs(split, hosts, order, tree) && IsCycle(Net(split, tree), p) && x < |p|
    ensures p[x] in tree && tree[p[x]].Alias? && LastWrite(split, order, p[x]).Some?
  {
    var y := if x == |p| - 1 then 0 else x;
    assert Edge(Net(split, tree), p[y], p[y + 1]);
    TreeTells(split, hosts, order, tree, p[x]);
  }

  ghost function WriteOf(split: Splitter, order: seq<string>, k: Key): nat {
    var w := LastWrite(split, order, k);
    if w.Some? then w.value else 0
  }

  lemma {:induction false} Latest(split: Splitter, order: seq<string>, p: seq<Key>) returns (m: nat)
    requires p != []
    ensures m < |p| && forall x :: 0 <= x < |p| ==> WriteOf(split, order, p[x]) <= WriteOf(split, order, p[m])
  {
    if |p| == 1 {
      m := 0;
    } else {
      m := Latest(split, order, p[..|p| - 1]);
      if WriteOf(split, order, p[|p| - 1]) > WriteOf(split, order, p[m]) {
        m := |p| - 1;
      }
    }
  }

  /** A circle told from the entry that was written last. */
  lemma FromLatest(split: Splitter, hosts: HostTable, order: seq<string>, tree: Tree, p: seq<Key>) returns (q: seq<Key>)
    requires AcceptedAs(split, hosts, order, tree) && IsCycle(Net(split, tree), p)
    ensures IsCycle(Net(split, tree), q)
    ensures forall x :: 0 <= x < |q| ==> WriteOf(split, order, q[x]) <= WriteOf(split, order, q[0])
  {
    var g := Net(split, tree);
    var m := Latest(split, order, p);
    LinksAreFunctional(Finder(split, tree.Keys), tree);
    CycleMember(g, p, p[m]);
    q :| IsCycle(g, q) && q[0] == p[m];
    CycleWithin(g, p, q);
    forall x | 0 <= x < |q| ensures WriteOf(split, order, q[x]) <= WriteOf(split, order, q[0]) {
      assert q[x] in p;
    }
  }

  lemma CycleWithin(g: Graph<Key>, p: seq<Key>, q: seq<Key>)
    requires Functional(g) && IsCycle(g, p) && IsCycle(g, q) && q[0] in p
    ensures forall x :: 0 <= x < |q| ==> q[x] in p
  {
    forall x | 0 <= x < |q| ensures q[x] in p {
      WalkSlice(g, q, 0, x + 1);
      var w := q[0..x + 1];
      assert IsWalk(g, w) && w[0] == q[0] && w[|w| - 1] == q[x];
      CycleIsClosed(g, p, q[0], q[x]);
    }
  }

  /** The first entry behind q[0] that the same host wrote. */
  lemma NextOwn(split: Splitter, order: seq<string>, q: seq<Key>) returns (j: nat)
    requires |q| >= 2 && q[0] == q[|q| - 1]
    ensures 0 < j < |q| && LastWrite(split, order, q[j]) == LastWrite(split, order, q[0])
    ensures forall x :: 0 < x < j ==> LastWrite(split, order, q[x]) != LastWrite(split, order, q[0])
  {
    j := 1;
    while LastWrite(split, order, q[j]) != LastWrite(split, order, q[0])
      invariant 0 < j < |q|
      invariant forall x :: 0 < x < j ==> LastWrite(split, order, q[x]) != LastWrite(split, order, q[0])
      decreases |q| - j
    {
      j := j + 1;
    }
  }

  lemma AcrossTheEnd(g: Graph<Key>, q: seq<Key>, j: nat)
    requires IsCycle(g, q) && 0 < j < |q|
    ensures Edge(g, q[j - 1], q[j]) && Reaches(g, q[j], q[j - 1])
  {
    SuffixReaches(g, q, j);
    WalkSlice(g, q, 0, j);
    var w := q[0..j];
    assert IsWalk(g, w) && w[0] == q[|q| - 1] && w[|w| - 1] == q[j - 1];
    assert Reaches(g, q[|q| - 1], q[j - 1]);
    ReachesTransitive(g, q[j], q[|q| - 1], q[j - 1]);
    assert Edge(g, q[j - 1], q[j - 1 + 1]);
  }

  /** A circle whose first entry was written last. */
  ghost predicate LatestFirst(split: Splitter, order: seq<string>, tree: Tree, q: seq<Key>) {
    && IsCycle(Net(split, tree), q)
    && (forall x :: 0 <= x < |q| ==> q[x] in tree && tree[q[x]].Alias? && LastWrite(split, order, q[x]).Some?)
    && forall x :: 0 <= x < |q| ==> WriteOf(split, order, q[x]) <= WriteOf(split, order, q[0])
  }

  lemma LatestNotices(split: Splitter, hosts: HostTable, order: seq<string>, tree: Tree, q: seq<Key>, j: nat)
    requires AcceptedAs(split, hosts, order, tree) && LatestFirst(split, order, tree, q) && 1 < j < |q|
    requires forall x :: 0 < x < j ==> LastWrite(split, order, q[x]) != LastWrite(split, order, q[0])
    ensures tree[q[j - 1]].domain != order[LastWrite(split, order, q[0]).value]
  {
    var i, w := LastWrite(split, order, q[0]).value, q[0..j];
    WalkSlice(Net(split, tree), q, 0, j);
    forall x | 0 < x < |w| ensures LastWrite(split, order, w[x]).Some? && LastWrite(split, order, w[x]).value < i {
      assert w[x] == q[x] && WriteOf(split, order, q[x]) <= WriteOf(split, order, q[0]);
    }
    OldWalkIsNoticed(split, hosts, order, tree, i, w);
  }

  /** Every circle of aliases that has been let in has a seam. */
  lemma CircleHasSeam(split: Splitter, hosts: HostTable, order: seq<string>, tree: Tree, p: seq<Key>)
    returns (a: Key, b: Key)
    requires AcceptedAs(split, hosts, order, tree) && IsCycle(Net(split, tree), p)
    ensures Seam(split, order, tree, a, b)
  {
    var q := FromLatest(split, hosts, order, tree, p);
    forall x | 0 <= x < |q|
      ensures q[x] in tree && tree[q[x]].Alias? && LastWrite(split, order, q[x]).Some?
    {
      OnCycleWritten(split, hosts, order, tree, q, x);
    }
    var j := NextOwn(split, order, q);
    AcrossTheEnd(Net(split, tree), q, j);
    a, b := q[j - 1], q[j];
    if j > 1 {
      LatestNotices(split, hosts, order, tree, q, j);
    }
  }

  // ----- what the check achieves -----

  ghost predicate HasSeam(split: Splitter, order: seq<string>, tree: Tree) {
    exists a, b :: Seam(split, order, tree, a, b)
  }

  lemma SeamIffCircle(split: Splitter, hosts: HostTable, order: seq<string>, tree: Tree)
    requires AcceptedAs(split, hosts, order, tree)
    ensures HasSeam(split, order, tree) <==> !Acyclic(Net(split, tree))
  {
    if p :| IsCycle(Net(split, tree), p) {
      var a, b := CircleHasSeam(split, hosts, order, tree, p);
    }
    if a, b :| Seam(split, order, tree, a, b) {
      EdgeAndBack(Net(split, tree), a, b);
    }
  }

  /**
   * For any hosts in any order: once the check has let them in, every search ends exactly if
   * no circle of aliases has a seam.
   */
  lemma AcceptedSearchesEndIff(split: Splitter, hosts: HostTable, order: seq<string>, tree: Tree)
    requires AcceptedAs(split, hosts, order, tree)
    ensures (forall name :: Ends(Finder(split, tree.Keys), tree, name)) <==> !HasSeam(split, order, tree)
  {
    AllEndIff(Finder(split, tree.Keys), tree);
    SeamIffCircle(split, hosts, order, tree);
  }

  // ----- a circle through a wildcard -----

  ghost predicate OneMatch(keys: set<Key>, parts: Labels, k: Key) {
    k in keys && Matches(k, parts) && forall p :: p in keys && Matches(p, parts) ==> p == k
  }

  lemma FindsOnly(keys: set<Key>, parts: Labels, k: Key)
    requires OneMatch(keys, parts, k)
    ensures Find(keys, parts, []) == Some(k)
  {
    FindIn(keys, parts);
  }

  lemma FindsNone(keys: set<Key>, parts: Labels)
    requires forall p :: p in keys ==> !Matches(p, parts)
    ensures Find(keys, parts, []).None?
  {
    FindIn(keys, parts);
  }

  /** The names of the example: a wildcard, two names that it matches, and "localhost". */
  ghost predicate UnderWildcard(split: Splitter, d: string, x: string, y: string, rest: Labels) {
    && rest != [] && d != x
    && LabelsOf(split, "localhost") == Some(["localhost"])
    && LabelsOf(split, d) == Some([WILDCARD] + rest)
    && (exists l: string :: l != "" && LabelsOf(split, x) == Some([l] + rest))
    && (exists m: string :: m != "" && LabelsOf(split, y) == Some([m] + rest))
  }

  lemma WildcardFits(rest: Labels, l: string)
    requires rest != [] && l != ""
    ensures Matches([WILDCARD] + rest, [l] + rest) && !Matches(["localhost"], [l] + rest)
  {
  }

  lemma WildcardFound(split: Splitter, d: string, x: string, y: string, rest: Labels, name: string)
    requires UnderWildcard(split, d, x, y, rest) && (name == x || name == y)
    ensures Finder(split, {["localhost"]})(name) == NOWHERE
    ensures Finder(split, {["localhost"], [WILDCARD] + rest})(name) == [WILDCARD] + rest
  {
    var l: string :| l != "" && LabelsOf(split, name) == Some([l] + rest);
    WildcardFits(rest, l);
    FindsNone({["localhost"]}, [l] + rest);
    FindsOnly({["localhost"], [WILDCARD] + rest}, [l] + rest, [WILDCARD] + rest);
  }

  ghost function WildcardTree(x: string, rest: Labels): Tree {
    map[["localhost"] := IPs(["127.0.0.1"]), [WILDCARD] + rest := Alias(x)]
  }

  lemma WildcardLetIn(split: Splitter, d: string, x: string, y: string, rest: Labels)
    requires UnderWildcard(split, d, x, y, rest)
    ensures Outcomes(split, map[d := Some(Alias(x))], [d]) == Accepted(WildcardTree(x, rest))
  {
    var start := StartTree(split);
    WildcardFound(split, d, x, y, rest, x);
    assert start.Keys == {["localhost"]};
    var f := Finder(split, start.Keys);
    assert Chain(f, start, x, 0) == Some(x);
    WalkEndAt(f, start, x, d, 0);
    assert [d][..0] == [];
    assert Entered(split, start, d, Alias(x)) == WildcardTree(x, rest);
  }

  /**
   * As {"*.a.com": "x.a.com"}: the one host is let in, it is no alias of itself and nothing is
   * spelled differently, and the search for any other name under the wildcard never ends.
   */
  lemma WildcardCircle(split: Splitter, d: string, x: string, y: string, rest: Labels)
    requires UnderWildcard(split, d, x, y, rest)
    ensures var hosts := map[d := Some(Alias(x))];
      && IsOrderOf(hosts, [d]) && Outcomes(split, hosts, [d]).Accepted?
      && var tree := Outcomes(split, hosts, [d]).tree; !Ends(Finder(split, tree.Keys), tree, y)
  {
    WildcardLetIn(split, d, x, y, rest);
    WildcardFound(split, d, x, y, rest, x);
    WildcardFound(split, d, x, y, rest, y);
    var tree, star := WildcardTree(x, rest), [WILDCARD] + rest;
    assert tree.Keys == {["localhost"], star};
    assert tree[star] == Alias(x) && Edge(Net(split, tree), star, star);
    ReachesSelf(Net(split, tree), star);
    EdgeAndBack(Net(split, tree), star, star);
    SearchEndsIff(Finder(split, tree.Keys), tree, y);
  }

  // ----- without wildcards -----

  /** The name is entered under its own labels, and these match nothing else. */
  ghost predicate Plain(split: Splitter, domain: string) {
    && LabelsOf(split, domain).Some?
    && var parts := LabelsOf(split, domain).value;
      parts[0] != "" && parts[0] != COMPLEX_WILDCARD && WILDCARD !in parts
  }

  /** The entry of a name where there are no wildcards. */
  ghost function Exact(split: Splitter): Fold {
    name => if LabelsOf(split, name).Some? then LabelsOf(split, name).value else NOWHERE
  }

  ghost predicate PlainKeys(keys: set<Key>) {
    forall k :: k in keys ==> k != NOWHERE && k != [] && k[0] != "" && WILDCARD !in k
  }

  /** Two ways to look up that find the same. */
  ghost predicate FindSame(f: Fold, g: Fold, tree: Tree) {
    forall name :: (f(name) in tree <==> g(name) in tree) && (f(name) in tree ==> f(name) == g(name))
  }

  lemma PlainMatch(keys: set<Key>, parts: Labels, p: Key)
    requires PlainKeys(keys) && p in keys && Matches(p, parts)
    ensures p == parts
  {
    forall i | 0 <= i < |p| ensures p[i] == parts[i] {
      assert p[i] in p;
    }
  }

  lemma PlainFinds(split: Splitter, tree: Tree)
    requires PlainKeys(tree.Keys)
    ensures FindSame(Finder(split, tree.Keys), Exact(split), tree)
  {
    var f, g := Finder(split, tree.Keys), Exact(split);
    forall name ensures (f(name) in tree <==> g(name) in tree) && (f(name) in tree ==> f(name) == g(name)) {
      if LabelsOf(split, name).Some? {
        var parts := LabelsOf(split, name).value;
        forall p | p in tree.Keys && Matches(p, parts) ensures p == parts {
          PlainMatch(tree.Keys, parts, p);
        }
        if parts in tree.Keys {
          assert Fits(parts, parts);
          FindsOnly(tree.Keys, parts, parts);
        } else {
          FindsNone(tree.Keys, parts);
        }
      }
    }
  }

  lemma {:induction false} SameChain(f: Fold, g: Fold, tree: Tree, start: string, k: nat)
    requires FindSame(f, g, tree)
    ensures Chain(f, tree, start, k) == Chain(g, tree, start, k)
    ensures AliasAt(f, tree, start, k) == AliasAt(g, tree, start, k)
  {
    if k == 0 {
    } else {
      SameChain(f, g, tree, start, k - 1);
    }
  }

  lemma SameWalk(f: Fold, g: Fold, tree: Tree, start: string, domain: string)
    requires FindSame(f, g, tree)
    ensures WalkEnd(f, tree, start, domain) == WalkEnd(g, tree, start, domain)
  {
    forall k: nat ensures AliasAt(f, tree, start, k) == AliasAt(g, tree, start, k)
      ensures GoesOnAt(f, tree, start, domain, k) == GoesOnAt(g, tree, start, domain, k)
    {
      SameChain(f, g, tree, start, k);
    }
    if k: nat :| StopsAt(f, tree, start, domain, k) {
      WalkEndAt(f, tree, start, domain, k);
      assert StopsAt(g, tree, start, domain, k);
      WalkEndAt(g, tree, start, domain, k);
    } else if k: nat :| StopsAt(g, tree, start, domain, k) {
      assert StopsAt(f, tree, start, domain, k);
    }
  }

  lemma {:induction false} EnterSnoc(f: Fold, hosts: HostTable, tree: Tree, order: seq<string>, d: string)
    requires d in hosts && forall i :: 0 <= i < |order| ==> order[i] in hosts
    ensures Enter(f, hosts, tree, order + [d]) ==
      match Enter(f, hosts, tree, order)
      case Accepted(t) => Enter(f, hosts, t, [d])
      case other => other
    decreases |order|
  {
    if order == [] {
      assert order + [d] == [d];
    } else {
      assert (order + [d])[1..] == order[1..] + [d];
      match hosts[order[0]] {
        case None =>
        case Some(value) =>
          EnterSnoc(f, hosts, tree[f(order[0]) := value], order[1..], d);
      }
    }
  }

  ghost predicate AllPlain(split: Splitter, hosts: HostTable) {
    Plain(split, "localhost") && forall d :: d in hosts ==> Plain(split, d)
  }

  lemma PlainEntered(split: Splitter, tree: Tree, d: string, v: HostValue)
    requires PlainKeys(tree.Keys) && Plain(split, d)
    ensures Entered(split, tree, d, v) == tree[Exact(split)(d) := v] && PlainKeys(Entered(split, tree, d, v).Keys)
  {
    PathsSomewhere(LabelsOf(split, d).value);
  }

  lemma PlainNext(split: Splitter, hosts: HostTable, tree: Tree, d: string)
    requires PlainKeys(tree.Keys) && d in hosts && Plain(split, d)
    ensures Next(split, hosts, tree, d) == Enter(Exact(split), hosts, tree, [d])
    ensures Next(split, hosts, tree, d).Accepted? ==> PlainKeys(Next(split, hosts, tree, d).tree.Keys)
  {
    assert [d][1..] == [];
    if hosts[d].Some? {
      var value := hosts[d].value;
      PlainFinds(split, tree);
      PlainEntered(split, tree, d, value);
      if value.Alias? {
        SameWalk(Finder(split, tree.Keys), Exact(split), tree, value.domain, d);
      }
    }
  }

  /**
   * Without wildcards among the hosts, and without names that the trie refuses, the check over
   * the trie is the check over the table: what Hosts says of every order is true of it.
   */
  lemma {:induction false} PlainIsExact(split: Splitter, hosts: HostTable, order: seq<string>)
    requires AllPlain(split, hosts) && forall i :: 0 <= i < |order| ==> order[i] in hosts
    ensures Outcomes(split, hosts, order) == Enter(Exact(split), hosts, DefaultTree(Exact(split)), order)
    ensures Outcomes(split, hosts, order).Accepted? ==> PlainKeys(Outcomes(split, hosts, order).tree.Keys)
    decreases |order|
  {
    if order == [] {
      PlainEntered(split, map[], "localhost", IPs(["127.0.0.1"]));
    } else {
      var front, d := order[..|order| - 1], order[|order| - 1];
      PlainIsExact(split, hosts, front);
      EnterSnoc(Exact(split), hosts, DefaultTree(Exact(split)), front, d);
      assert front + [d] == order;
      if Outcomes(split, hosts, front).Accepted? {
        PlainNext(split, hosts, Outcomes(split, hosts, front).tree, d);
      }
    }
  }
}
