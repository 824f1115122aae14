/**
 * proxyGroupsDagSort (core/Clash.Meta/config/utils.go): the proxy groups of a configuration
 * are sorted in place so that every group comes after the groups it lists; a configuration
 * whose groups refer to one another in a loop is refused with the groups between the loops.
 *
 * The two maps walked in Go's arbitrary order are walked here in an arbitrary order (`:|`).
 * The option decoder is not modelled: a mapping carries its decoded option, or none.
 */
module GroupSort {
  import opened Prelude
  import opened Graphs

  datatype GroupOption = GroupOption(name: string, proxies: seq<string>)

  /** One entry of the configuration; `decoded` is what the option decoder makes of it. */
  datatype Mapping = Mapping(raw: string, decoded: Option<GroupOption>)

  datatype SortResult =
    | Sorted
    | DecodeError(index: nat)
    | DuplicateName(name: string)
    | LoopFound(names: seq<string>)

  // ----- what a configuration says -----

  ghost predicate Decoded(config: seq<Mapping>) {
    forall i :: 0 <= i < |config| ==> config[i].decoded.Some?
  }

  ghost predicate WellFormed(config: seq<Mapping>) {
    && Decoded(config)
    && forall i, j :: 0 <= i < j < |config| ==> config[i].decoded.value.name != config[j].decoded.value.name
  }

  /** The first entry that cannot be taken decides the error. */
  ghost predicate IsConfigError(config: seq<Mapping>, r: SortResult) {
    exists i :: 0 <= i < |config| && WellFormed(config[..i]) &&
      match config[i].decoded
      case None => r == DecodeError(i)
      case Some(o) => r == DuplicateName(o.name) && Find(config[..i], o.name).Some?
  }

  /** The entry of the group called n. */
  ghost function Find(config: seq<Mapping>, n: string): Option<Mapping> {
    if config == [] then None
    else
      var last := config[|config| - 1];
      if last.decoded.Some? && last.decoded.value.name == n then Some(last)
      else Find(config[..|config| - 1], n)
  }

  ghost function OptionOf(config: seq<Mapping>, n: string): Option<GroupOption> {
    var m := Find(config, n);
    if m.Some? then m.value.decoded else None
  }

  /** What the name n lists; nothing when n is not a group. */
  ghost function Proxies(config: seq<Mapping>, n: string): seq<string> {
    var o := OptionOf(config, n);
    if o.Some? then o.value.proxies else []
  }

  ghost function GroupNames(config: seq<Mapping>): set<string> {
    set i | 0 <= i < |config| && config[i].decoded.Some? :: config[i].decoded.value.name
  }

  ghost function Vertices(config: seq<Mapping>): set<string>
  {
    if config == [] then {}
    else
      Vertices(config[..|config| - 1]) +
      match config[|config| - 1].decoded
      case None => {}
      case Some(o) => {o.name} + Elements(o.proxies)
  }

  /** The reference graph: an edge from each group to every name it lists. */
  ghost function RefGraph(config: seq<Mapping>): Graph<string> {
    map n | n in GroupNames(config) :: Elements(Proxies(config, n))
  }

  ghost predicate Lists(a: Mapping, b: Mapping) {
    a.decoded.Some? && b.decoded.Some? && b.decoded.value.name in a.decoded.value.proxies
  }

  /** Every group comes after all the groups it lists. */
  ghost predicate MembersFirst(groups: seq<Mapping>) {
    forall i, j :: 0 <= i < |groups| && 0 <= j < |groups| && Lists(groups[i], groups[j]) ==> j < i
  }

  // ----- counting -----

  /** How often the groups named in `live` list x. */
  ghost function InEdges(config: seq<Mapping>, live: set<string>, x: string): nat {
    if config == [] then 0
    else
      var last := config[|config| - 1].decoded;
      InEdges(config[..|config| - 1], live, x) +
      if last.Some? && last.value.name in live then multiset(last.value.proxies)[x] else 0
  }

  /** How often x is listed at all. */
  ghost function AllIn(config: seq<Mapping>, x: string): nat {
    if config == [] then 0
    else
      var last := config[|config| - 1].decoded;
      AllIn(config[..|config| - 1], x) + if last.Some? then multiset(last.value.proxies)[x] else 0
  }

  /** The groups whose names are still in `live`. */
  ghost function Remaining(config: seq<Mapping>, live: set<string>): multiset<Mapping> {
    if config == [] then multiset{}
    else
      var last := config[|config| - 1];
      Remaining(config[..|config| - 1], live) +
      if last.decoded.Some? && last.decoded.value.name in live then multiset{last} else multiset{}
  }

  /** How many entries of a list are in `live`. */
  ghost function OutCount(ps: seq<string>, live: set<string>): nat {
    if ps == [] then 0
    else OutCount(ps[..|ps| - 1], live) + if ps[|ps| - 1] in live then 1 else 0
  }

  lemma {:induction false} FindIsEntry(config: seq<Mapping>, n: string)
    ensures var m := Find(config, n);
      if m.Some? then m.value in config && m.value.decoded.Some? && m.value.decoded.value.name == n
        && n in GroupNames(config)
      else n !in GroupNames(config)
  {
    if config == [] {
    } else {
      var front, last := config[..|config| - 1], config[|config| - 1];
      FindIsEntry(front, n);
      if n in GroupNames(config) && !(last.decoded.Some? && last.decoded.value.name == n) {
        var i :| 0 <= i < |config| && config[i].decoded.Some? && config[i].decoded.value.name == n;
        assert front[i] == config[i];
      }
    }
  }

  lemma {:induction false} FindAt(config: seq<Mapping>, k: nat)
    requires WellFormed(config) && k < |config|
    ensures Find(config, config[k].decoded.value.name) == Some(config[k])
  {
    if k == |config| - 1 {
    } else {
      FindAt(config[..|config| - 1], k);
    }
  }

  lemma EdgeIsListing(config: seq<Mapping>, a: string, b: string)
    ensures Edge(RefGraph(config), a, b) <==> b in Proxies(config, a)
  {
    FindIsEntry(config, a);
  }

  lemma GroupNamesFront(config: seq<Mapping>)
    requires config != []
    ensures GroupNames(config[..|config| - 1]) <= GroupNames(config)
  {
    var front := config[..|config| - 1];
    forall n | n in GroupNames(front) ensures n in GroupNames(config) {
      var i :| 0 <= i < |front| && front[i].decoded.Some? && front[i].decoded.value.name == n;
      assert config[i] == front[i];
    }
  }

  lemma {:induction false} InEdgesAll(config: seq<Mapping>, live: set<string>, x: string)
    requires GroupNames(config) <= live
    ensures InEdges(config, live, x) == AllIn(config, x)
  {
    if config == [] {
    } else {
      GroupNamesFront(config);
      InEdgesAll(config[..|config| - 1], live, x);
      var last := config[|config| - 1].decoded;
      assert last.Some? ==> last.value.name in GroupNames(config);
    }
  }

  lemma {:induction false} InEdgesDrop(config: seq<Mapping>, live: set<string>, n: string, x: string)
    requires WellFormed(config) && n in live
    ensures InEdges(config, live, x) == InEdges(config, live - {n}, x) + multiset(Proxies(config, n))[x]
  {
    if config == [] {
    } else {
      var front, last := config[..|config| - 1], config[|config| - 1].decoded.value;
      InEdgesDrop(front, live, n, x);
      if last.name == n {
        FindIsEntry(front, n);
      }
    }
  }

  lemma {:induction false} InEdgesPositive(config: seq<Mapping>, live: set<string>, x: string) returns (n: string)
    requires WellFormed(config) && InEdges(config, live, x) > 0
    ensures n in live && x in Proxies(config, n)
  {
    var front, last := config[..|config| - 1], config[|config| - 1].decoded.value;
    if last.name in live && x in last.proxies {
      n := last.name;
    } else {
      n := InEdgesPositive(front, live, x);
      FindIsEntry(front, n);
      var i :| 0 <= i < |front| && front[i].decoded.value.name == n;
      assert config[i] == front[i];
    }
  }

  lemma InEdgesZero(config: seq<Mapping>, live: set<string>, n: string, x: string)
    requires WellFormed(config) && InEdges(config, live, x) == 0 && n in live
    ensures x !in Proxies(config, n)
  {
    InEdgesDrop(config, live, n, x);
  }

  lemma {:induction false} RemainingDrop(config: seq<Mapping>, live: set<string>, n: string)
    requires WellFormed(config) && n in live
    ensures Remaining(config, live) == Remaining(config, live - {n}) +
      (if Find(config, n).Some? then multiset{Find(config, n).value} else multiset{})
  {
    if config == [] {
    } else {
      var front, last := config[..|config| - 1], config[|config| - 1].decoded.value;
      RemainingDrop(front, live, n);
      if last.name == n {
        FindIsEntry(front, n);
      }
    }
  }

  lemma {:induction false} RemainingAll(config: seq<Mapping>, live: set<string>)
    requires Decoded(config) && GroupNames(config) <= live
    ensures Remaining(config, live) == multiset(config)
  {
    if config == [] {
    } else {
      var front := config[..|config| - 1];
      GroupNamesFront(config);
      assert config[|config| - 1].decoded.value.name in GroupNames(config);
      RemainingAll(front, live);
      assert config == front + [config[|config| - 1]];
    }
  }

  lemma {:induction false} RemainingNone(config: seq<Mapping>)
    ensures Remaining(config, {}) == multiset{}
  {
    if config == [] {
    } else {
      RemainingNone(config[..|config| - 1]);
    }
  }

  lemma {:induction false} OutCountDrop(ps: seq<string>, live: set<string>, n: string)
    requires n in live
    ensures OutCount(ps, live) == OutCount(ps, live - {n}) + multiset(ps)[n]
  {
    if ps == [] {
    } else {
      OutCountDrop(ps[..|ps| - 1], live, n);
      assert ps == ps[..|ps| - 1] + [ps[|ps| - 1]];
    }
  }

  lemma {:induction false} OutCountAll(ps: seq<string>, live: set<string>)
    requires Elements(ps) <= live
    ensures OutCount(ps, live) == |ps|
  {
    if ps == [] {
    } else {
      assert Elements(ps[..|ps| - 1]) <= Elements(ps);
      OutCountAll(ps[..|ps| - 1], live);
    }
  }

  lemma {:induction false} OutCountPositive(ps: seq<string>, live: set<string>) returns (n: string)
    requires OutCount(ps, live) > 0
    ensures n in live && n in ps
  {
    if ps[|ps| - 1] in live {
      n := ps[|ps| - 1];
    } else {
      n := OutCountPositive(ps[..|ps| - 1], live);
    }
  }

  lemma {:induction false} ProxiesAreVertices(config: seq<Mapping>, n: string)
    ensures Elements(Proxies(config, n)) <= Vertices(config)
    ensures n in GroupNames(config) ==> n in Vertices(config)
  {
    if config == [] {
    } else {
      var front, last := config[..|config| - 1], config[|config| - 1].decoded;
      ProxiesAreVertices(front, n);
      if n in GroupNames(config) && !(last.Some? && last.value.name == n) {
        var i :| 0 <= i < |config| && config[i].decoded.Some? && config[i].decoded.value.name == n;
        assert front[i] == config[i];
        assert n in GroupNames(front);
      }
    }
  }

  // ----- the node objects of the sort -----

  class GraphNode {
    var indegree: int
    var data: Option<Mapping>
    var outdegree: int
    var option: Option<GroupOption>
    var from: seq<string>

    constructor (indegree: int, data: Option<Mapping>, option: Option<GroupOption>)
      ensures this.indegree == indegree && this.data == data && this.option == option
      ensures outdegree == 0 && from == []
    {
      this.indegree, this.data, this.option := indegree, data, option;
      outdegree, from := 0, [];
    }
  }

  type NodeMap = map<string, GraphNode>

  ghost predicate NoSharing(graph: NodeMap) {
    forall a, b :: a in graph && b in graph && a != b ==> graph[a] != graph[b]
  }

  /** Each node carries the entry of the group it stands for, if it stands for a group. */
  ghost predicate Wired(graph: NodeMap, config: seq<Mapping>)
    reads set x | x in graph :: graph[x]`data, set x | x in graph :: graph[x]`option
  {
    && NoSharing(graph)
    && forall x :: x in graph ==> graph[x].data == Find(config, x) && graph[x].option == OptionOf(config, x)
  }

  ghost predicate Unlinked(graph: NodeMap)
    reads set x | x in graph :: graph[x]`outdegree, set x | x in graph :: graph[x]`from
  {
    forall x :: x in graph ==> graph[x].outdegree == 0 && graph[x].from == []
  }

  // ----- step 1.1: build the graph -----

  /** A node that so far only stands for a listed name. */
  ghost predicate IsBare(node: GraphNode)
    reads node`data, node`option, node`outdegree, node`from
  {
    node.data.None? && node.option.None? && node.outdegree == 0 && node.from == []
  }

  ghost function Indegrees(graph: NodeMap): map<string, int>
    reads graph.Values
  {
    map x | x in graph :: graph[x].indegree
  }

  /** The counters of g are those in `base`, raised by the occurrences in ps. */
  ghost predicate CountsFrom(g: NodeMap, base: map<string, int>, ps: seq<string>)
    reads g.Values
  {
    && g.Keys == base.Keys + Elements(ps)
    && forall x :: x in g ==> g[x].indegree == (if x in base then base[x] else 0) + multiset(ps)[x]
  }

  /** g has the nodes of `graph` and, beyond them, only bare ones. */
  ghost predicate OnlyBareAdded(graph: NodeMap, g: NodeMap)
    reads set x | x in g :: g[x]`data, set x | x in g :: g[x]`option, set x | x in g :: g[x]`outdegree,
      set x | x in g :: g[x]`from
  {
    && NoSharing(g)
    && (forall x :: x in graph ==> x in g && g[x] == graph[x])
    && (forall x :: x in g && x !in graph ==> IsBare(g[x]))
  }

  /** Raising one counter, in a graph that has the name. */
  method Raise(ghost origin: NodeMap, g: NodeMap, p: string, ghost base: map<string, int>, ghost ps: seq<string>)
    requires OnlyBareAdded(origin, g) && CountsFrom(g, base, ps) && p in g
    modifies g.Values`indegree
    ensures OnlyBareAdded(origin, g) && CountsFrom(g, base, ps + [p])
  {
    g[p].indegree := g[p].indegree + 1;
    assert (ps + [p])[|ps|] == p;
  }

  method AddReference(ghost origin: NodeMap, graph: NodeMap, p: string, ghost base: map<string, int>,
                      ghost ps: seq<string>)
    returns (g: NodeMap)
    requires OnlyBareAdded(origin, graph) && CountsFrom(graph, base, ps)
    modifies graph.Values`indegree
    ensures OnlyBareAdded(origin, g) && CountsFrom(g, base, ps + [p])
    ensures forall x :: x in g ==> if x in graph then g[x] == graph[x] else fresh(g[x])
  {
    g := graph;
    if p in g {
      Raise(origin, g, p, base, ps);
    } else {
      var node := new GraphNode(1, None, None);
      g := g[p := node];
      assert (ps + [p])[|ps|] == p;
    }
  }

  method AddReferences(graph: NodeMap, proxies: seq<string>) returns (g: NodeMap)
    requires NoSharing(graph)
    modifies graph.Values`indegree
    ensures OnlyBareAdded(graph, g) && CountsFrom(g, old(Indegrees(graph)), proxies)
    ensures forall x :: x in g && x !in graph ==> fresh(g[x])
  {
    g := graph;
    ghost var base := Indegrees(graph);
    for j := 0 to |proxies|
      invariant OnlyBareAdded(graph, g) && CountsFrom(g, base, proxies[..j])
      invariant forall x :: x in g && x !in graph ==> fresh(g[x])
    {
      g := AddReference(graph, g, proxies[j], base, proxies[..j]);
      PrefixGrows(proxies, j);
    }
    WholePrefix(proxies);
  }

  lemma FreshName(config: seq<Mapping>, mapping: Mapping)
    requires WellFormed(config) && mapping.decoded.Some? && Find(config, mapping.decoded.value.name).None?
    ensures WellFormed(config + [mapping])
  {
    forall i | 0 <= i < |config| ensures config[i].decoded.value.name != mapping.decoded.value.name {
      FindAt(config, i);
    }
  }

  /** Enter the next group; its node may exist already because an earlier group lists it. */
  method EnterGroup(graph: NodeMap, mapping: Mapping, ghost config: seq<Mapping>) returns (ok: bool, g: NodeMap)
    requires WellFormed(config) && mapping.decoded.Some?
    requires Wired(graph, config) && Unlinked(graph) && graph.Keys == Vertices(config)
    modifies graph.Values`data, graph.Values`option
    ensures var n := mapping.decoded.value.name;
      if !ok then n in graph && Find(config, n).Some?
      else
        && WellFormed(config + [mapping]) && Wired(g, config + [mapping]) && Unlinked(g)
        && g.Keys == graph.Keys + {n}
        && (forall x :: x in graph ==> g[x].indegree == old(graph[x].indegree))
        && (n !in graph ==> g[n].indegree == 0)
    ensures fresh(g.Values - graph.Values)
  {
    g := graph;
    var option := mapping.decoded.value;
    FindIsEntry(config, option.name);
    ProxiesAreVertices(config, option.name);
    ghost var next := config + [mapping];
    assert next[..|next| - 1] == config;
    if option.name in g {
      var node := g[option.name];
      if node.data.Some? {
        return false, g;
      }
      FreshName(config, mapping);
      node.data := Some(mapping);
      node.option := Some(option);
    } else {
      FreshName(config, mapping);
      var node := new GraphNode(0, Some(mapping), Some(option));
      g := g[option.name := node];
    }
    ok := true;
  }

  /** The graph after step 1.1 has gone through `config`. */
  ghost predicate Built(graph: NodeMap, config: seq<Mapping>)
    reads graph.Values
  {
    && Wired(graph, config) && Unlinked(graph)
    && graph.Keys == Vertices(config)
    && forall x :: x in graph ==> graph[x].indegree == AllIn(config, x)
  }

  lemma {:induction false} UnlistedCountsZero(config: seq<Mapping>, x: string)
    requires x !in Vertices(config)
    ensures AllIn(config, x) == 0 && Find(config, x).None?
  {
    FindIsEntry(config, x);
    ProxiesAreVertices(config, x);
    if config == [] {
    } else {
      UnlistedCountsZero(config[..|config| - 1], x);
    }
  }

  /** What one more entry changes about the name x. */
  lemma EntryCounts(config: seq<Mapping>, mapping: Mapping, x: string)
    requires mapping.decoded.Some?
    ensures AllIn(config + [mapping], x) == AllIn(config, x) + multiset(mapping.decoded.value.proxies)[x]
    ensures x !in Vertices(config) && x != mapping.decoded.value.name ==>
      AllIn(config, x) == 0 && Find(config + [mapping], x).None?
    ensures x !in Vertices(config) ==> AllIn(config, x) == 0
  {
    FrontOfSnoc(config, mapping);
    if x !in Vertices(config) {
      UnlistedCountsZero(config, x);
    }
  }

  lemma EntryVertices(config: seq<Mapping>, mapping: Mapping)
    requires mapping.decoded.Some?
    ensures Vertices(config + [mapping]) ==
      Vertices(config) + {mapping.decoded.value.name} + Elements(mapping.decoded.value.proxies)
  {
    FrontOfSnoc(config, mapping);
  }

  lemma BuiltAfter(config: seq<Mapping>, mapping: Mapping, mid: NodeMap, base: map<string, int>, g: NodeMap)
    requires mapping.decoded.Some?
    requires Wired(mid, config + [mapping]) && Unlinked(mid)
      && mid.Keys == Vertices(config) + {mapping.decoded.value.name}
    requires base.Keys == mid.Keys && forall x :: x in base ==> base[x] == AllIn(config, x)
    requires OnlyBareAdded(mid, g) && CountsFrom(g, base, mapping.decoded.value.proxies)
    ensures Built(g, config + [mapping])
  {
    var next := config + [mapping];
    EntryVertices(config, mapping);
    forall x | x in g
      ensures g[x].indegree == AllIn(next, x) && g[x].outdegree == 0 && g[x].from == []
      ensures g[x].data == Find(next, x) && g[x].option == OptionOf(next, x)
    {
      EntryCounts(config, mapping, x);
      if x !in mid {
        assert IsBare(g[x]);
      }
    }
  }

  /** The counters that a new entry starts from. */
  lemma EntryBase(config: seq<Mapping>, mapping: Mapping, base: map<string, int>)
    requires mapping.decoded.Some? && base.Keys == Vertices(config) + {mapping.decoded.value.name}
    requires forall x :: x in Vertices(config) ==> base[x] == AllIn(config, x)
    requires mapping.decoded.value.name !in Vertices(config) ==> base[mapping.decoded.value.name] == 0
    ensures forall x :: x in base ==> base[x] == AllIn(config, x)
  {
    EntryCounts(config, mapping, mapping.decoded.value.name);
  }

  /** The references of an entry that has been entered. */
  method ReferAll(mid: NodeMap, mapping: Mapping, ghost config: seq<Mapping>) returns (g: NodeMap)
    requires mapping.decoded.Some? && mid.Keys == Vertices(config) + {mapping.decoded.value.name}
    requires Wired(mid, config + [mapping]) && Unlinked(mid)
    requires forall x :: x in Vertices(config) ==> mid[x].indegree == AllIn(config, x)
    requires mapping.decoded.value.name !in Vertices(config) ==> mid[mapping.decoded.value.name].indegree == 0
    modifies mid.Values`indegree
    ensures Built(g, config + [mapping])
    ensures fresh(g.Values - mid.Values)
  {
    ghost var base := Indegrees(mid);
    EntryBase(config, mapping, base);
    g := AddReferences(mid, mapping.decoded.value.proxies);
    BuiltAfter(config, mapping, mid, base, g);
  }

  method TakeEntry(graph: NodeMap, mapping: Mapping, ghost config: seq<Mapping>) returns (ok: bool, g: NodeMap)
    requires WellFormed(config) && mapping.decoded.Some? && Built(graph, config)
    modifies graph.Values
    ensures !ok ==> Find(config, mapping.decoded.value.name).Some?
    ensures ok ==> WellFormed(config + [mapping]) && Built(g, config + [mapping])
    ensures fresh(g.Values - graph.Values)
  {
    ok, g := EnterGroup(graph, mapping, config);
    if ok {
      g := ReferAll(g, mapping, config);
    }
  }

  method Build(groupsConfig: array<Mapping>) returns (err: Option<SortResult>, graph: NodeMap)
    ensures err.Some? ==>
      IsConfigError(groupsConfig[..], err.value) && (err.value.DecodeError? || err.value.DuplicateName?)
    ensures err.None? ==> WellFormed(groupsConfig[..]) && Built(graph, groupsConfig[..])
    ensures fresh(graph.Values)
  {
    graph := map[];
    err := None;
    ghost var config := groupsConfig[..];
    for i := 0 to groupsConfig.Length
      invariant WellFormed(config[..i]) && Built(graph, config[..i])
      invariant fresh(graph.Values)
    {
      var mapping := groupsConfig[i];
      PrefixGrows(config, i);
      if mapping.decoded.None? {
        return Some(DecodeError(i)), graph;
      }
      var ok, g := TakeEntry(graph, mapping, config[..i]);
      if !ok {
        return Some(DuplicateName(mapping.decoded.value.name)), map[];
      }
      graph := g;
    }
    WholePrefix(config);
  }

  // ----- step 1.2: topological sort -----

  /** Popped names are listed by no name that is still in the graph. */
  ghost predicate PoppedFree(config: seq<Mapping>, live: set<string>) {
    && live <= Vertices(config)
    && forall x {:trigger InEdges(config, live, x)} :: x in Vertices(config) && x !in live ==>
        InEdges(config, live, x) == 0
  }

  lemma PopKeepsFree(config: seq<Mapping>, live: set<string>, name: string)
    requires WellFormed(config) && PoppedFree(config, live) && name in live && InEdges(config, live, name) == 0
    ensures PoppedFree(config, live - {name})
    ensures Elements(Proxies(config, name)) <= live - {name}
  {
    forall x | x in Vertices(config) && x !in live - {name} ensures InEdges(config, live - {name}, x) == 0 {
      InEdgesDrop(config, live, name, x);
      assert x !in live ==> InEdges(config, live, x) == 0;
    }
    ProxiesAreVertices(config, name);
    forall x | x in Elements(Proxies(config, name)) ensures x in live - {name} {
      InEdgesDrop(config, live, name, x);
      assert x !in live ==> InEdges(config, live, x) == 0;
    }
  }

  ghost predicate HoldsPredClosed(config: seq<Mapping>, live: set<string>) {
    forall s :: PredClosed(RefGraph(config), s) ==> s <= live
  }

  lemma PopKeepsPredClosed(config: seq<Mapping>, live: set<string>, name: string)
    requires WellFormed(config) && HoldsPredClosed(config, live) && name in live && InEdges(config, live, name) == 0
    ensures HoldsPredClosed(config, live - {name})
  {
    forall s | PredClosed(RefGraph(config), s) ensures s <= live - {name} {
      assert s <= live;
      if name in s {
        assert HasPred(RefGraph(config), s, name);
        var a :| a in s && Edge(RefGraph(config), a, name);
        EdgeIsListing(config, a, name);
        InEdgesZero(config, live, a, name);
        assert false;
      }
    }
  }

  lemma AllHoldPredClosed(config: seq<Mapping>)
    ensures HoldsPredClosed(config, Vertices(config))
  {
    forall s | PredClosed(RefGraph(config), s) ensures s <= Vertices(config) {
      forall x | x in s ensures x in Vertices(config) {
        assert HasPred(RefGraph(config), s, x);
        var a :| a in s && Edge(RefGraph(config), a, x);
        EdgeIsListing(config, a, x);
        ProxiesAreVertices(config, a);
        assert x in Elements(Proxies(config, a));
      }
    }
  }

  /** The back of the array holds the popped groups, sorted; the front is untouched. */
  ghost predicate Placed(config: seq<Mapping>, live: set<string>, arr: seq<Mapping>, index: nat) {
    && |arr| == |config|
    && index + |Remaining(config, live)| == |config|
    && arr[..|arr| - index] == config[..|arr| - index]
    && multiset(arr[|arr| - index..]) + Remaining(config, live) == multiset(config)
    && MembersFirst(arr[|arr| - index..])
    && forall m :: m in arr[|arr| - index..] ==> m.decoded.Some? && m.decoded.value.name !in live
  }

  lemma PlacedInitially(config: seq<Mapping>)
    requires Decoded(config)
    ensures Placed(config, Vertices(config), config, 0)
  {
    forall n | n in GroupNames(config) ensures n in Vertices(config) {
      ProxiesAreVertices(config, n);
    }
    RemainingAll(config, Vertices(config));
    assert config[|config|..] == [];
  }

  /** A popped name that is no group changes nothing. */
  lemma PlaceNothing(config: seq<Mapping>, live: set<string>, name: string, arr: seq<Mapping>, index: nat)
    requires WellFormed(config) && name in live && Placed(config, live, arr, index) && Find(config, name).None?
    ensures Placed(config, live - {name}, arr, index)
  {
    RemainingDrop(config, live, name);
  }

  lemma MembersFirstCons(m: Mapping, groups: seq<Mapping>)
    requires MembersFirst(groups)
    requires !Lists(m, m) && forall e :: e in groups ==> !Lists(m, e)
    ensures MembersFirst([m] + groups)
  {
    var all := [m] + groups;
    forall i, j | 0 <= i < |all| && 0 <= j < |all| && Lists(all[i], all[j]) ensures j < i {
      if i > 0 && j > 0 {
        assert Lists(groups[i - 1], groups[j - 1]);
      }
    }
  }

  lemma UpdateSplits<T>(arr: seq<T>, k: nat, m: T)
    requires k < |arr|
    ensures arr[k := m][..k] == arr[..k] == arr[..k + 1][..k]
    ensures arr[k := m][k..] == [m] + arr[k + 1..]
  {
  }

  /** The new group lists none of the groups behind it, nor itself. */
  lemma PlaceGroupInOrder(config: seq<Mapping>, live: set<string>, name: string, m: Mapping, placed: seq<Mapping>)
    requires WellFormed(config) && name in live && Find(config, name) == Some(m)
    requires Elements(Proxies(config, name)) <= live - {name}
    requires MembersFirst(placed) && forall e :: e in placed ==> e.decoded.Some? && e.decoded.value.name !in live
    ensures m.decoded.Some? && m.decoded.value.name == name && MembersFirst([m] + placed)
  {
    FindIsEntry(config, name);
    forall e | e in placed || e == m ensures !Lists(m, e) {
      assert e.decoded.value.name !in Elements(Proxies(config, name));
    }
    MembersFirstCons(m, placed);
  }

  /** A popped group goes in front of the groups popped before it. */
  lemma PlaceGroup(config: seq<Mapping>, live: set<string>, name: string, arr: seq<Mapping>, index: nat, m: Mapping)
    requires WellFormed(config) && name in live && Find(config, name) == Some(m)
    requires index > 0 && Placed(config, live, arr, index - 1)
    requires Elements(Proxies(config, name)) <= live - {name}
    ensures index <= |arr| && Placed(config, live - {name}, arr[|arr| - index := m], index)
  {
    RemainingDrop(config, live, name);
    FindIsEntry(config, name);
    var k := |arr| - index;
    PlaceGroupInOrder(config, live, name, m, arr[k + 1..]);
    UpdateSplits(arr, k, m);
    UpdateSplits(config, k, m);
  }

  ghost predicate Counting(graph: NodeMap, base: map<string, nat>, more: multiset<string>)
    reads set x | x in graph :: graph[x]`indegree
  {
    && graph.Keys == base.Keys
    && forall x :: x in graph ==> graph[x].indegree == base[x] + more[x]
  }

  /** The queue holds, once each, the nodes nobody lists any more. */
  ghost predicate QueuesSources(graph: NodeMap, queue: seq<string>)
    reads set x | x in graph :: graph[x]`indegree
  {
    && Distinct(queue)
    && (forall x :: x in queue ==> x in graph && graph[x].indegree == 0)
    && (forall x :: x in graph && graph[x].indegree == 0 ==> x in queue)
  }

  method ReleaseOne(graph: NodeMap, p: string, queue: seq<string>, ghost base: map<string, nat>,
                    ghost more: multiset<string>)
    returns (q: seq<string>)
    requires NoSharing(graph) && p in graph
    requires Counting(graph, base, multiset{p} + more) && QueuesSources(graph, queue)
    modifies graph.Values`indegree
    ensures Counting(graph, base, more) && QueuesSources(graph, q)
    ensures queue <= q
  {
    q := queue;
    var child := graph[p];
    child.indegree := child.indegree - 1;
    if child.indegree == 0 {
      q := q + [p];
    }
  }

  method Release(graph: NodeMap, proxies: seq<string>, queue: seq<string>, ghost base: map<string, nat>)
    returns (q: seq<string>)
    requires NoSharing(graph) && Elements(proxies) <= graph.Keys
    requires Counting(graph, base, multiset(proxies)) && QueuesSources(graph, queue)
    modifies graph.Values`indegree
    ensures Counting(graph, base, multiset{}) && QueuesSources(graph, q)
    ensures queue <= q
  {
    q := queue;
    for j := 0 to |proxies|
      invariant Counting(graph, base, multiset(proxies[j..])) && QueuesSources(graph, q)
      invariant queue <= q
    {
      SuffixShrinks(proxies, j);
      assert proxies[j] in Elements(proxies);
      q := ReleaseOne(graph, proxies[j], q, base, multiset(proxies[j + 1..]));
    }
  }

  /** The state between two rounds of the topological sort. */
  ghost predicate Sorting(config: seq<Mapping>, graph: NodeMap, queue: seq<string>)
    reads graph.Values
  {
    && Wired(graph, config) && Unlinked(graph)
    && PoppedFree(config, graph.Keys) && HoldsPredClosed(config, graph.Keys)
    && (forall x :: x in graph ==> graph[x].indegree == InEdges(config, graph.Keys, x))
    && QueuesSources(graph, queue)
  }

  ghost function LiveCounts(config: seq<Mapping>, names: set<string>, live: set<string>): map<string, nat> {
    map x | x in names :: InEdges(config, live, x)
  }

  /** Before a popped group's references are released. */
  lemma PopCounts(config: seq<Mapping>, graph: NodeMap, queue: seq<string>)
    requires WellFormed(config) && Sorting(config, graph, queue) && queue != []
    ensures var name := queue[0];
      && Counting(graph, LiveCounts(config, graph.Keys, graph.Keys - {name}), multiset(Proxies(config, name)))
      && Elements(Proxies(config, name)) <= graph.Keys - {name}
  {
    var name := queue[0];
    forall x | x in graph ensures InEdges(config, graph.Keys, x) ==
      InEdges(config, graph.Keys - {name}, x) + multiset(Proxies(config, name))[x]
    {
      InEdgesDrop(config, graph.Keys, name, x);
    }
    PopKeepsFree(config, graph.Keys, name);
  }

  /** After the references are released and the node is deleted. */
  lemma PopDone(config: seq<Mapping>, graph: NodeMap, name: string, q: seq<string>)
    requires WellFormed(config) && Wired(graph, config) && Unlinked(graph)
    requires PoppedFree(config, graph.Keys) && HoldsPredClosed(config, graph.Keys)
    requires name in graph && InEdges(config, graph.Keys, name) == 0
    requires Counting(graph, LiveCounts(config, graph.Keys, graph.Keys - {name}), multiset{})
    requires QueuesSources(graph, q) && q != [] && q[0] == name
    ensures Sorting(config, graph - {name}, q[1..])
  {
    PopKeepsFree(config, graph.Keys, name);
    PopKeepsPredClosed(config, graph.Keys, name);
    assert (graph - {name}).Keys == graph.Keys - {name};
    QueueAfterPop(graph, name, q);
  }

  lemma QueueAfterPop(graph: NodeMap, name: string, q: seq<string>)
    requires QueuesSources(graph, q) && q != [] && q[0] == name
    ensures QueuesSources(graph - {name}, q[1..])
  {
    var rest, tail := graph - {name}, q[1..];
    assert q == [name] + tail;
    forall x | x in tail ensures x in rest && rest[x].indegree == 0 {
      var i :| 0 <= i < |tail| && tail[i] == x;
      assert q[i + 1] == x && x in q;
    }
  }

  method WriteAt(groupsConfig: array<Mapping>, i: nat, m: Mapping)
    requires i < groupsConfig.Length
    modifies groupsConfig
    ensures groupsConfig[..] == old(groupsConfig[..])[i := m]
  {
    groupsConfig[i] := m;
  }

  /** A popped group is written to the next place from the back. */
  method WriteGroup(groupsConfig: array<Mapping>, k: nat, m: Mapping,
                    ghost config: seq<Mapping>, ghost live: set<string>, ghost name: string)
    requires WellFormed(config) && name in live && k > 0 && Placed(config, live, groupsConfig[..], k - 1)
    requires Find(config, name) == Some(m) && Elements(Proxies(config, name)) <= live - {name}
    modifies groupsConfig
    ensures Placed(config, live - {name}, groupsConfig[..], k)
  {
    ghost var before := groupsConfig[..];
    PlaceGroup(config, live, name, before, k, m);
    ghost var after := before[|before| - k := m];
    WriteAt(groupsConfig, groupsConfig.Length - k, m);
    assert groupsConfig[..] == after;
  }

  /** A popped name that is no group leaves the array alone. */
  method PlacePopped(groupsConfig: array<Mapping>, node: GraphNode, index: nat,
                     ghost config: seq<Mapping>, ghost live: set<string>, ghost name: string) returns (k: nat)
    requires WellFormed(config) && name in live && Placed(config, live, groupsConfig[..], index)
    requires node.data == Find(config, name) && node.option == OptionOf(config, name)
    requires Elements(Proxies(config, name)) <= live - {name}
    modifies groupsConfig
    ensures Placed(config, live - {name}, groupsConfig[..], k)
  {
    k := index;
    if node.option.Some? {
      k := k + 1;
      WriteGroup(groupsConfig, k, node.data.value, config, live, name);
    } else {
      NoOption(config, name);
      PlaceNothing(config, live, name, groupsConfig[..], index);
    }
  }

  lemma NoOption(config: seq<Mapping>, name: string)
    requires WellFormed(config) && OptionOf(config, name).None?
    ensures Find(config, name).None?
  {
    FindIsEntry(config, name);
  }

  /** The references of the popped name are taken back; the names nobody lists any more join the queue. */
  method ReleasePopped(graph: NodeMap, queue: seq<string>, ghost config: seq<Mapping>) returns (q: seq<string>)
    requires WellFormed(config) && Sorting(config, graph, queue) && queue != []
    modifies graph.Values`indegree
    ensures Sorting(config, graph - {queue[0]}, q)
  {
    var name, node := queue[0], graph[queue[0]];
    ghost var base := LiveCounts(config, graph.Keys, graph.Keys - {name});
    PopCounts(config, graph, queue);
    q := queue;
    if node.option.Some? {
      q := Release(graph, node.option.value.proxies, q, base);
    }
    PopDone(config, graph, name, q);
    q := q[1..];
  }

  method PopOne(groupsConfig: array<Mapping>, graph: NodeMap, queue: seq<string>, index: nat,
                ghost config: seq<Mapping>)
    returns (g: NodeMap, q: seq<string>, k: nat)
    requires WellFormed(config) && Sorting(config, graph, queue) && queue != []
    requires Placed(config, graph.Keys, groupsConfig[..], index)
    modifies groupsConfig, graph.Values`indegree
    ensures g == graph - {queue[0]} && g.Keys == graph.Keys - {queue[0]} && queue[0] in graph
    ensures Sorting(config, g, q) && Placed(config, g.Keys, groupsConfig[..], k)
  {
    var name := queue[0];
    PopKeepsFree(config, graph.Keys, name);
    k := PlacePopped(groupsConfig, graph[name], index, config, graph.Keys, name);
    q := ReleasePopped(graph, queue, config);
    g := graph - {name};
    assert g.Keys == graph.Keys - {name};
  }

  method TopoSort(groupsConfig: array<Mapping>, graph: NodeMap) returns (g: NodeMap)
    requires WellFormed(groupsConfig[..]) && Built(graph, groupsConfig[..])
    modifies groupsConfig, graph.Values`indegree
    ensures forall x :: x in g ==> x in graph && g[x] == graph[x]
    ensures Sorting(old(groupsConfig[..]), g, [])
    ensures exists k: nat :: Placed(old(groupsConfig[..]), g.Keys, groupsConfig[..], k)
  {
    ghost var config := groupsConfig[..];
    var index := 0;
    var queue := Sources(graph);
    g := graph;
    SortingInitially(config, graph, queue);
    PlacedInitially(config);
    while queue != []
      invariant forall x :: x in g ==> x in graph && g[x] == graph[x]
      invariant Sorting(config, g, queue)
      invariant Placed(config, g.Keys, groupsConfig[..], index)
      decreases g.Keys
    {
      g, queue, index := PopOne(groupsConfig, g, queue, index, config);
    }
  }

  /** The nodes nobody lists, in whatever order the map is walked. */
  method Sources(graph: NodeMap) returns (queue: seq<string>)
    ensures QueuesSources(graph, queue)
  {
    queue := [];
    var todo := graph.Keys;
    while todo != {}
      invariant todo <= graph.Keys && Distinct(queue)
      invariant forall x :: x in queue <==> x in graph && x !in todo && graph[x].indegree == 0
      decreases todo
    {
      var name :| name in todo;
      if graph[name].indegree == 0 {
        queue := queue + [name];
      }
      todo := todo - {name};
    }
  }

  lemma SortingInitially(config: seq<Mapping>, graph: NodeMap, queue: seq<string>)
    requires WellFormed(config) && Built(graph, config) && QueuesSources(graph, queue)
    ensures Sorting(config, graph, queue)
  {
    forall n | n in GroupNames(config) ensures n in graph {
      ProxiesAreVertices(config, n);
    }
    forall x | x in graph ensures graph[x].indegree == InEdges(config, graph.Keys, x) {
      InEdgesAll(config, graph.Keys, x);
    }
    AllHoldPredClosed(config);
  }

  // ----- step 2.1: fill `outdegree` and `from` -----

  /** The links of the names in `linked`, and of `name` as far as its references ps. */
  ghost predicate Linked(config: seq<Mapping>, graph: NodeMap, linked: set<string>, name: string, ps: seq<string>)
    reads set x | x in graph :: graph[x]`outdegree, set x | x in graph :: graph[x]`from
  {
    OutLinked(config, graph, linked, name, |ps|) && FromLinked(config, graph, linked, name, ps)
  }

  ghost predicate OutLinked(config: seq<Mapping>, graph: NodeMap, linked: set<string>, name: string, n: nat)
    reads set x | x in graph :: graph[x]`outdegree
  {
    forall x :: x in graph ==>
      graph[x].outdegree == if x in linked then |Proxies(config, x)| else if x == name then n else 0
  }

  ghost predicate FromLinked(config: seq<Mapping>, graph: NodeMap, linked: set<string>, name: string, ps: seq<string>)
    reads set x | x in graph :: graph[x]`from
  {
    forall x :: x in graph ==> ListersOf(config, linked, name, ps, x, graph[x].from)
  }

  ghost predicate ListersOf(config: seq<Mapping>, linked: set<string>, name: string, ps: seq<string>, x: string,
                            from: seq<string>) {
    forall f ::
      multiset(from)[f] ==
      if f in linked then multiset(Proxies(config, f))[x] else if f == name then multiset(ps)[x] else 0
  }

  lemma ListersGrow(config: seq<Mapping>, linked: set<string>, name: string, ps: seq<string>, p: string, x: string,
                    from: seq<string>)
    requires name !in linked && ListersOf(config, linked, name, ps, x, from)
    ensures ListersOf(config, linked, name, ps + [p], x, if x == p then from + [name] else from)
  {
  }

  ghost predicate AllLinked(config: seq<Mapping>, graph: NodeMap, linked: set<string>)
    reads set x | x in graph :: graph[x]`outdegree, set x | x in graph :: graph[x]`from
  {
    && (forall x :: x in graph ==> graph[x].outdegree == if x in linked then |Proxies(config, x)| else 0)
    && FromListers(config, graph, linked)
  }

  /** Each `from` lists, with repetitions, the names in `linked` that list the node. */
  ghost predicate FromListers(config: seq<Mapping>, graph: NodeMap, linked: set<string>)
    reads set x | x in graph :: graph[x]`from
  {
    forall x, f :: x in graph ==>
      multiset(graph[x].from)[f] == if f in linked then multiset(Proxies(config, f))[x] else 0
  }

  method LinkOne(graph: NodeMap, name: string, p: string, ghost config: seq<Mapping>, ghost linked: set<string>,
                 ghost ps: seq<string>)
    requires NoSharing(graph) && name in graph && name !in linked && p in graph
    requires Linked(config, graph, linked, name, ps)
    modifies graph.Values`outdegree, graph.Values`from
    ensures Linked(config, graph, linked, name, ps + [p])
  {
    RaiseOut(graph, name, config, linked, |ps|);
    AddFrom(graph, name, p, config, linked, ps);
  }

  method RaiseOut(graph: NodeMap, name: string, ghost config: seq<Mapping>, ghost linked: set<string>, ghost n: nat)
    requires NoSharing(graph) && name in graph && name !in linked
    requires OutLinked(config, graph, linked, name, n)
    modifies graph.Values`outdegree
    ensures OutLinked(config, graph, linked, name, n + 1)
  {
    graph[name].outdegree := graph[name].outdegree + 1;
  }

  method AddFrom(graph: NodeMap, name: string, p: string, ghost config: seq<Mapping>, ghost linked: set<string>,
                 ghost ps: seq<string>)
    requires NoSharing(graph) && name !in linked && p in graph
    requires FromLinked(config, graph, linked, name, ps)
    modifies graph.Values`from
    ensures FromLinked(config, graph, linked, name, ps + [p])
  {
    var child := graph[p];
    child.from := child.from + [name];
    forall x | x in graph ensures ListersOf(config, linked, name, ps + [p], x, graph[x].from) {
      ListersGrow(config, linked, name, ps, p, x, old(graph[x].from));
    }
  }

  lemma LinkedName(config: seq<Mapping>, graph: NodeMap, linked: set<string>, name: string)
    requires name !in linked && Linked(config, graph, linked, name, Proxies(config, name))
    ensures AllLinked(config, graph, linked + {name})
  {
  }

  method LinkName(graph: NodeMap, name: string, ghost config: seq<Mapping>, ghost linked: set<string>)
    requires Wired(graph, config) && name in graph && name !in linked
    requires Elements(Proxies(config, name)) <= graph.Keys
    requires AllLinked(config, graph, linked)
    modifies graph.Values`outdegree, graph.Values`from
    ensures AllLinked(config, graph, linked + {name})
  {
    var node := graph[name];
    if node.option.Some? {
      var proxies := node.option.value.proxies;
      for j := 0 to |proxies|
        invariant Linked(config, graph, linked, name, proxies[..j])
      {
        PrefixGrows(proxies, j);
        assert proxies[j] in Elements(Proxies(config, name));
        LinkOne(graph, name, proxies[j], config, linked, proxies[..j]);
      }
      WholePrefix(proxies);
    }
    LinkedName(config, graph, linked, name);
  }

  lemma NothingLinked(config: seq<Mapping>, graph: NodeMap)
    requires Unlinked(graph)
    ensures AllLinked(config, graph, {})
  {
  }

  method Relink(graph: NodeMap, ghost config: seq<Mapping>)
    requires Wired(graph, config) && Unlinked(graph)
    requires forall x :: x in graph ==> Elements(Proxies(config, x)) <= graph.Keys
    modifies graph.Values`outdegree, graph.Values`from
    ensures AllLinked(config, graph, graph.Keys)
  {
    ghost var linked: set<string> := {};
    NothingLinked(config, graph);
    var todo := graph.Keys;
    while todo != {}
      invariant todo <= graph.Keys && linked == graph.Keys - todo
      invariant AllLinked(config, graph, linked)
      decreases todo
    {
      var name :| name in todo;
      LinkName(graph, name, config, linked);
      OneLessToDo(graph.Keys, todo, name);
      linked := linked + {name};
      todo := todo - {name};
    }
    assert linked == graph.Keys;
  }

  // ----- step 2.2: peel off what lies outside the loops -----

  ghost predicate QueuesSinks(graph: NodeMap, queue: seq<string>)
    reads set x | x in graph :: graph[x]`outdegree
  {
    && Distinct(queue)
    && (forall x :: x in queue ==> x in graph && graph[x].outdegree == 0)
    && (forall x :: x in graph && graph[x].outdegree == 0 ==> x in queue)
  }

  ghost predicate OutCounting(graph: NodeMap, base: map<string, nat>, more: multiset<string>)
    reads set x | x in graph :: graph[x]`outdegree
  {
    && graph.Keys == base.Keys
    && forall x :: x in graph ==> graph[x].outdegree == base[x] + more[x]
  }

  method Sinks(graph: NodeMap) returns (queue: seq<string>)
    ensures QueuesSinks(graph, queue)
  {
    queue := [];
    var todo := graph.Keys;
    while todo != {}
      invariant todo <= graph.Keys && Distinct(queue)
      invariant forall x :: x in queue <==> x in graph && x !in todo && graph[x].outdegree == 0
      decreases todo
    {
      var name :| name in todo;
      if graph[name].outdegree == 0 {
        queue := queue + [name];
      }
      todo := todo - {name};
    }
  }

  method WithdrawOne(graph: NodeMap, f: string, queue: seq<string>, ghost base: map<string, nat>,
                     ghost more: multiset<string>)
    returns (q: seq<string>)
    requires NoSharing(graph) && f in graph
    requires OutCounting(graph, base, multiset{f} + more) && QueuesSinks(graph, queue)
    modifies graph.Values`outdegree
    ensures OutCounting(graph, base, more) && QueuesSinks(graph, q)
    ensures queue <= q
  {
    q := queue;
    graph[f].outdegree := graph[f].outdegree - 1;
    if graph[f].outdegree == 0 {
      q := q + [f];
    }
  }

  method Withdraw(graph: NodeMap, from: seq<string>, queue: seq<string>, ghost base: map<string, nat>)
    returns (q: seq<string>)
    requires NoSharing(graph) && Elements(from) <= graph.Keys
    requires OutCounting(graph, base, multiset(from)) && QueuesSinks(graph, queue)
    modifies graph.Values`outdegree
    ensures OutCounting(graph, base, multiset{}) && QueuesSinks(graph, q)
    ensures queue <= q
  {
    q := queue;
    for j := 0 to |from|
      invariant OutCounting(graph, base, multiset(from[j..])) && QueuesSinks(graph, q)
      invariant queue <= q
    {
      SuffixShrinks(from, j);
      assert from[j] in Elements(from);
      q := WithdrawOne(graph, from[j], q, base, multiset(from[j + 1..]));
    }
  }

  /** Peeled names list no name that is still in the graph. */
  ghost predicate PeeledFree(config: seq<Mapping>, kept: set<string>, live: set<string>) {
    && live <= kept
    && forall x {:trigger OutCount(Proxies(config, x), live)} :: x in kept && x !in live ==>
        OutCount(Proxies(config, x), live) == 0
  }

  ghost predicate HoldsBiClosed(config: seq<Mapping>, live: set<string>) {
    forall s :: BiClosed(RefGraph(config), s) ==> s <= live
  }

  ghost predicate PeelBase(config: seq<Mapping>, kept: set<string>, graph: NodeMap)
    reads graph.Values
  {
    && NoSharing(graph)
    && PeeledFree(config, kept, graph.Keys) && HoldsBiClosed(config, graph.Keys)
    && FromListers(config, graph, kept)
    && forall x :: x in graph ==> graph[x].outdegree == OutCount(Proxies(config, x), graph.Keys)
  }

  ghost predicate Peeling(config: seq<Mapping>, kept: set<string>, graph: NodeMap, queue: seq<string>)
    reads graph.Values
  {
    PeelBase(config, kept, graph) && QueuesSinks(graph, queue)
  }

  lemma PeelKeepsBiClosed(config: seq<Mapping>, live: set<string>, name: string)
    requires HoldsBiClosed(config, live) && name in live && OutCount(Proxies(config, name), live) == 0
    ensures HoldsBiClosed(config, live - {name})
  {
    forall s | BiClosed(RefGraph(config), s) ensures s <= live - {name} {
      assert s <= live;
      if name in s {
        assert HasSucc(RefGraph(config), s, name);
        var b :| b in s && Edge(RefGraph(config), name, b);
        EdgeIsListing(config, name, b);
        OutCountDrop(Proxies(config, name), live, b);
        assert false;
      }
    }
  }

  lemma PeelKeepsFree(config: seq<Mapping>, kept: set<string>, live: set<string>, name: string)
    requires PeeledFree(config, kept, live) && name in live && OutCount(Proxies(config, name), live) == 0
    ensures PeeledFree(config, kept, live - {name})
  {
    forall x | x in kept && x !in live - {name} ensures OutCount(Proxies(config, x), live - {name}) == 0 {
      OutCountDrop(Proxies(config, x), live, name);
      assert x !in live ==> OutCount(Proxies(config, x), live) == 0;
    }
  }

  ghost function OutCounts(config: seq<Mapping>, names: set<string>, live: set<string>): map<string, nat> {
    map x | x in names :: OutCount(Proxies(config, x), live)
  }

  /** The peeling never looks up a deleted node: everybody in `from` is still in the graph. */
  lemma PeelCounts(config: seq<Mapping>, kept: set<string>, graph: NodeMap, queue: seq<string>)
    requires Peeling(config, kept, graph, queue) && queue != []
    ensures var name := queue[0];
      && OutCounting(graph, OutCounts(config, graph.Keys, graph.Keys - {name}), multiset(graph[name].from))
      && Elements(graph[name].from) <= graph.Keys
  {
    var name := queue[0];
    var live := graph.Keys;
    forall x | x in graph ensures graph[x].outdegree ==
      OutCount(Proxies(config, x), live - {name}) + multiset(graph[name].from)[x]
    {
      OutCountDrop(Proxies(config, x), live, name);
    }
    forall f | f in Elements(graph[name].from) ensures f in graph {
      assert multiset(graph[name].from)[f] > 0;
      OutCountDrop(Proxies(config, f), live, name);
      assert f !in live ==> OutCount(Proxies(config, f), live) == 0;
    }
  }

  lemma TailQueuesSinks(graph: NodeMap, q: seq<string>)
    requires QueuesSinks(graph, q) && q != []
    ensures QueuesSinks(graph - {q[0]}, q[1..])
  {
    var rest, tail := graph - {q[0]}, q[1..];
    assert q == [q[0]] + tail;
    forall x | x in tail ensures x in rest && rest[x].outdegree == 0 {
      var i :| 0 <= i < |tail| && tail[i] == x;
      assert q[i + 1] == x && x in q;
    }
  }

  lemma FromListersRest(config: seq<Mapping>, kept: set<string>, graph: NodeMap, name: string)
    requires FromListers(config, graph, kept)
    ensures FromListers(config, graph - {name}, kept)
  {
    var rest := graph - {name};
    forall x, f | x in rest
      ensures multiset(rest[x].from)[f] == if f in kept then multiset(Proxies(config, f))[x] else 0
    {
      assert x in graph && rest[x] == graph[x];
    }
  }

  lemma PeelDone(config: seq<Mapping>, kept: set<string>, graph: NodeMap, name: string, q: seq<string>)
    requires NoSharing(graph) && PeeledFree(config, kept, graph.Keys) && HoldsBiClosed(config, graph.Keys)
    requires FromListers(config, graph, kept)
    requires name in graph && OutCount(Proxies(config, name), graph.Keys) == 0
    requires OutCounting(graph, OutCounts(config, graph.Keys, graph.Keys - {name}), multiset{})
    requires QueuesSinks(graph, q) && q != [] && q[0] == name
    ensures Peeling(config, kept, graph - {name}, q[1..])
  {
    PeelKeepsFree(config, kept, graph.Keys, name);
    PeelKeepsBiClosed(config, graph.Keys, name);
    TailQueuesSinks(graph, q);
    FromListersRest(config, kept, graph, name);
    var rest := graph - {name};
    assert rest.Keys == graph.Keys - {name};
    forall x | x in rest ensures rest[x].outdegree == OutCount(Proxies(config, x), rest.Keys) {
      assert graph[x].outdegree == OutCounts(config, graph.Keys, graph.Keys - {name})[x];
    }
  }

  method PeelOne(graph: NodeMap, queue: seq<string>, ghost config: seq<Mapping>, ghost kept: set<string>)
    returns (g: NodeMap, q: seq<string>)
    requires Peeling(config, kept, graph, queue) && queue != []
    modifies graph.Values`outdegree
    ensures queue[0] in graph && g == graph - {queue[0]} && g.Keys == graph.Keys - {queue[0]}
    ensures Peeling(config, kept, g, q)
  {
    var name := queue[0];
    PeelCounts(config, kept, graph, queue);
    q := Withdraw(graph, graph[name].from, queue, OutCounts(config, graph.Keys, graph.Keys - {name}));
    PeelDone(config, kept, graph, name, q);
    q := q[1..];
    g := graph - {name};
    assert g.Keys == graph.Keys - {name};
  }

  method Peel(graph: NodeMap, ghost config: seq<Mapping>, ghost kept: set<string>) returns (g: NodeMap)
    requires PeelBase(config, kept, graph)
    modifies graph.Values`outdegree
    ensures forall x :: x in g ==> x in graph && g[x] == graph[x]
    ensures Peeling(config, kept, g, [])
  {
    var queue := Sinks(graph);
    g := graph;
    while queue != []
      invariant forall x :: x in g ==> x in graph && g[x] == graph[x]
      invariant Peeling(config, kept, g, queue)
      decreases g.Keys
    {
      g, queue := PeelOne(g, queue, config, kept);
    }
  }

  lemma PeelingInitially(config: seq<Mapping>, graph: NodeMap)
    requires WellFormed(config) && Wired(graph, config)
    requires PoppedFree(config, graph.Keys) && HoldsPredClosed(config, graph.Keys)
    requires AllLinked(config, graph, graph.Keys)
    ensures PeelBase(config, graph.Keys, graph)
  {
    forall x | x in graph ensures graph[x].outdegree == OutCount(Proxies(config, x), graph.Keys) {
      LiveProxiesLive(config, graph.Keys, x);
      OutCountAll(Proxies(config, x), graph.Keys);
    }
  }

  lemma LiveProxiesLive(config: seq<Mapping>, live: set<string>, x: string)
    requires WellFormed(config) && PoppedFree(config, live) && x in live
    ensures Elements(Proxies(config, x)) <= live
  {
    ProxiesAreVertices(config, x);
    forall p | p in Elements(Proxies(config, x)) ensures p in live {
      InEdgesDrop(config, live, x, p);
      assert p !in live ==> InEdges(config, live, p) == 0;
    }
  }

  // ----- the whole check -----

  ghost predicate IsGreatestPredClosed(g: Graph<string>, s: set<string>) {
    PredClosed(g, s) && forall t :: PredClosed(g, t) ==> t <= s
  }

  /** When the topological sort stops, everything left is listed by something left. */
  lemma StuckIsPredClosed(config: seq<Mapping>, live: set<string>)
    requires WellFormed(config) && HoldsPredClosed(config, live)
    requires forall x {:trigger InEdges(config, live, x)} :: x in live ==> InEdges(config, live, x) > 0
    ensures IsGreatestPredClosed(RefGraph(config), live)
  {
    forall x | x in live ensures HasPred(RefGraph(config), live, x) {
      var a := InEdgesPositive(config, live, x);
      EdgeIsListing(config, a, x);
    }
  }

  lemma SortingStops(config: seq<Mapping>, graph: NodeMap)
    requires WellFormed(config) && Sorting(config, graph, [])
    ensures IsGreatestPredClosed(RefGraph(config), graph.Keys)
    ensures forall x :: x in graph ==> Elements(Proxies(config, x)) <= graph.Keys
  {
    forall x | x in graph.Keys ensures InEdges(config, graph.Keys, x) > 0 {
      assert graph[x].indegree != 0;
    }
    StuckIsPredClosed(config, graph.Keys);
    forall x | x in graph ensures Elements(Proxies(config, x)) <= graph.Keys {
      LiveProxiesLive(config, graph.Keys, x);
    }
  }

  /** When the peeling stops, what is left is the greatest bi-closed set. */
  lemma PeeledIsBiClosed(config: seq<Mapping>, kept: set<string>, live: set<string>)
    requires IsGreatestPredClosed(RefGraph(config), kept)
    requires PeeledFree(config, kept, live) && HoldsBiClosed(config, live)
    requires forall x {:trigger OutCount(Proxies(config, x), live)} :: x in live ==>
      OutCount(Proxies(config, x), live) > 0
    ensures IsGreatestBiClosed(RefGraph(config), live)
  {
    var g := RefGraph(config);
    forall x | x in live ensures HasSucc(g, live, x) && HasPred(g, live, x) {
      var b := OutCountPositive(Proxies(config, x), live);
      EdgeIsListing(config, x, b);
      assert HasPred(g, kept, x);
      var a :| a in kept && Edge(g, a, x);
      EdgeIsListing(config, a, x);
      OutCountDrop(Proxies(config, a), live, x);
      assert a !in live ==> OutCount(Proxies(config, a), live) == 0;
    }
  }

  lemma GreatestPredClosedEmptyIffAcyclic(g: Graph<string>, s: set<string>)
    requires IsGreatestPredClosed(g, s)
    ensures s == {} <==> Acyclic(g)
  {
    AcyclicIffNoPredClosed(g);
  }

  /** A loop leaves something to report. */
  lemma LoopIsReported(g: Graph<string>, kept: set<string>, live: set<string>)
    requires IsGreatestPredClosed(g, kept) && kept != {} && IsGreatestBiClosed(g, live)
    ensures live != {}
  {
    GreatestPredClosedEmptyIffAcyclic(g, kept);
    var p :| IsCycle(g, p);
    CycleIsBiClosed(g, p);
    assert p[0] in Elements(p);
  }

  lemma ConfigErrorIsIllFormed(config: seq<Mapping>, r: SortResult)
    requires IsConfigError(config, r)
    ensures !WellFormed(config)
  {
    var i :| 0 <= i < |config| && WellFormed(config[..i]) &&
      match config[i].decoded
      case None => r == DecodeError(i)
      case Some(o) => r == DuplicateName(o.name) && Find(config[..i], o.name).Some?;
    if config[i].decoded.Some? {
      FindIsEntry(config[..i], config[i].decoded.value.name);
      var m :| m in config[..i] && m.decoded.Some? && m.decoded.value.name == config[i].decoded.value.name;
    }
  }

  lemma NothingRemains(config: seq<Mapping>, arr: seq<Mapping>, k: nat)
    requires Placed(config, {}, arr, k)
    ensures multiset(arr) == multiset(config) && MembersFirst(arr)
  {
    RemainingNone(config);
    assert arr[|arr| - k..] == arr;
  }

  /** The names of the nodes that are left, in whatever order the map is walked. */
  method Names(graph: NodeMap) returns (names: seq<string>)
    ensures Distinct(names) && Elements(names) == graph.Keys
  {
    names := [];
    var todo := graph.Keys;
    while todo != {}
      invariant todo <= graph.Keys && Distinct(names)
      invariant forall x :: x in names <==> x in graph && x !in todo
      decreases todo
    {
      var name :| name in todo;
      names := names + [name];
      todo := todo - {name};
    }
  }

  /** After a loop is found the array keeps what the sort had placed when it got stuck. */
  ghost predicate LeftPartlySorted(config: seq<Mapping>, arr: seq<Mapping>) {
    exists stuck, k: nat :: IsGreatestPredClosed(RefGraph(config), stuck) && Placed(config, stuck, arr, k)
  }

  method LocateLoop(graph: NodeMap, ghost config: seq<Mapping>) returns (names: seq<string>)
    requires WellFormed(config) && Sorting(config, graph, [])
    modifies graph.Values
    ensures Distinct(names) && IsGreatestBiClosed(RefGraph(config), Elements(names))
  {
    ghost var kept := graph.Keys;
    SortingStops(config, graph);
    Relink(graph, config);
    PeelingInitially(config, graph);
    var g := Peel(graph, config, kept);
    forall x | x in g.Keys ensures OutCount(Proxies(config, x), g.Keys) > 0 {
      assert g[x].outdegree != 0;
    }
    PeeledIsBiClosed(config, kept, g.Keys);
    names := Names(g);
  }

  method ProxyGroupsDagSort(groupsConfig: array<Mapping>) returns (r: SortResult)
    modifies groupsConfig
    ensures r.DecodeError? || r.DuplicateName? <==> !WellFormed(old(groupsConfig[..]))
    ensures r.DecodeError? || r.DuplicateName? ==>
      IsConfigError(old(groupsConfig[..]), r) && groupsConfig[..] == old(groupsConfig[..])
    ensures WellFormed(old(groupsConfig[..])) ==> (r.Sorted? <==> Acyclic(RefGraph(old(groupsConfig[..]))))
    ensures r.Sorted? ==>
      multiset(groupsConfig[..]) == multiset(old(groupsConfig[..])) && MembersFirst(groupsConfig[..])
    ensures r.LoopFound? ==>
      && Distinct(r.names) && r.names != []
      && IsGreatestBiClosed(RefGraph(old(groupsConfig[..])), Elements(r.names))
    ensures r.LoopFound? ==> LeftPartlySorted(old(groupsConfig[..]), groupsConfig[..])
  {
    ghost var config := groupsConfig[..];
    var err, graph := Build(groupsConfig);
    if err.Some? {
      ConfigErrorIsIllFormed(config, err.value);
      return err.value;
    }
    var rest := TopoSort(groupsConfig, graph);
    SortingStops(config, rest);
    GreatestPredClosedEmptyIffAcyclic(RefGraph(config), rest.Keys);
    ghost var arr := groupsConfig[..];
    ghost var k: nat :| Placed(config, rest.Keys, arr, k);
    if |rest| == 0 {
      assert rest.Keys == {};
      NothingRemains(config, arr, k);
      return Sorted;
    }
    var names := LocateLoop(rest, config);
    LoopIsReported(RefGraph(config), rest.Keys, Elements(names));
    assert groupsConfig[..] == arr;
    assert LeftPartlySorted(config, arr);
    return LoopFound(names);
  }

  /** What the reported names are: those on a walk from a loop to a loop. */
  lemma LoopReport(config: seq<Mapping>, names: seq<string>)
    requires IsGreatestBiClosed(RefGraph(config), Elements(names))
    ensures forall x :: x in names <==> BetweenCycles(RefGraph(config), x)
  {
    forall x ensures x in names <==> BetweenCycles(RefGraph(config), x) {
      GreatestBiClosedIsBetweenCycles(RefGraph(config), Elements(names), x);
    }
  }

  /** No loop is missed. */
  lemma LoopsAreReported(config: seq<Mapping>, names: seq<string>, p: seq<string>, x: string)
    requires IsGreatestBiClosed(RefGraph(config), Elements(names))
    requires IsCycle(RefGraph(config), p) && x in p
    ensures x in names
  {
    CycleIsBiClosed(RefGraph(config), p);
    assert x in Elements(p);
  }

  /** Every reported name is a group that lists a reported one and is listed by one. */
  lemma ReportedAreLinked(config: seq<Mapping>, names: seq<string>, x: string)
    requires IsGreatestBiClosed(RefGraph(config), Elements(names)) && x in names
    ensures x in GroupNames(config)
    ensures HasSucc(RefGraph(config), Elements(names), x) && HasPred(RefGraph(config), Elements(names), x)
  {
    assert x in Elements(names);
    assert HasSucc(RefGraph(config), Elements(names), x) && HasPred(RefGraph(config), Elements(names), x);
  }

  /**
   * The report names exactly the groups on loops if and only if no group on a loop lists a
   * group that is on none and leads to a loop again.
   */
  lemma ReportNamesLoops(config: seq<Mapping>, names: seq<string>)
    requires IsGreatestBiClosed(RefGraph(config), Elements(names))
    ensures (forall x :: x in names <==> OnCycle(RefGraph(config), x)) <==> NoDetour(RefGraph(config))
  {
    var g := RefGraph(config);
    forall x ensures (x in names <==> BetweenCycles(g, x)) && (OnCycle(g, x) ==> BetweenCycles(g, x)) {
      GreatestBiClosedIsBetweenCycles(g, Elements(names), x);
      if OnCycle(g, x) {
        OnCycleIsBetween(g, x);
      }
    }
    BetweenIsOnCycleIff(g);
  }

  /** In particular if no loop leads to another one. */
  lemma LoopsApartAreNamed(config: seq<Mapping>, names: seq<string>, x: string)
    requires IsGreatestBiClosed(RefGraph(config), Elements(names)) && LoopsApart(RefGraph(config))
    ensures x in names <==> OnCycle(RefGraph(config), x)
  {
    GreatestBiClosedIsBetweenCycles(RefGraph(config), Elements(names), x);
    BetweenLoopsApart(RefGraph(config), x);
  }

  /** Otherwise it may not: with loops on a and on c, a group b between them is reported though it is on none. */
  lemma GroupBetweenLoopsIsReported(names: seq<string>)
    requires IsGreatestBiClosed(RefGraph(TwoLoops()), Elements(names))
    ensures "b" in names && !OnCycle(RefGraph(TwoLoops()), "b")
  {
    BIsBetween();
    BIsOnNoLoop();
    GreatestBiClosedIsBetweenCycles(RefGraph(TwoLoops()), Elements(names), "b");
  }

  lemma BIsBetween()
    ensures BetweenCycles(RefGraph(TwoLoops()), "b")
  {
    var g := RefGraph(TwoLoops());
    TwoLoopsEdges();
    var p, q := ["a", "a"], ["c", "c"];
    assert IsCycle(g, p) && p[0] == "a";
    assert IsCycle(g, q) && q[0] == "c";
    ReachesEdge(g, "a", "b");
    ReachesEdge(g, "b", "c");
  }

  lemma BIsOnNoLoop()
    ensures !OnCycle(RefGraph(TwoLoops()), "b")
  {
    var g := RefGraph(TwoLoops());
    forall p | IsWalk(g, p) && |p| >= 2 && p[0] == "b" ensures p[|p| - 1] == "c" {
      assert Edge(g, p[0], p[1]);
      TwoLoopsEdges();
      OnlyC(p, |p| - 1);
    }
  }

  lemma {:induction false} OnlyC(p: seq<string>, i: nat)
    requires IsWalk(RefGraph(TwoLoops()), p) && 1 <= i < |p| && p[1] == "c"
    ensures p[i] == "c"
  {
    if i == 1 {
    } else {
      OnlyC(p, i - 1);
      assert Edge(RefGraph(TwoLoops()), p[i - 1], p[i]);
      TwoLoopsEdges();
    }
  }

  ghost function TwoLoops(): seq<Mapping> {
    [Mapping("", Some(GroupOption("a", ["a", "b"]))), Mapping("", Some(GroupOption("b", ["c"]))),
     Mapping("", Some(GroupOption("c", ["c"])))]
  }

  lemma TwoLoopsEdges()
    ensures forall x, y :: Edge(RefGraph(TwoLoops()), x, y) <==>
      (x == "a" && (y == "a" || y == "b")) || (x == "b" && y == "c") || (x == "c" && y == "c")
  {
    var config := TwoLoops();
    FindAt(config, 0);
    FindAt(config, 1);
    FindAt(config, 2);
    forall x, y ensures Edge(RefGraph(config), x, y) <==>
      (x == "a" && (y == "a" || y == "b")) || (x == "b" && y == "c") || (x == "c" && y == "c")
    {
      assert config[0].decoded.value.name == "a" && config[1].decoded.value.name == "b"
        && config[2].decoded.value.name == "c";
    }
  }
}
