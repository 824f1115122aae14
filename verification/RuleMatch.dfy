/**
 * From sorted groups to a routing decision: parseProxies builds the groups in the order the
 * group sort leaves them (core/Clash.Meta/config/config.go), and match
 * (core/Clash.Meta/tunnel/tunnel.go) scans the rules, following each adapter through its
 * nested groups.
 *
 * What a group's Unwrap picks may differ from call to call; `picks` gives the choice for
 * each rule of the scan. Rule matching, DNS and UDP support are parameters.
 */
module RuleMatch {
  import opened Prelude
  import opened Graphs
  import opened GroupSort

  // ----- building the registry -----

  /** An adapter by name: a plain proxy, possibly the PASS one, or a group of listed names. */
  datatype Adapter = Leaf(pass: bool) | Group(members: seq<string>)

  type Registry = map<string, Adapter>

  datatype BuildResult =
    | Built(registry: Registry)
    | MemberNotFound(group: string, member: string)
    | NameTaken(group: string)

  /** Every group's members are registered with a smaller rank. */
  ghost predicate Ranked(registry: Registry, rank: map<string, nat>) {
    && rank.Keys == registry.Keys
    && forall g, i :: g in registry && registry[g].Group? && 0 <= i < |registry[g].members| ==>
      registry[g].members[i] in registry && rank[registry[g].members[i]] < rank[g]
  }

  ghost predicate IsRanked(registry: Registry) {
    exists rank: map<string, nat> :: Ranked(registry, rank)
  }

  ghost predicate OnlyLeaves(registry: Registry) {
    forall n :: n in registry ==> registry[n].Leaf?
  }

  /** The names that are registered before the group at position i is built. */
  ghost function NamesBefore(leaves: Registry, sorted: seq<Mapping>, i: nat): set<string>
    requires Decoded(sorted) && i <= |sorted|
  {
    leaves.Keys + GroupNames(sorted[..i])
  }

  method MissingMember(registry: Registry, proxies: seq<string>) returns (missing: Option<string>)
    ensures missing.None? ==> forall j :: 0 <= j < |proxies| ==> proxies[j] in registry
    ensures missing.Some? ==> missing.value in proxies && missing.value !in registry
  {
    for j := 0 to |proxies|
      invariant forall k :: 0 <= k < j ==> proxies[k] in registry
    {
      if proxies[j] !in registry {
        return Some(proxies[j]);
      }
    }
    return None;
  }

  lemma GroupNamesSnoc(sorted: seq<Mapping>, i: nat)
    requires Decoded(sorted) && i < |sorted|
    ensures GroupNames(sorted[..i + 1]) == GroupNames(sorted[..i]) + {sorted[i].decoded.value.name}
  {
    var a, b := sorted[..i + 1], sorted[..i];
    forall n | n in GroupNames(a) ensures n in GroupNames(b) + {sorted[i].decoded.value.name} {
      var k :| 0 <= k < |a| && a[k].decoded.Some? && a[k].decoded.value.name == n;
      if k < i {
        assert b[k] == a[k];
      }
    }
    forall n | n in GroupNames(b) ensures n in GroupNames(a) {
      var k :| 0 <= k < |b| && b[k].decoded.Some? && b[k].decoded.value.name == n;
      assert a[k] == b[k];
    }
    assert a[i] == sorted[i];
  }

  /** The group at each position can be built when its members are registered and its name is free. */
  ghost predicate Buildable(leaves: Registry, sorted: seq<Mapping>, i: nat)
    requires Decoded(sorted) && i < |sorted|
  {
    var o := sorted[i].decoded.value;
    Elements(o.proxies) <= NamesBefore(leaves, sorted, i) && o.name !in NamesBefore(leaves, sorted, i)
  }

  /** The reason for which the groups before are built and the one at position i is not. */
  ghost predicate FailsAt(leaves: Registry, sorted: seq<Mapping>, i: nat, r: BuildResult)
    requires Decoded(sorted) && i < |sorted|
  {
    var o := sorted[i].decoded.value;
    && (forall k :: 0 <= k < i ==> Buildable(leaves, sorted, k))
    && match r
       case Built(_) => false
       case MemberNotFound(g, m) => g == o.name && m in o.proxies && m !in leaves && m !in GroupNames(sorted[..i])
       case NameTaken(g) => g == o.name && (g in leaves || g in GroupNames(sorted[..i]))
  }

  /** A new group on top of ranked adapters gets the next rank. */
  lemma RankedGrows(registry: Registry, rank: map<string, nat>, top: nat, name: string, members: seq<string>)
    requires Ranked(registry, rank) && name !in registry
    requires forall n :: n in rank ==> rank[n] < top
    requires forall j :: 0 <= j < |members| ==> members[j] in registry
    ensures Ranked(registry[name := Group(members)], rank[name := top])
  {
  }

  /** The registry when the groups before position i have been built. */
  ghost predicate BuiltUpTo(leaves: Registry, sorted: seq<Mapping>, i: nat, registry: Registry)
    requires Decoded(sorted) && i <= |sorted|
  {
    && registry.Keys == NamesBefore(leaves, sorted, i)
    && (forall n :: n in leaves ==> registry[n] == leaves[n])
    && (forall k :: 0 <= k < i ==> Buildable(leaves, sorted, k))
    && (forall k :: 0 <= k < i ==>
      && sorted[k].decoded.value.name in registry
      && registry[sorted[k].decoded.value.name] == Group(sorted[k].decoded.value.proxies))
  }

  lemma BuiltNext(leaves: Registry, sorted: seq<Mapping>, i: nat, registry: Registry)
    requires Decoded(sorted) && i < |sorted| && BuiltUpTo(leaves, sorted, i, registry)
    requires forall j :: 0 <= j < |sorted[i].decoded.value.proxies| ==> sorted[i].decoded.value.proxies[j] in registry
    requires sorted[i].decoded.value.name !in registry
    ensures var o := sorted[i].decoded.value; BuiltUpTo(leaves, sorted, i + 1, registry[o.name := Group(o.proxies)])
  {
    GroupNamesSnoc(sorted, i);
    assert Buildable(leaves, sorted, i);
  }

  method BuildGroups(leaves: Registry, sorted: seq<Mapping>) returns (r: BuildResult)
    requires OnlyLeaves(leaves) && Decoded(sorted)
    ensures r.Built? <==> forall i :: 0 <= i < |sorted| ==> Buildable(leaves, sorted, i)
    ensures r.Built? ==> IsRanked(r.registry) && r.registry.Keys == leaves.Keys + GroupNames(sorted)
    ensures r.Built? ==> forall n :: n in leaves ==> r.registry[n] == leaves[n]
    ensures r.Built? ==> forall i :: 0 <= i < |sorted| ==>
      r.registry[sorted[i].decoded.value.name] == Group(sorted[i].decoded.value.proxies)
    ensures !r.Built? ==> exists i :: 0 <= i < |sorted| && FailsAt(leaves, sorted, i, r)
  {
    var registry := leaves;
    ghost var rank: map<string, nat> := map n | n in leaves :: 0;
    for i := 0 to |sorted|
      invariant Ranked(registry, rank) && forall n :: n in rank ==> rank[n] < i + 1
      invariant BuiltUpTo(leaves, sorted, i, registry)
    {
      var option := sorted[i].decoded.value;
      var missing := MissingMember(registry, option.proxies);
      if missing.Some? {
        assert missing.value in Elements(option.proxies);
        assert !Buildable(leaves, sorted, i) && FailsAt(leaves, sorted, i, MemberNotFound(option.name, missing.value));
        return MemberNotFound(option.name, missing.value);
      }
      if option.name in registry {
        assert !Buildable(leaves, sorted, i) && FailsAt(leaves, sorted, i, NameTaken(option.name));
        return NameTaken(option.name);
      }
      BuiltNext(leaves, sorted, i, registry);
      RankedGrows(registry, rank, i + 1, option.name, option.proxies);
      registry := registry[option.name := Group(option.proxies)];
      rank := rank[option.name := i + 1];
    }
    WholePrefix(sorted);
    r := Built(registry);
  }

  /**
   * After a successful sort the build fails only for a reason that has nothing to do with
   * order: a name that is taken, or a member that exists nowhere.
   */
  lemma SortedBuilds(leaves: Registry, sorted: seq<Mapping>)
    requires WellFormed(sorted) && MembersFirst(sorted)
    ensures (forall i :: 0 <= i < |sorted| ==> Buildable(leaves, sorted, i)) <==>
      && leaves.Keys !! GroupNames(sorted)
      && forall i :: 0 <= i < |sorted| ==> Elements(sorted[i].decoded.value.proxies) <= leaves.Keys + GroupNames(sorted)
  {
    if leaves.Keys !! GroupNames(sorted) &&
       forall i :: 0 <= i < |sorted| ==> Elements(sorted[i].decoded.value.proxies) <= leaves.Keys + GroupNames(sorted)
    {
      forall i | 0 <= i < |sorted| ensures Buildable(leaves, sorted, i) {
        SortedGroupBuildable(leaves, sorted, i);
      }
    }
    if forall i :: 0 <= i < |sorted| ==> Buildable(leaves, sorted, i) {
      forall n | n in GroupNames(sorted) ensures n !in leaves {
        var i :| 0 <= i < |sorted| && sorted[i].decoded.value.name == n;
        assert Buildable(leaves, sorted, i);
      }
      forall i | 0 <= i < |sorted|
        ensures Elements(sorted[i].decoded.value.proxies) <= leaves.Keys + GroupNames(sorted)
      {
        assert Buildable(leaves, sorted, i);
        PrefixNames(sorted, i);
      }
    }
  }

  lemma PrefixNames(sorted: seq<Mapping>, i: nat)
    requires i <= |sorted|
    ensures GroupNames(sorted[..i]) <= GroupNames(sorted)
  {
    forall n | n in GroupNames(sorted[..i]) ensures n in GroupNames(sorted) {
      var k :| 0 <= k < i && sorted[..i][k].decoded.Some? && sorted[..i][k].decoded.value.name == n;
      assert sorted[k] == sorted[..i][k];
    }
  }

  lemma SortedGroupBuildable(leaves: Registry, sorted: seq<Mapping>, i: nat)
    requires WellFormed(sorted) && MembersFirst(sorted) && i < |sorted|
    requires leaves.Keys !! GroupNames(sorted)
    requires Elements(sorted[i].decoded.value.proxies) <= leaves.Keys + GroupNames(sorted)
    ensures Buildable(leaves, sorted, i)
  {
    var o := sorted[i].decoded.value;
    assert o.name in GroupNames(sorted);
    forall p | p in Elements(o.proxies) ensures p in NamesBefore(leaves, sorted, i) {
      if p !in leaves {
        var k :| 0 <= k < |sorted| && sorted[k].decoded.value.name == p;
        assert Lists(sorted[i], sorted[k]);
        assert sorted[..i][k] == sorted[k];
      }
    }
  }

  // ----- sorting, then building -----

  /** Every listed name exists, and no group takes the name of a plain proxy. */
  ghost predicate NamesFit(leaves: Registry, config: seq<Mapping>)
    requires Decoded(config)
  {
    && leaves.Keys !! GroupNames(config)
    && forall m :: m in config ==> Elements(m.decoded.value.proxies) <= leaves.Keys + GroupNames(config)
  }

  lemma CountOfOccurrence(s: seq<Mapping>, i: nat, j: nat)
    requires i < j < |s| && s[i] == s[j]
    ensures multiset(s)[s[i]] >= 2
  {
    assert s == s[..j] + s[j..];
    assert s[..j][i] == s[i] && s[j..][0] == s[i];
    assert s[i] in multiset(s[..j]) && s[i] in multiset(s[j..]);
  }

  lemma {:induction false} OccursOnce(config: seq<Mapping>, m: Mapping)
    requires WellFormed(config)
    ensures multiset(config)[m] <= 1
  {
    if config == [] {
    } else {
      var front, last := config[..|config| - 1], config[|config| - 1];
      assert config == front + [last];
      OccursOnce(front, m);
      if last == m {
        assert m !in front;
      }
    }
  }

  /** Reordering keeps what the configuration says. */
  lemma ReorderedSaysTheSame(config: seq<Mapping>, sorted: seq<Mapping>)
    requires WellFormed(config) && multiset(sorted) == multiset(config)
    ensures WellFormed(sorted) && GroupNames(sorted) == GroupNames(config)
    ensures forall m :: m in sorted <==> m in config
  {
    forall m ensures m in sorted <==> m in config {
      assert m in sorted <==> m in multiset(sorted);
      assert m in config <==> m in multiset(config);
    }
    forall i | 0 <= i < |sorted| ensures sorted[i].decoded.Some? {
      assert sorted[i] in config;
    }
    forall i, j | 0 <= i < j < |sorted| ensures sorted[i].decoded.value.name != sorted[j].decoded.value.name {
      ReorderedStaysDistinct(config, sorted, i, j);
    }
    forall n | n in GroupNames(sorted) ensures n in GroupNames(config) {
      var i :| 0 <= i < |sorted| && sorted[i].decoded.Some? && sorted[i].decoded.value.name == n;
      assert sorted[i] in config;
    }
    forall n | n in GroupNames(config) ensures n in GroupNames(sorted) {
      var i :| 0 <= i < |config| && config[i].decoded.Some? && config[i].decoded.value.name == n;
      assert config[i] in sorted;
    }
  }

  lemma ReorderedStaysDistinct(config: seq<Mapping>, sorted: seq<Mapping>, i: nat, j: nat)
    requires WellFormed(config) && multiset(sorted) == multiset(config) && i < j < |sorted|
    requires sorted[i] in config && sorted[j] in config
    ensures sorted[i].decoded.value.name != sorted[j].decoded.value.name
  {
    var a :| 0 <= a < |config| && config[a] == sorted[i];
    var b :| 0 <= b < |config| && config[b] == sorted[j];
    if a == b {
      CountOfOccurrence(sorted, i, j);
      OccursOnce(config, sorted[i]);
    } else {
      assert a < b || b < a;
    }
  }

  datatype ParseResult = Parsed(registry: Registry) | SortFailed(error: SortResult) | BuildFailed(reason: BuildResult)

  /** Plain proxies as they were, and every group with the members that it lists. */
  ghost predicate Registers(registry: Registry, leaves: Registry, config: seq<Mapping>)
    requires Decoded(config)
  {
    && (forall n :: n in leaves ==> n in registry && registry[n] == leaves[n])
    && forall m :: m in config ==>
      m.decoded.value.name in registry && registry[m.decoded.value.name] == Group(m.decoded.value.proxies)
  }

  /** A failure names a group whose name a plain proxy has, or one that lists what is neither proxy nor group. */
  ghost predicate TellsMisfit(leaves: Registry, config: seq<Mapping>, r: BuildResult)
    requires Decoded(config)
  {
    match r
    case Built(_) => false
    case MemberNotFound(g, x) =>
      && x !in leaves && x !in GroupNames(config)
      && exists m :: m in config && m.decoded.value.name == g && x in m.decoded.value.proxies
    case NameTaken(g) => g in leaves && g in GroupNames(config)
  }

  lemma RegistersReordered(registry: Registry, leaves: Registry, config: seq<Mapping>, sorted: seq<Mapping>)
    requires Decoded(config) && Decoded(sorted) && forall m :: m in sorted <==> m in config
    requires registry.Keys == leaves.Keys + GroupNames(sorted) && forall n :: n in leaves ==> registry[n] == leaves[n]
    requires forall i :: 0 <= i < |sorted| ==>
      sorted[i].decoded.value.name in registry
      && registry[sorted[i].decoded.value.name] == Group(sorted[i].decoded.value.proxies)
    ensures Registers(registry, leaves, config)
  {
    forall m | m in config
      ensures m.decoded.value.name in registry && registry[m.decoded.value.name] == Group(m.decoded.value.proxies)
    {
      var i :| 0 <= i < |sorted| && sorted[i] == m;
    }
  }

  lemma OrderIsNoReason(leaves: Registry, config: seq<Mapping>, sorted: seq<Mapping>, i: nat, r: BuildResult)
    requires WellFormed(config) && WellFormed(sorted) && MembersFirst(sorted) && i < |sorted|
    requires (forall m :: m in sorted <==> m in config) && GroupNames(sorted) == GroupNames(config)
    requires FailsAt(leaves, sorted, i, r)
    ensures TellsMisfit(leaves, config, r)
  {
    var o := sorted[i].decoded.value;
    assert sorted[i] in config;
    assert forall k :: 0 <= k < i ==> sorted[..i][k] == sorted[k];
    if r.MemberNotFound? {
      forall k | 0 <= k < |sorted| && sorted[k].decoded.value.name == r.member ensures Lists(sorted[i], sorted[k]) {
      }
    }
  }

  /** The group part of parseProxies: sort, then build in that order. */
  method ParseGroups(leaves: Registry, groupsConfig: array<Mapping>) returns (r: ParseResult)
    requires OnlyLeaves(leaves)
    modifies groupsConfig
    ensures r.Parsed? <==>
      && WellFormed(old(groupsConfig[..])) && Acyclic(RefGraph(old(groupsConfig[..])))
      && NamesFit(leaves, old(groupsConfig[..]))
    ensures r.SortFailed? <==> !WellFormed(old(groupsConfig[..])) || !Acyclic(RefGraph(old(groupsConfig[..])))
    ensures r.Parsed? ==> IsRanked(r.registry) && r.registry.Keys == leaves.Keys + GroupNames(old(groupsConfig[..]))
    ensures r.Parsed? ==> Registers(r.registry, leaves, old(groupsConfig[..]))
    ensures r.SortFailed? ==>
      if r.error.LoopFound? then IsGreatestBiClosed(RefGraph(old(groupsConfig[..])), Elements(r.error.names))
      else IsConfigError(old(groupsConfig[..]), r.error)
    ensures r.BuildFailed? ==> TellsMisfit(leaves, old(groupsConfig[..]), r.reason)
  {
    ghost var config := groupsConfig[..];
    var sortResult := ProxyGroupsDagSort(groupsConfig);
    if !sortResult.Sorted? {
      return SortFailed(sortResult);
    }
    ReorderedSaysTheSame(config, groupsConfig[..]);
    SortedBuilds(leaves, groupsConfig[..]);
    var built := BuildGroups(leaves, groupsConfig[..]);
    if built.Built? {
      RegistersReordered(built.registry, leaves, config, groupsConfig[..]);
      return Parsed(built.registry);
    }
    ghost var i :| 0 <= i < groupsConfig.Length && FailsAt(leaves, groupsConfig[..], i, built);
    OrderIsNoReason(leaves, config, groupsConfig[..], i, built);
    return BuildFailed(built);
  }

  // ----- following nested groups -----

  /** What Unwrap gives: a listed member, or a proxy from a provider (or the built-in COMPATIBLE one). */
  datatype Pick = Member(name: string) | Outside(pass: bool)

  /** picks(i, g): what the group g gives while the rule at position i is looked at. */
  type Picks = (nat, string) -> Pick

  ghost predicate PicksMembers(registry: Registry, picks: Picks) {
    forall i, g :: g in registry && registry[g].Group? && picks(i, g).Member? ==>
      picks(i, g).name in registry[g].members
  }

  /** The n-th adapter the walk of rule i looks at, starting from `name`. */
  ghost function NthLink(registry: Registry, picks: Picks, i: nat, name: string, n: nat): Option<Pick> {
    if n == 0 then Some(Member(name))
    else
      match NthLink(registry, picks, i, name, n - 1)
      case None => None
      case Some(Outside(_)) => None
      case Some(Member(g)) => if g in registry && registry[g].Group? then Some(picks(i, g)) else None
  }

  predicate IsPass(registry: Registry, p: Pick) {
    match p
    case Outside(pass) => pass
    case Member(g) => g in registry && registry[g].Leaf? && registry[g].pass
  }

  /** The group p gives q. */
  ghost predicate Gives(registry: Registry, picks: Picks, i: nat, p: Pick, q: Pick) {
    p.Member? && p.name in registry && registry[p.name].Group? && q == picks(i, p.name)
  }

  /** From a name, through what each group gives. */
  ghost predicate IsUnwrapping(registry: Registry, picks: Picks, i: nat, name: string, w: seq<Pick>) {
    w != [] && w[0] == Member(name) && forall j :: 0 <= j < |w| - 1 ==> Gives(registry, picks, i, w[j], w[j + 1])
  }

  /** There is a PASS at the end of some way through the groups. */
  ghost predicate MeetsPass(registry: Registry, picks: Picks, i: nat, name: string) {
    exists w :: IsUnwrapping(registry, picks, i, name, w) && IsPass(registry, w[|w| - 1])
  }

  lemma {:induction false} UnwrappingIsLinks(registry: Registry, picks: Picks, i: nat, name: string, w: seq<Pick>,
                                             j: nat)
    requires IsUnwrapping(registry, picks, i, name, w) && j < |w|
    ensures NthLink(registry, picks, i, name, j) == Some(w[j])
  {
    if j == 0 {
    } else {
      UnwrappingIsLinks(registry, picks, i, name, w, j - 1);
      assert Gives(registry, picks, i, w[j - 1], w[j - 1 + 1]);
    }
  }

  lemma {:induction false} LinksAreUnwrapping(registry: Registry, picks: Picks, i: nat, name: string, n: nat)
    returns (w: seq<Pick>)
    requires NthLink(registry, picks, i, name, n).Some?
    ensures IsUnwrapping(registry, picks, i, name, w) && |w| == n + 1
    ensures w[n] == NthLink(registry, picks, i, name, n).value
  {
    if n == 0 {
      w := [Member(name)];
    } else {
      var front := LinksAreUnwrapping(registry, picks, i, name, n - 1);
      w := front + [NthLink(registry, picks, i, name, n).value];
      forall j | 0 <= j < |w| - 1 ensures Gives(registry, picks, i, w[j], w[j + 1]) {
        if j < n - 1 {
          assert Gives(registry, picks, i, front[j], front[j + 1]);
        }
      }
    }
  }

  lemma MeetsPassAtLink(registry: Registry, picks: Picks, i: nat, name: string)
    ensures MeetsPass(registry, picks, i, name) <==>
      exists n: nat :: var l := NthLink(registry, picks, i, name, n); l.Some? && IsPass(registry, l.value)
  {
    if w :| IsUnwrapping(registry, picks, i, name, w) && IsPass(registry, w[|w| - 1]) {
      UnwrappingIsLinks(registry, picks, i, name, w, |w| - 1);
    }
    if n: nat :| NthLink(registry, picks, i, name, n).Some?
                 && IsPass(registry, NthLink(registry, picks, i, name, n).value) {
      var w := LinksAreUnwrapping(registry, picks, i, name, n);
    }
  }

  /**
   * A plain proxy meets a PASS exactly if it is one, and a group exactly if it gives a PASS from
   * outside or a member that meets one.
   */
  lemma MeetsPassIff(registry: Registry, picks: Picks, i: nat, name: string)
    requires name in registry
    ensures registry[name].Leaf? ==> (MeetsPass(registry, picks, i, name) <==> registry[name].pass)
    ensures registry[name].Group? ==>
      (MeetsPass(registry, picks, i, name) <==>
        match picks(i, name)
        case Outside(pass) => pass
        case Member(g) => MeetsPass(registry, picks, i, g))
  {
    if w :| IsUnwrapping(registry, picks, i, name, w) && IsPass(registry, w[|w| - 1]) {
      if |w| > 1 {
        UnwrappingTail(registry, picks, i, name, w);
      }
    }
    if registry[name].Leaf? {
      assert IsUnwrapping(registry, picks, i, name, [Member(name)]);
    } else if match picks(i, name) case Outside(pass) => pass case Member(g) => MeetsPass(registry, picks, i, g) {
      UnwrappingHead(registry, picks, i, name);
    }
  }

  lemma UnwrappingTail(registry: Registry, picks: Picks, i: nat, name: string, w: seq<Pick>)
    requires IsUnwrapping(registry, picks, i, name, w) && |w| > 1 && IsPass(registry, w[|w| - 1])
    ensures name in registry && registry[name].Group? && w[1] == picks(i, name)
    ensures match w[1]
      case Outside(pass) => pass
      case Member(g) => MeetsPass(registry, picks, i, g)
  {
    assert Gives(registry, picks, i, w[0], w[0 + 1]);
    assert |w| > 2 ==> Gives(registry, picks, i, w[1], w[1 + 1]);
    match w[1] {
      case Outside(pass) =>
      case Member(g) =>
        var v := w[1..];
        forall j | 0 <= j < |v| - 1 ensures Gives(registry, picks, i, v[j], v[j + 1]) {
          assert Gives(registry, picks, i, w[j + 1], w[j + 1 + 1]);
        }
        assert IsUnwrapping(registry, picks, i, g, v);
    }
  }

  lemma UnwrappingHead(registry: Registry, picks: Picks, i: nat, name: string)
    requires name in registry && registry[name].Group?
    requires match picks(i, name)
      case Outside(pass) => pass
      case Member(g) => MeetsPass(registry, picks, i, g)
    ensures MeetsPass(registry, picks, i, name)
  {
    var first := Member(name);
    match picks(i, name) {
      case Outside(pass) =>
        assert IsUnwrapping(registry, picks, i, name, [first, picks(i, name)]);
      case Member(g) =>
        var v :| IsUnwrapping(registry, picks, i, g, v) && IsPass(registry, v[|v| - 1]);
        var w := [first] + v;
        forall j | 0 <= j < |w| - 1 ensures Gives(registry, picks, i, w[j], w[j + 1]) {
          if j > 0 {
            assert Gives(registry, picks, i, v[j - 1], v[j - 1 + 1]);
          }
        }
        assert IsUnwrapping(registry, picks, i, name, w);
    }
  }

  /** Each step into a group lowers the rank, so a walk from `name` has at most rank + 2 links. */
  lemma {:induction false} WalkRankFalls(registry: Registry, rank: map<string, nat>, picks: Picks, i: nat,
                                         name: string, n: nat)
    requires Ranked(registry, rank) && PicksMembers(registry, picks) && name in registry
    ensures match NthLink(registry, picks, i, name, n)
      case None => true
      case Some(Member(g)) => g in registry && rank[g] + n <= rank[name]
      case Some(Outside(_)) => 1 <= n <= rank[name] + 1
  {
    if n == 0 {
    } else {
      WalkRankFalls(registry, rank, picks, i, name, n - 1);
      var before := NthLink(registry, picks, i, name, n - 1);
      if before.Some? && before.value.Member? && registry[before.value.name].Group? {
        var g := before.value.name;
        if picks(i, g).Member? {
          var k :| 0 <= k < |registry[g].members| && registry[g].members[k] == picks(i, g).name;
        }
      }
    }
  }

  lemma WalkEnds(registry: Registry, rank: map<string, nat>, picks: Picks, i: nat, name: string, n: nat)
    requires Ranked(registry, rank) && PicksMembers(registry, picks) && name in registry
    requires n > rank[name] + 1
    ensures NthLink(registry, picks, i, name, n).None?
  {
    WalkRankFalls(registry, rank, picks, i, name, n);
  }

  lemma {:induction false} NothingAfterTheEnd(registry: Registry, picks: Picks, i: nat, name: string, n: nat, m: nat)
    requires NthLink(registry, picks, i, name, n).None? && n <= m
    ensures NthLink(registry, picks, i, name, m).None?
  {
    if n == m {
    } else {
      NothingAfterTheEnd(registry, picks, i, name, n, m - 1);
    }
  }

  /** The inner loop of match; its length has no bound in the code, the ranks give it one. */
  method WalkMeetsPass(registry: Registry, picks: Picks, i: nat, name: string, ghost rank: map<string, nat>)
    returns (passed: bool)
    requires Ranked(registry, rank) && PicksMembers(registry, picks) && name in registry
    ensures passed <==> MeetsPass(registry, picks, i, name)
  {
    var adapter: Option<Pick> := Some(Member(name));
    ghost var n := 0;
    MeetsPassAtLink(registry, picks, i, name);
    while adapter.Some?
      invariant adapter == NthLink(registry, picks, i, name, n)
      invariant forall m :: 0 <= m < n ==>
        var l := NthLink(registry, picks, i, name, m); l.Some? && !IsPass(registry, l.value)
      decreases rank[name] + 2 - n as int
    {
      WalkRankFalls(registry, rank, picks, i, name, n);
      if IsPass(registry, adapter.value) {
        return true;
      }
      match adapter.value {
        case Outside(_) => adapter := None;
        case Member(g) =>
          adapter := if registry[g].Group? then Some(picks(i, g)) else None;
      }
      n := n + 1;
    }
    forall m: nat ensures var l := NthLink(registry, picks, i, name, m); l.None? || !IsPass(registry, l.value) {
      if m >= n {
        NothingAfterTheEnd(registry, picks, i, name, n, m);
      }
    }
    return false;
  }

  // ----- the scan -----

  datatype Metadata = Metadata(host: string, dstIP: Option<string>, udp: bool)

  /** Everything the scan asks the outside: the rules, the hosts file, DNS, UDP support. */
  datatype World = World(
    needsIP: seq<bool>,
    verdict: (nat, Metadata) -> Option<string>,
    supportsUDP: (nat, string) -> bool,
    hostsIP: Option<string>,
    dnsIP: Option<string>)

  datatype Decision = Chosen(adapter: string, rule: nat) | Fallback

  predicate WantsDNS(world: World, md: Metadata, i: nat)
    requires i < |world.needsIP|
  {
    world.hostsIP.None? && world.needsIP[i] && md.host != "" && md.dstIP.None?
  }

  /** One of the first k rules has had the address looked up. */
  ghost predicate LookedUp(world: World, md: Metadata, k: nat)
    requires k <= |world.needsIP|
  {
    exists i :: 0 <= i < k && WantsDNS(world, md, i)
  }

  lemma LookedUpIff(world: World, md: Metadata, k: nat)
    requires k <= |world.needsIP|
    ensures LookedUp(world, md, k) <==>
      && world.hostsIP.None? && md.host != "" && md.dstIP.None?
      && exists i :: 0 <= i < k && world.needsIP[i]
  {
    if world.hostsIP.None? && md.host != "" && md.dstIP.None? {
      if i :| 0 <= i < k && world.needsIP[i] {
        assert WantsDNS(world, md, i);
      }
    }
  }

  /** The metadata the rule at position k is matched against. */
  ghost function MetadataAt(world: World, md: Metadata, k: nat): Metadata
    requires k < |world.needsIP|
  {
    if world.hostsIP.Some? then md.(dstIP := world.hostsIP)
    else if world.dnsIP.Some? && LookedUp(world, md, k + 1) then md.(dstIP := world.dnsIP)
    else md
  }

  /**
   * Only the address changes, and only from none to one or to that of the hosts file. No rule
   * that needs an address goes without one that could be had, and no rule before the first that
   * needs one sees what DNS says.
   */
  lemma MetadataTells(world: World, md: Metadata, k: nat)
    requires k < |world.needsIP|
    ensures var m := MetadataAt(world, md, k);
      && m.host == md.host && m.udp == md.udp
      && (world.hostsIP.Some? ==> m.dstIP == world.hostsIP)
      && (world.hostsIP.None? && md.dstIP.Some? ==> m.dstIP == md.dstIP)
      && (world.hostsIP.None? && md.dstIP.None? && md.host == "" ==> m.dstIP.None?)
      && (world.hostsIP.None? && md.dstIP.None? && (forall i :: 0 <= i <= k ==> !world.needsIP[i]) ==> m.dstIP.None?)
      && (world.hostsIP.None? && md.dstIP.None? && md.host != "" && world.needsIP[k] ==> m.dstIP == world.dnsIP)
    ensures forall j :: k <= j < |world.needsIP| && MetadataAt(world, md, k).dstIP.Some? ==>
      MetadataAt(world, md, j) == MetadataAt(world, md, k)
  {
    LookedUpIff(world, md, k + 1);
    forall j | k <= j < |world.needsIP| && MetadataAt(world, md, k).dstIP.Some?
      ensures MetadataAt(world, md, j) == MetadataAt(world, md, k)
    {
      LookedUpIff(world, md, j + 1);
    }
  }

  method Match(world: World, registry: Registry, picks: Picks, metadata: Metadata, ghost rank: map<string, nat>)
    returns (d: Decision, resolutions: nat)
    requires Ranked(registry, rank) && PicksMembers(registry, picks)
    ensures d.Chosen? ==>
      && d.rule < |world.needsIP| && world.verdict(d.rule, MetadataAt(world, metadata, d.rule)) == Some(d.adapter)
      && d.adapter in registry && !MeetsPass(registry, picks, d.rule, d.adapter)
      && (metadata.udp ==> world.supportsUDP(d.rule, d.adapter))
    ensures forall k :: 0 <= k < (if d.Chosen? then d.rule else |world.needsIP|) ==>
      var v := world.verdict(k, MetadataAt(world, metadata, k));
      || v.None? || v.value !in registry || MeetsPass(registry, picks, k, v.value)
      || (metadata.udp && !world.supportsUDP(k, v.value))
    ensures resolutions <= 1
    ensures resolutions == 1 <==>
      && world.hostsIP.None? && metadata.host != "" && metadata.dstIP.None?
      && exists i :: 0 <= i < (if d.Chosen? then d.rule + 1 else |world.needsIP|) && world.needsIP[i]
  {
    var md := metadata;
    var resolved := false;
    resolutions := 0;
    if world.hostsIP.Some? {
      md := md.(dstIP := world.hostsIP);
      resolved := true;
    }
    for k := 0 to |world.needsIP|
      invariant resolved <==> world.hostsIP.Some? || LookedUp(world, metadata, k)
      invariant resolutions == if LookedUp(world, metadata, k) then 1 else 0
      invariant md == if resolved && world.hostsIP.Some? then metadata.(dstIP := world.hostsIP)
                      else if resolved && world.dnsIP.Some? then metadata.(dstIP := world.dnsIP)
                      else metadata
      invariant forall j :: 0 <= j < k ==>
        var v := world.verdict(j, MetadataAt(world, metadata, j));
        || v.None? || v.value !in registry || MeetsPass(registry, picks, j, v.value)
        || (metadata.udp && !world.supportsUDP(j, v.value))
    {
      if !resolved && world.needsIP[k] && md.host != "" && md.dstIP.None? {
        assert WantsDNS(world, metadata, k);
        if world.dnsIP.Some? {
          md := md.(dstIP := world.dnsIP);
        }
        resolved := true;
        resolutions := resolutions + 1;
      }
      assert md == MetadataAt(world, metadata, k);
      var v := world.verdict(k, md);
      if v.Some? && v.value in registry {
        var passed := WalkMeetsPass(registry, picks, k, v.value, rank);
        if !passed && (md.udp ==> world.supportsUDP(k, v.value)) {
          LookedUpIff(world, metadata, k + 1);
          return Chosen(v.value, k), resolutions;
        }
      }
    }
    LookedUpIff(world, metadata, |world.needsIP|);
    return Fallback, resolutions;
  }
}
