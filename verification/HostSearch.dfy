/**
 * The search in the accepted hosts (core/Clash.Meta/component/resolver/host.go): what the check
 * on aliases is for. The loop that follows aliases at every lookup has no bound of its own.
 *
 * The trie is the map of Hosts, from entries to values, and no host is entered under the empty
 * name. A name that is not in it may be found in the system's hosts file, which is not part of
 * this model.
 */
module HostSearch {
  import opened Prelude
  import opened Graphs
  import opened Hosts

  /** The k-th name met is the first that is no alias. */
  ghost predicate FirstStop(f: Fold, tree: Tree, name: string, k: nat) {
    Chain(f, tree, name, k).Some? && !IsAlias(f, tree, Chain(f, tree, name, k).value)
  }

  ghost predicate Ends(f: Fold, tree: Tree, name: string) {
    exists k: nat :: FirstStop(f, tree, name, k)
  }

  /**
   * The search ends with the addresses that the aliases of a name lead to. Where they lead to
   * no host, the last alias comes back as a value of the wrong kind.
   */
  method Search(f: Fold, tree: Tree, name: string, isDomain: bool, ghost stop: nat)
    returns (value: Option<HostValue>, matches: bool)
    requires isDomain || FirstStop(f, tree, name, stop)
    ensures value.None? <==> f(name) !in tree
    ensures value.None? ==> !matches
    ensures isDomain && f(name) in tree ==> value == Some(tree[f(name)]) && (matches <==> tree[f(name)].Alias?)
    ensures !isDomain && f(name) in tree ==>
      var last := Chain(f, tree, name, stop).value;
      && (matches <==> f(last) in tree)
      && (matches ==> value == Some(tree[f(last)]))
      && (!matches ==> value == Some(Alias(last)))
  {
    if f(name) !in tree {
      return None, false;
    }
    var host := tree[f(name)];
    ghost var k := 0;
    while host.Alias? && !isDomain
      invariant isDomain ==> host == tree[f(name)]
      invariant !isDomain ==> k <= stop && Chain(f, tree, name, k).Some?
      invariant !isDomain ==> f(Chain(f, tree, name, k).value) in tree && tree[f(Chain(f, tree, name, k).value)] == host
      decreases stop - k
    {
      assert Chain(f, tree, name, k + 1) == Some(host.domain);
      StopsLater(f, tree, name, k, stop);
      if f(host.domain) !in tree {
        StopIsUnique(f, tree, name, k + 1, stop);
        return Some(host), false;
      }
      host := tree[f(host.domain)];
      k := k + 1;
    }
    if !isDomain {
      StopIsUnique(f, tree, name, k, stop);
    }
    return Some(host), isDomain == host.Alias?;
  }

  lemma {:induction false} NothingAfterStop(f: Fold, tree: Tree, name: string, k: nat, m: nat)
    requires FirstStop(f, tree, name, k) && k < m
    ensures Chain(f, tree, name, m).None?
  {
    if k + 1 == m {
    } else {
      NothingAfterStop(f, tree, name, k, m - 1);
    }
  }

  lemma StopIsUnique(f: Fold, tree: Tree, name: string, k: nat, m: nat)
    requires FirstStop(f, tree, name, k) && FirstStop(f, tree, name, m)
    ensures k == m
  {
    if k < m {
      NothingAfterStop(f, tree, name, k, m);
    } else if m < k {
      NothingAfterStop(f, tree, name, m, k);
    }
  }

  lemma StopsLater(f: Fold, tree: Tree, name: string, k: nat, stop: nat)
    requires FirstStop(f, tree, name, stop) && AliasAt(f, tree, name, k)
    ensures k < stop
  {
    if stop < k {
      NothingAfterStop(f, tree, name, stop, k);
    }
  }

  // ----- which searches end -----

  lemma {:induction false} AlwaysAlias(f: Fold, tree: Tree, name: string, k: nat)
    requires !Ends(f, tree, name)
    ensures AliasAt(f, tree, name, k)
  {
    if k == 0 {
    } else {
      AlwaysAlias(f, tree, name, k - 1);
    }
    assert !FirstStop(f, tree, name, k);
  }

  lemma {:induction false} LeadingOnForEver(f: Fold, tree: Tree, name: string, k: nat)
    requires LeadsToCycle(Links(f, tree), f(name))
    ensures AliasAt(f, tree, name, k) && LeadsToCycle(Links(f, tree), f(Chain(f, tree, name, k).value))
  {
    if k == 0 {
      var y := LeadsOn(Links(f, tree), f(name));
    } else {
      LeadingOnForEver(f, tree, name, k - 1);
      var y := LeadsOn(Links(f, tree), f(Chain(f, tree, name, k - 1).value));
      var z := LeadsOn(Links(f, tree), y);
    }
  }

  /** In any table a search ends exactly if the aliases from its name lead into no circle. */
  lemma SearchEndsIff(f: Fold, tree: Tree, name: string)
    ensures Ends(f, tree, name) <==> !LeadsToCycle(Links(f, tree), f(name))
  {
    if !Ends(f, tree, name) {
      forall k: nat ensures AliasAt(f, tree, name, k) {
        AlwaysAlias(f, tree, name, k);
      }
      AliasesForEverCircle(f, tree, name);
    }
    if LeadsToCycle(Links(f, tree), f(name)) {
      forall k: nat ensures !FirstStop(f, tree, name, k) {
        LeadingOnForEver(f, tree, name, k);
      }
    }
  }

  /** Every search ends exactly if there is no circle in the table. */
  lemma AllEndIff(f: Fold, tree: Tree)
    ensures (forall name :: Ends(f, tree, name)) <==> Acyclic(Links(f, tree))
  {
    var g := Links(f, tree);
    AcyclicIffNoneOnCycle(g);
    if Acyclic(g) {
      forall name ensures Ends(f, tree, name) {
        SearchEndsIff(f, tree, name);
      }
    } else {
      var p :| IsCycle(g, p);
      var i := |p| - 2;
      assert Edge(g, p[i], p[i + 1]);
      ReachesSelf(g, p[0]);
      assert OnCycle(g, p[0]);
      SearchEndsIff(f, tree, tree[p[i]].domain);
    }
  }

  lemma EverySearchEndsIff(f: Fold, hosts: HostTable, tree: Tree)
    requires Holds(f, hosts, tree, hosts.Keys)
    ensures (forall name :: Ends(f, tree, name)) <==> Acyclic(AliasGraph(f, hosts))
  {
    AllEndIff(f, tree);
    LinksAreAll(f, hosts, tree);
    if Acyclic(AliasGraph(f, hosts)) {
      AcyclicWithin(Links(f, tree), AliasGraph(f, hosts));
    }
    if Acyclic(Links(f, tree)) {
      AcyclicWithin(AliasGraph(f, hosts), Links(f, tree));
    }
  }

  /**
   * What the check on aliases achieves, in whatever order it entered the hosts: once it has
   * accepted them every search ends exactly if no circle has an unseen host, that is, no host
   * is aliased to itself and no circle is closed by an alias that spells a host differently.
   */
  lemma AcceptedSearchesEndIff(f: Fold, hosts: HostTable, order: seq<string>)
    requires AllValid(hosts) && FoldsApart(f, hosts)
    requires IsOrderOf(hosts, order) && ParseOutcome(f, hosts, order).Accepted?
    ensures (forall name :: Ends(f, ParseOutcome(f, hosts, order).tree, name)) <==> NoneUnseen(f, hosts)
  {
    OutcomeTells(f, hosts, order);
    var tree, g := ParseOutcome(f, hosts, order).tree, AliasGraph(f, hosts);
    EverySearchEndsIff(f, hosts, tree);
    AcceptedCirclesUnseen(f, hosts, tree);
    AcyclicIffNoneOnCycle(g);
    if NoneUnseen(f, hosts) {
      forall n ensures !OnCycle(g, n) {
        assert !ReachesUnseen(f, hosts, n);
      }
    }
  }

  /** In particular if aliases spell the hosts and none is aliased to itself. */
  lemma SpelledSearchesEnd(f: Fold, hosts: HostTable, order: seq<string>, name: string)
    requires AllValid(hosts) && FoldsApart(f, hosts) && Spelled(f, hosts) && NoSelfAlias(f, hosts)
    requires IsOrderOf(hosts, order) && ParseOutcome(f, hosts, order).Accepted?
    ensures Ends(f, ParseOutcome(f, hosts, order).tree, name)
  {
    SpelledIsSeen(f, hosts);
    AcceptedSearchesEndIff(f, hosts, order);
  }

  /** One host aliased to itself is accepted, and the search for it never ends. */
  lemma LoneSelfAlias(f: Fold, d: string)
    requires f(d) != f("localhost")
    ensures var hosts := map[d := Some(Alias(d))];
      && IsOrderOf(hosts, [d]) && ParseOutcome(f, hosts, [d]).Accepted?
      && !Ends(f, ParseOutcome(f, hosts, [d]).tree, d)
  {
    var hosts := map[d := Some(Alias(d))];
    LetInFirst(f, hosts, DefaultTree(f), d, d, []);
    var tree := DefaultTree(f)[f(d) := Alias(d)];
    assert [d] + [] == [d] && Enter(f, hosts, tree, []) == Accepted(tree);
    assert Edge(Links(f, tree), f(d), f(d));
    EdgeAndBackHere(f, tree, d);
  }

  lemma EdgeAndBackHere(f: Fold, tree: Tree, d: string)
    requires Edge(Links(f, tree), f(d), f(d))
    ensures !Ends(f, tree, d)
  {
    ReachesSelf(Links(f, tree), f(d));
    EdgeAndBack(Links(f, tree), f(d), f(d));
    SearchEndsIff(f, tree, d);
  }

  /**
   * Two hosts aliased to each other, one of them spelled differently where it is an alias:
   * entered last it is let in, no host is aliased to itself, and the search never ends.
   */
  lemma SpelledOtherwise(f: Fold, a: string, a': string, b: string)
    requires f(a) == f(a') && a != a' && f(a) != f(b) && f("localhost") != f(a) && f("localhost") != f(b)
    ensures var hosts := map[a := Some(Alias(b)), b := Some(Alias(a'))];
      && IsOrderOf(hosts, [b, a]) && NoSelfAlias(f, hosts) && ParseOutcome(f, hosts, [b, a]).Accepted?
      && !Ends(f, ParseOutcome(f, hosts, [b, a]).tree, a)
  {
    var hosts := map[a := Some(Alias(b)), b := Some(Alias(a'))];
    var start := DefaultTree(f);
    LetInFirst(f, hosts, start, b, a', [a]);
    assert [b] + [a] == [b, a];
    var mid := start[f(b) := Alias(a')];
    assert Chain(f, mid, b, 0) == Some(b) && Chain(f, mid, b, 1) == Some(a');
    assert GoesOnAt(f, mid, b, a, 0) && !AliasAt(f, mid, b, 1);
    WalkEndAt(f, mid, b, a, 1);
    EnterNext(f, hosts, mid, a, []);
    var tree := mid[f(a) := Alias(b)];
    assert [a] + [] == [a] && Enter(f, hosts, tree, []) == Accepted(tree);
    TwoEdges(f, tree, a, b);
  }

  lemma TwoEdges(f: Fold, tree: Tree, a: string, b: string)
    requires Edge(Links(f, tree), f(a), f(b)) && Edge(Links(f, tree), f(b), f(a))
    ensures !Ends(f, tree, a)
  {
    var g := Links(f, tree);
    ReachesEdge(g, f(b), f(a));
    EdgeAndBack(g, f(a), f(b));
    ReachesSelf(g, f(a));
    SearchEndsIff(f, tree, a);
  }

  /**
   * Hosts that are the same name in two spellings: the one entered last counts, and so the
   * order decides between acceptance and refusal.
   */
  lemma TwoSpellingsOneEntry(f: Fold, a: string, a': string, b: string)
    requires f(a) == f(a') && a != a' && f(a) != f(b) && f("localhost") != f(a) && f("localhost") != f(b)
    ensures var hosts := map[a := Some(IPs(["127.0.0.1"])), a' := Some(Alias(b)), b := Some(Alias(a))];
      && IsOrderOf(hosts, [a', a, b]) && ParseOutcome(f, hosts, [a', a, b]).Accepted?
      && IsOrderOf(hosts, [a, a', b]) && ParseOutcome(f, hosts, [a, a', b]) == CycleFound(b)
  {
    var hosts := map[a := Some(IPs(["127.0.0.1"])), a' := Some(Alias(b)), b := Some(Alias(a))];
    var start := DefaultTree(f);
    IpsLast(f, hosts, a, a', b);
    EnterNext(f, hosts, start, a, [a', b]);
    assert [a] + [a', b] == [a, a', b] && [a'] + [b] == [a', b];
    var t1 := start[f(a) := IPs(["127.0.0.1"])];
    LetInFirst(f, hosts, t1, a', b, [b]);
    var t2 := t1[f(a') := Alias(b)];
    assert Chain(f, t2, a, 0) == Some(a) && AliasAt(f, t2, a, 0) && StopsAt(f, t2, a, b, 0);
    WalkEndAt(f, t2, a, b, 0);
  }

  lemma IpsLast(f: Fold, hosts: HostTable, a: string, a': string, b: string)
    requires f(a) == f(a') && f(a) != f(b) && f("localhost") != f(a) && f("localhost") != f(b)
    requires hosts == map[a := Some(IPs(["127.0.0.1"])), a' := Some(Alias(b)), b := Some(Alias(a))] && a != a'
    ensures Enter(f, hosts, DefaultTree(f), [a', a, b]).Accepted?
  {
    var start := DefaultTree(f);
    assert [a'] + [a, b] == [a', a, b] && [a] + [b] == [a, b] && [b] + [] == [b];
    LetInFirst(f, hosts, start, a', b, [a, b]);
    var t1 := start[f(a') := Alias(b)];
    EnterNext(f, hosts, t1, a, [b]);
    var t2 := t1[f(a) := IPs(["127.0.0.1"])];
    LetInFirst(f, hosts, t2, b, a, []);
    var t3 := t2[f(b) := Alias(a)];
    assert Enter(f, hosts, t3, []) == Accepted(t3);
  }
}
