/**
 * verifySubRule (core/Clash.Meta/config/config.go): sub-rule lists may refer to one another;
 * a reference to a missing list, or a circle of references, is refused.
 *
 * The map of lists is walked in Go's arbitrary order, here by `:|`; the result is shown not
 * to depend on it beyond which error is named.
 */
module SubRules {
  import opened Prelude
  import opened Graphs

  /** A rule either hands over to another list or is something this check does not look at. */
  datatype Rule = SubRule(adapter: string) | Plain

  type RuleLists = map<string, seq<Rule>>

  datatype Error =
    | NotFound(index: nat, list: string, adapter: string)
    | Circular(path: seq<string>)

  /** The lists a list refers to. */
  ghost function References(rules: seq<Rule>): set<string> {
    set i | 0 <= i < |rules| && rules[i].SubRule? :: rules[i].adapter
  }

  ghost function RefGraph(lists: RuleLists): Graph<string> {
    map n | n in lists :: References(lists[n])
  }

  ghost predicate AllResolve(lists: RuleLists) {
    forall a, b :: Edge(RefGraph(lists), a, b) ==> b in lists
  }

  /** Nothing reachable from n by way of `path` is missing or met twice. */
  ghost predicate Clean(lists: RuleLists, path: seq<string>, n: string) {
    forall w :: IsWalk(RefGraph(lists), w) && w[0] == n ==> w[|w| - 1] in lists && Distinct(path + w)
  }

  /** The error is real: the reference exists and dangles, or the path is a walk that ends where it has been. */
  ghost predicate IsRealError(lists: RuleLists, e: Error) {
    match e
    case NotFound(i, n, b) => n in lists && i < |lists[n]| && lists[n][i] == SubRule(b) && b !in lists
    case Circular(p) => |p| >= 2 && IsWalk(RefGraph(lists), p) && p[|p| - 1] in p[..|p| - 1]
  }

  lemma ReferenceIsEdge(lists: RuleLists, n: string, i: nat)
    requires n in lists && i < |lists[n]| && lists[n][i].SubRule?
    ensures Edge(RefGraph(lists), n, lists[n][i].adapter)
  {
  }

  lemma SnocWalk(lists: RuleLists, path: seq<string>, b: string)
    requires IsWalk(RefGraph(lists), path) && Edge(RefGraph(lists), path[|path| - 1], b)
    ensures IsWalk(RefGraph(lists), path + [b])
  {
  }

  lemma ConsWalk(lists: RuleLists, n: string, w: seq<string>)
    requires IsWalk(RefGraph(lists), w) && Edge(RefGraph(lists), n, w[0])
    ensures IsWalk(RefGraph(lists), [n] + w)
  {
    var p := [n] + w;
    forall i | 0 <= i < |p| - 1 ensures Edge(RefGraph(lists), p[i], p[i + 1]) {
      if i > 0 {
        assert Edge(RefGraph(lists), w[i - 1], w[i]);
      }
    }
  }

  lemma TailWalk(lists: RuleLists, w: seq<string>)
    requires IsWalk(RefGraph(lists), w) && |w| > 1
    ensures IsWalk(RefGraph(lists), w[1..]) && Edge(RefGraph(lists), w[0], w[1])
  {
    WalkSlice(RefGraph(lists), w, 1, |w|);
  }

  /** A list is clean once every list it refers to is there, new to the path, and clean below it. */
  lemma CleanFromReferences(lists: RuleLists, path: seq<string>, n: string)
    requires n in lists && Distinct(path + [n])
    requires forall b :: b in References(lists[n]) ==> b in lists && Clean(lists, path + [n], b)
    ensures Clean(lists, path, n)
  {
    forall w | IsWalk(RefGraph(lists), w) && w[0] == n ensures w[|w| - 1] in lists && Distinct(path + w) {
      if |w| == 1 {
        assert w == [n];
      } else {
        TailWalk(lists, w);
        var rest := w[1..];
        assert rest[0] in References(lists[n]) && Clean(lists, path + [n], rest[0]);
        assert w == [n] + rest;
        AppendAssociates(path, [n], rest);
        assert rest[|rest| - 1] == w[|w| - 1];
      }
    }
  }

  lemma CleanIsHereditary(lists: RuleLists, path: seq<string>, n: string, b: string)
    requires Clean(lists, path, n) && Edge(RefGraph(lists), n, b)
    ensures b in lists && Clean(lists, path + [n], b)
  {
    forall w | IsWalk(RefGraph(lists), w) && w[0] == b ensures w[|w| - 1] in lists && Distinct((path + [n]) + w) {
      ConsWalk(lists, n, w);
      var p := [n] + w;
      AppendAssociates(path, [n], w);
      assert p[|p| - 1] == w[|w| - 1];
    }
    var single := [b];
    assert IsWalk(RefGraph(lists), single) && single[0] == b;
  }

  lemma LastIsNew(a: seq<string>, x: string)
    requires Distinct(a + [x])
    ensures x !in a
  {
    forall k | 0 <= k < |a| ensures a[k] != x {
      assert (a + [x])[k] != (a + [x])[|a|];
    }
  }

  /** An error below n means n is not clean. */
  lemma DirtyReference(lists: RuleLists, path: seq<string>, n: string, b: string)
    requires Edge(RefGraph(lists), n, b)
    requires b !in lists || b in path + [n] || !Clean(lists, path + [n], b)
    ensures !Clean(lists, path, n)
  {
    if Clean(lists, path, n) {
      CleanIsHereditary(lists, path, n, b);
      var single := [b];
      assert IsWalk(RefGraph(lists), single) && single[0] == b;
      LastIsNew(path + [n], b);
    }
  }

  lemma PathFits(lists: RuleLists, path: seq<string>)
    requires Distinct(path) && forall x :: x in path ==> x in lists
    ensures |path| <= |lists.Keys|
  {
    DistinctSize(path);
    SubsetSize(Elements(path), lists.Keys);
  }

  /**
   * The depth-first search from n along `path`, the lists being visited. It terminates
   * because the path holds distinct names of the finite map.
   */
  method VerifyCircularReferences(n: string, lists: RuleLists, path: seq<string>) returns (err: Option<Error>)
    requires n in lists && Distinct(path + [n]) && forall x :: x in path ==> x in lists
    requires IsWalk(RefGraph(lists), path + [n])
    ensures err.None? <==> Clean(lists, path, n)
    ensures err.Some? ==> IsRealError(lists, err.value)
    decreases |lists.Keys| - |path|
  {
    PathFits(lists, path + [n]);
    var arr := path + [n];
    for i := 0 to |lists[n]|
      invariant forall k :: 0 <= k < i && lists[n][k].SubRule? ==>
        lists[n][k].adapter in lists && Clean(lists, arr, lists[n][k].adapter)
    {
      var rule := lists[n][i];
      if rule.SubRule? {
        ReferenceIsEdge(lists, n, i);
        if rule.adapter !in lists {
          DirtyReference(lists, path, n, rule.adapter);
          return Some(NotFound(i, n, rule.adapter));
        }
        SnocWalk(lists, arr, rule.adapter);
        if rule.adapter in arr {
          DirtyReference(lists, path, n, rule.adapter);
          FrontOfSnoc(arr, rule.adapter);
          return Some(Circular(arr + [rule.adapter]));
        }
        err := VerifyCircularReferences(rule.adapter, lists, arr);
        if err.Some? {
          DirtyReference(lists, path, n, rule.adapter);
          return;
        }
      }
    }
    CleanFromReferences(lists, path, n);
    err := None;
  }

  lemma CycleIsDirty(lists: RuleLists, p: seq<string>)
    requires IsCycle(RefGraph(lists), p)
    ensures !Clean(lists, [], p[0])
  {
    assert [] + p == p;
    assert !Distinct(p);
  }

  lemma AcyclicWalkIsDistinct(lists: RuleLists, w: seq<string>)
    requires Acyclic(RefGraph(lists)) && IsWalk(RefGraph(lists), w)
    ensures Distinct(w)
  {
    forall i, j | 0 <= i < j < |w| ensures w[i] != w[j] {
      if w[i] == w[j] {
        RepeatIsCycle(RefGraph(lists), w, i, j);
      }
    }
  }

  lemma AcyclicIsClean(lists: RuleLists, n: string)
    requires AllResolve(lists) && Acyclic(RefGraph(lists)) && n in lists
    ensures Clean(lists, [], n)
  {
    forall w | IsWalk(RefGraph(lists), w) && w[0] == n ensures w[|w| - 1] in lists && Distinct([] + w) {
      WalkStaysInside(lists, w);
      AcyclicWalkIsDistinct(lists, w);
    }
  }

  /** Every list is clean exactly when every reference resolves and there is no circle. */
  lemma AllCleanIffAcyclic(lists: RuleLists)
    ensures (forall n :: n in lists ==> Clean(lists, [], n)) <==> AllResolve(lists) && Acyclic(RefGraph(lists))
  {
    if forall n :: n in lists ==> Clean(lists, [], n) {
      forall a, b | Edge(RefGraph(lists), a, b) ensures b in lists {
        CleanIsHereditary(lists, [], a, b);
      }
      forall p ensures !IsCycle(RefGraph(lists), p) {
        if IsCycle(RefGraph(lists), p) {
          assert Edge(RefGraph(lists), p[0], p[1]);
          CycleIsDirty(lists, p);
        }
      }
    }
    if AllResolve(lists) && Acyclic(RefGraph(lists)) {
      forall n | n in lists ensures Clean(lists, [], n) {
        AcyclicIsClean(lists, n);
      }
    }
  }

  lemma WalkStaysInside(lists: RuleLists, w: seq<string>)
    requires AllResolve(lists) && IsWalk(RefGraph(lists), w) && w[0] in lists
    ensures w[|w| - 1] in lists
  {
    if |w| > 1 {
      assert Edge(RefGraph(lists), w[|w| - 2], w[|w| - 1]);
    }
  }

  /** The check of all lists, in whatever order the map is walked. */
  method VerifySubRule(lists: RuleLists) returns (err: Option<Error>)
    ensures err.None? <==> AllResolve(lists) && Acyclic(RefGraph(lists))
    ensures err.Some? ==> IsRealError(lists, err.value)
  {
    AllCleanIffAcyclic(lists);
    var todo := lists.Keys;
    while todo != {}
      invariant todo <= lists.Keys
      invariant forall n :: n in lists && n !in todo ==> Clean(lists, [], n)
      decreases todo
    {
      var name :| name in todo;
      assert [] + [name] == [name];
      err := VerifyCircularReferences(name, lists, []);
      if err.Some? {
        return;
      }
      todo := todo - {name};
    }
    err := None;
  }

  /** A reported circle contains one: some part of it is a cycle of references. */
  lemma CircularErrorShowsCycle(lists: RuleLists, p: seq<string>)
    requires IsRealError(lists, Circular(p))
    ensures exists k :: 0 <= k < |p| - 1 && IsCycle(RefGraph(lists), p[k..])
  {
    var k :| 0 <= k < |p| - 1 && p[..|p| - 1][k] == p[|p| - 1];
    RepeatIsCycle(RefGraph(lists), p, k, |p| - 1);
    assert p[k..|p|] == p[k..];
  }
}
