/**
 * GetProxies of a proxy group (core/Clash.Meta/adapter/outboundgroup/groupbase.go): the lists
 * of the group's providers are filtered, reordered, thinned out, and cached under the
 * providers' versions.
 *
 * A regular expression is a predicate on names; `sameType` stands for strings.EqualFold. The
 * providers do not change during one call: each call is given a snapshot of them.
 */
module GroupProxies {
  import opened Prelude

  datatype Proxy = Proxy(name: string, kind: string, id: nat)

  datatype Provider = Provider(version: nat, compatible: bool, proxies: seq<Proxy>)

  type Pattern = string -> bool

  ghost predicate HasName(s: seq<Proxy>, name: string) {
    exists i :: 0 <= i < |s| && s[i].name == name
  }

  /** Where a name occurs first. */
  ghost function FirstIdx(s: seq<Proxy>, name: string): (i: nat)
    requires HasName(s, name)
    ensures i < |s| && s[i].name == name
    ensures forall j :: 0 <= j < i ==> s[j].name != name
  {
    if HasName(s[..|s| - 1], name) then FirstIdx(s[..|s| - 1], name) else |s| - 1
  }

  /** The index of the first filter that matches a name; the number of filters if none does. */
  function Rank(filters: seq<Pattern>, name: string): (r: nat)
    ensures r <= |filters|
    ensures forall f :: 0 <= f < r ==> !filters[f](name)
    ensures r < |filters| ==> filters[r](name)
  {
    if filters == [] then 0
    else if filters[0](name) then 0
    else
      assert forall f :: 1 <= f < |filters| ==> filters[f] == filters[1..][f - 1];
      1 + Rank(filters[1..], name)
  }

  /** Name a comes before name b: by first matching filter, then by first occurrence. */
  ghost predicate Earlier(filters: seq<Pattern>, s: seq<Proxy>, a: string, b: string)
    requires HasName(s, a) && HasName(s, b)
  {
    || Rank(filters, a) < Rank(filters, b)
    || (Rank(filters, a) == Rank(filters, b) && FirstIdx(s, a) < FirstIdx(s, b))
  }

  /** The name has been dealt with once pass f has gone through the first i entries. */
  ghost predicate Passed(filters: seq<Pattern>, s: seq<Proxy>, f: nat, i: nat, name: string)
    requires HasName(s, name)
  {
    Rank(filters, name) < f || (Rank(filters, name) == f && FirstIdx(s, name) < i)
  }

  /** `out` holds the first entry of each name dealt with, once, ordered by rank and then by occurrence. */
  ghost predicate Collected(filters: seq<Pattern>, s: seq<Proxy>, f: nat, i: nat, out: seq<Proxy>) {
    && (forall k :: 0 <= k < |out| ==>
      HasName(s, out[k].name) && out[k] == s[FirstIdx(s, out[k].name)] && Passed(filters, s, f, i, out[k].name))
    && (forall name :: HasName(s, name) && Passed(filters, s, f, i, name) ==> HasName(out, name))
    && (forall k, m :: 0 <= k < m < |out| ==> Earlier(filters, s, out[k].name, out[m].name))
  }

  /** The names of rank below `limit`: first occurrences by name, stably ordered by rank. */
  ghost predicate RankedDedupe(filters: seq<Pattern>, s: seq<Proxy>, limit: nat, out: seq<Proxy>) {
    Collected(filters, s, limit, 0, out)
  }

  lemma CollectedNext(filters: seq<Pattern>, s: seq<Proxy>, f: nat, i: nat, out: seq<Proxy>, p: Proxy)
    requires Collected(filters, s, f, i, out) && i < |s| && p == s[i]
    requires !HasName(out, p.name) && f <= Rank(filters, p.name) && Rank(filters, p.name) <= f
    ensures Collected(filters, s, f, i + 1, out + [p])
  {
    assert HasName(s, p.name);
    assert FirstIdx(s, p.name) == i;
    var out' := out + [p];
    forall name | HasName(s, name) && Passed(filters, s, f, i + 1, name) ensures HasName(out', name) {
      if Passed(filters, s, f, i, name) {
        var k :| 0 <= k < |out| && out[k].name == name;
        assert out'[k].name == name;
      } else {
        assert out'[|out|].name == name;
      }
    }
  }

  lemma CollectedSkip(filters: seq<Pattern>, s: seq<Proxy>, f: nat, i: nat, out: seq<Proxy>)
    requires Collected(filters, s, f, i, out) && i < |s|
    requires HasName(out, s[i].name) || Rank(filters, s[i].name) != f
    ensures Collected(filters, s, f, i + 1, out)
  {
    assert HasName(s, s[i].name);
  }

  lemma CollectedWrap(filters: seq<Pattern>, s: seq<Proxy>, f: nat, out: seq<Proxy>)
    requires Collected(filters, s, f, |s|, out)
    ensures Collected(filters, s, f + 1, 0, out)
  {
  }

  /** A name that a pass meets a second time, or that an earlier filter took, is in the output already. */
  lemma EarlierRankCollected(filters: seq<Pattern>, s: seq<Proxy>, f: nat, i: nat, out: seq<Proxy>, name: string)
    requires Collected(filters, s, f, i, out) && HasName(s, name) && Rank(filters, name) < f
    ensures HasName(out, name)
  {
  }

  ghost predicate SeenAre(seen: set<string>, out: seq<Proxy>) {
    forall name :: name in seen <==> HasName(out, name)
  }

  lemma SeenGrows(seen: set<string>, out: seq<Proxy>, p: Proxy)
    requires SeenAre(seen, out)
    ensures SeenAre(seen + {p.name}, out + [p])
  {
    var out' := out + [p];
    forall name ensures name in seen + {p.name} <==> HasName(out', name) {
      if name in seen {
        var k :| 0 <= k < |out| && out[k].name == name;
        assert out'[k].name == name;
      } else if name == p.name {
        assert out'[|out|].name == name;
      }
    }
  }

  /** One pass of a filter over the list; `matches` is the filter, or for the last pass everything. */
  method Pass(filters: seq<Pattern>, s: seq<Proxy>, f: nat, seen0: set<string>, out0: seq<Proxy>)
    returns (seen: set<string>, out: seq<Proxy>)
    requires f <= |filters|
    requires Collected(filters, s, f, 0, out0) && SeenAre(seen0, out0)
    ensures Collected(filters, s, f + 1, 0, out) && SeenAre(seen, out)
  {
    seen, out := seen0, out0;
    for i := 0 to |s|
      invariant Collected(filters, s, f, i, out) && SeenAre(seen, out)
    {
      var p := s[i];
      assert HasName(s, p.name);
      if f == |filters| || filters[f](p.name) {
        if p.name !in seen {
          if Rank(filters, p.name) < f {
            EarlierRankCollected(filters, s, f, i, out, p.name);
          }
          CollectedNext(filters, s, f, i, out, p);
          SeenGrows(seen, out, p);
          seen := seen + {p.name};
          out := out + [p];
        } else {
          CollectedSkip(filters, s, f, i, out);
        }
      } else {
        CollectedSkip(filters, s, f, i, out);
      }
    }
    CollectedWrap(filters, s, f, out);
  }

  /** Filter-major selection; with `keepUnmatched` the unmatched names follow at the end. */
  method FilterMajor(filters: seq<Pattern>, s: seq<Proxy>, keepUnmatched: bool) returns (out: seq<Proxy>)
    ensures RankedDedupe(filters, s, |filters| + (if keepUnmatched then 1 else 0), out)
  {
    out := [];
    var seen: set<string> := {};
    for f := 0 to |filters|
      invariant Collected(filters, s, f, 0, out) && SeenAre(seen, out)
    {
      seen, out := Pass(filters, s, f, seen, out);
    }
    if keepUnmatched {
      seen, out := Pass(filters, s, |filters|, seen, out);
    }
  }

  // ----- what a ranked dedupe is -----

  /** Some filter matches the name. */
  ghost predicate MatchedBy(filters: seq<Pattern>, name: string) {
    exists f :: 0 <= f < |filters| && filters[f](name)
  }

  lemma MatchedByIff(filters: seq<Pattern>, name: string)
    ensures MatchedBy(filters, name) <==> Rank(filters, name) < |filters|
    ensures MatchedBy(filters, name) <==> exists f :: 0 <= f < |filters| && filters[f](name)
  {
    if Rank(filters, name) < |filters| {
      assert filters[Rank(filters, name)](name);
    }
  }

  ghost predicate IsFirst(s: seq<Proxy>, i: nat) {
    i < |s| && forall j :: 0 <= j < i ==> s[j].name != s[i].name
  }

  lemma FirstIsFirst(s: seq<Proxy>, i: nat)
    requires i < |s|
    ensures IsFirst(s, i) <==> FirstIdx(s, s[i].name) == i
  {
    assert HasName(s, s[i].name);
  }

  ghost predicate FirstOfName(s: seq<Proxy>, p: Proxy) {
    exists i: nat :: IsFirst(s, i) && s[i] == p
  }

  /** Each entry is the first of its name in the list, and no name comes twice. */
  lemma DedupeFirsts(filters: seq<Pattern>, s: seq<Proxy>, limit: nat, out: seq<Proxy>)
    requires RankedDedupe(filters, s, limit, out)
    ensures forall k :: 0 <= k < |out| ==> FirstOfName(s, out[k])
    ensures forall k, m :: 0 <= k < m < |out| ==> out[k].name != out[m].name
  {
    forall k | 0 <= k < |out| ensures FirstOfName(s, out[k]) {
      var i := FirstIdx(s, out[k].name);
      assert IsFirst(s, i) && s[i] == out[k];
    }
    forall k, m | 0 <= k < m < |out| ensures out[k].name != out[m].name {
      assert Earlier(filters, s, out[k].name, out[m].name);
    }
  }

  /** The names are all names of the list, or just those that some filter matches. */
  lemma DedupeNames(filters: seq<Pattern>, s: seq<Proxy>, keepUnmatched: bool, out: seq<Proxy>, name: string)
    requires RankedDedupe(filters, s, |filters| + (if keepUnmatched then 1 else 0), out)
    ensures (exists k :: 0 <= k < |out| && out[k].name == name) <==>
      && (exists i :: 0 <= i < |s| && s[i].name == name)
      && (keepUnmatched || exists f :: 0 <= f < |filters| && filters[f](name))
  {
    MatchedByIff(filters, name);
    if k :| 0 <= k < |out| && out[k].name == name {
      assert HasName(s, name);
    }
    if HasName(s, name) && (keepUnmatched || MatchedBy(filters, name)) {
      assert Passed(filters, s, |filters| + (if keepUnmatched then 1 else 0), 0, name);
      assert HasName(out, name);
    }
  }

  /**
   * Of two names the one that an earlier filter matches comes first; if there is no such
   * filter, the one that comes first in the list.
   */
  lemma DedupeOrder(filters: seq<Pattern>, s: seq<Proxy>, limit: nat, out: seq<Proxy>, k: nat, m: nat, i: nat, j: nat)
    requires RankedDedupe(filters, s, limit, out) && k < m < |out|
    requires IsFirst(s, i) && s[i] == out[k] && IsFirst(s, j) && s[j] == out[m]
    ensures forall f :: 0 <= f < |filters| && filters[f](out[m].name) ==>
      exists g :: 0 <= g <= f && filters[g](out[k].name)
    ensures j < i ==>
      exists f :: 0 <= f < |filters| && filters[f](out[k].name) && forall g :: 0 <= g <= f ==> !filters[g](out[m].name)
  {
    var a, b := out[k].name, out[m].name;
    assert Earlier(filters, s, a, b);
    FirstIsFirst(s, i);
    FirstIsFirst(s, j);
    var r := Rank(filters, a);
    forall f | 0 <= f < |filters| && filters[f](b) ensures exists g :: 0 <= g <= f && filters[g](a) {
      assert r <= Rank(filters, b) <= f && filters[r](a);
    }
    if j < i {
      assert r < Rank(filters, b) && filters[r](a);
    }
  }

  // ----- ranked dedupe is determined by its input -----

  lemma SameNameSamePlace(filters: seq<Pattern>, s: seq<Proxy>, limit: nat, out: seq<Proxy>, i: nat, j: nat)
    requires RankedDedupe(filters, s, limit, out)
    requires i < |out| && j < |out| && out[i].name == out[j].name
    ensures i == j
  {
  }

  /** Where two lists still agree, the next name of one is not among the earlier ones of the other. */
  lemma NotYet(filters: seq<Pattern>, s: seq<Proxy>, limit: nat, a: seq<Proxy>, b: seq<Proxy>, n: nat, i: nat)
    requires RankedDedupe(filters, s, limit, a)
    requires n < |a| && i < |b| && b[i].name == a[n].name
    requires forall k :: 0 <= k < n && k < |b| ==> a[k] == b[k]
    ensures n <= i
  {
  }

  lemma OneIsInPlace(filters: seq<Pattern>, s: seq<Proxy>, limit: nat, a: seq<Proxy>, b: seq<Proxy>, n: nat, i: nat,
                     j: nat)
    requires RankedDedupe(filters, s, limit, a) && RankedDedupe(filters, s, limit, b)
    requires n <= j < |a| && n <= i < |b| && b[i].name == a[n].name && a[j].name == b[n].name
    ensures i == n || j == n
  {
  }

  /** A name of one list is in the other. */
  lemma PlaceInOther(filters: seq<Pattern>, s: seq<Proxy>, limit: nat, a: seq<Proxy>, b: seq<Proxy>, k: nat)
    returns (i: nat)
    requires RankedDedupe(filters, s, limit, a) && RankedDedupe(filters, s, limit, b) && k < |a|
    ensures i < |b| && b[i].name == a[k].name && b[i] == a[k]
  {
    assert HasName(s, a[k].name) && HasName(b, a[k].name);
    i :| 0 <= i < |b| && b[i].name == a[k].name;
  }

  lemma NextAgrees(filters: seq<Pattern>, s: seq<Proxy>, limit: nat, a: seq<Proxy>, b: seq<Proxy>, n: nat)
    requires RankedDedupe(filters, s, limit, a) && RankedDedupe(filters, s, limit, b)
    requires n < |a| && n < |b| && forall k :: 0 <= k < n ==> a[k] == b[k]
    ensures a[n] == b[n]
  {
    var i := PlaceInOther(filters, s, limit, a, b, n);
    var j := PlaceInOther(filters, s, limit, b, a, n);
    NotYet(filters, s, limit, a, b, n, i);
    NotYet(filters, s, limit, b, a, n, j);
    OneIsInPlace(filters, s, limit, a, b, n, i, j);
  }

  /** The two lists agree wherever both have an entry. */
  lemma {:induction false} DedupeAgrees(filters: seq<Pattern>, s: seq<Proxy>, limit: nat, a: seq<Proxy>,
                                        b: seq<Proxy>, n: nat)
    requires RankedDedupe(filters, s, limit, a) && RankedDedupe(filters, s, limit, b)
    requires n <= |a| && n <= |b|
    ensures forall k :: 0 <= k < n ==> a[k] == b[k]
  {
    if n == 0 {
    } else {
      DedupeAgrees(filters, s, limit, a, b, n - 1);
      NextAgrees(filters, s, limit, a, b, n - 1);
    }
  }

  /** A list has one ranked dedupe. */
  lemma DedupeIsUnique(filters: seq<Pattern>, s: seq<Proxy>, limit: nat, a: seq<Proxy>, b: seq<Proxy>)
    requires RankedDedupe(filters, s, limit, a) && RankedDedupe(filters, s, limit, b)
    ensures a == b
  {
    if |a| <= |b| {
      DedupeAgrees(filters, s, limit, a, b, |a|);
      DedupeNotLonger(filters, s, limit, a, b);
    } else {
      DedupeAgrees(filters, s, limit, a, b, |b|);
      DedupeNotLonger(filters, s, limit, b, a);
    }
  }

  lemma DedupeNotLonger(filters: seq<Pattern>, s: seq<Proxy>, limit: nat, a: seq<Proxy>, b: seq<Proxy>)
    requires RankedDedupe(filters, s, limit, a) && RankedDedupe(filters, s, limit, b)
    requires |a| <= |b| && forall k :: 0 <= k < |a| ==> a[k] == b[k]
    ensures |a| == |b|
  {
    if b != [] {
      var last := |b| - 1;
      assert HasName(b, b[last].name);
      var i :| 0 <= i < |a| && a[i].name == b[last].name;
      SameNameSamePlace(filters, s, limit, b, i, last);
    }
  }

  // ----- lists that a ranked dedupe cannot tell apart -----

  /** The same names occur, first with the same entries, in the same order within each rank. */
  ghost predicate SameFirsts(filters: seq<Pattern>, s: seq<Proxy>, t: seq<Proxy>) {
    && (forall name :: HasName(s, name) <==> HasName(t, name))
    && (forall name :: HasName(s, name) && HasName(t, name) ==> s[FirstIdx(s, name)] == t[FirstIdx(t, name)])
    && (forall a, b :: HasName(s, a) && HasName(s, b) && HasName(t, a) && HasName(t, b) ==>
      (Earlier(filters, s, a, b) <==> Earlier(filters, t, a, b)))
  }

  lemma SameFirstsSameDedupe(filters: seq<Pattern>, s: seq<Proxy>, t: seq<Proxy>, limit: nat, out: seq<Proxy>)
    requires SameFirsts(filters, s, t) && RankedDedupe(filters, s, limit, out)
    ensures RankedDedupe(filters, t, limit, out)
  {
    forall k | 0 <= k < |out|
      ensures HasName(t, out[k].name) && out[k] == t[FirstIdx(t, out[k].name)]
        && Passed(filters, t, limit, 0, out[k].name)
    {
      assert HasName(s, out[k].name);
    }
    forall name | HasName(t, name) && Passed(filters, t, limit, 0, name) ensures HasName(out, name) {
      assert HasName(s, name) && Passed(filters, s, limit, 0, name);
    }
    forall k, m | 0 <= k < m < |out| ensures Earlier(filters, t, out[k].name, out[m].name) {
      assert HasName(t, out[k].name) && HasName(t, out[m].name);
      assert Earlier(filters, s, out[k].name, out[m].name);
    }
  }

  lemma NameInConcat(x: seq<Proxy>, y: seq<Proxy>, name: string)
    ensures HasName(x + y, name) <==> HasName(x, name) || HasName(y, name)
    ensures HasName(x, name) ==> FirstIdx(x + y, name) == FirstIdx(x, name)
    ensures !HasName(x, name) && HasName(y, name) ==> FirstIdx(x + y, name) == |x| + FirstIdx(y, name)
  {
    var z := x + y;
    if HasName(x, name) {
      assert z[FirstIdx(x, name)].name == name;
    } else if HasName(y, name) {
      assert z[|x| + FirstIdx(y, name)].name == name;
      assert forall j :: 0 <= j < |x| ==> z[j] == x[j];
    }
    if HasName(z, name) {
      var i := FirstIdx(z, name);
      if i < |x| {
        assert x[i].name == name;
      } else {
        assert y[i - |x|].name == name;
      }
    }
  }

  lemma SameFirstsConcat(filters: seq<Pattern>, x: seq<Proxy>, x': seq<Proxy>, y: seq<Proxy>, y': seq<Proxy>)
    requires SameFirsts(filters, x, x') && SameFirsts(filters, y, y')
    ensures SameFirsts(filters, x + y, x' + y')
  {
    var s, t := x + y, x' + y';
    forall name ensures HasName(s, name) <==> HasName(t, name) {
      NameInConcat(x, y, name);
      NameInConcat(x', y', name);
    }
    forall name | HasName(s, name) && HasName(t, name) ensures s[FirstIdx(s, name)] == t[FirstIdx(t, name)] {
      NameInConcat(x, y, name);
      NameInConcat(x', y', name);
    }
    forall a, b | HasName(s, a) && HasName(s, b) && HasName(t, a) && HasName(t, b)
      ensures Earlier(filters, s, a, b) <==> Earlier(filters, t, a, b)
    {
      NameInConcat(x, y, a);
      NameInConcat(x', y', a);
      NameInConcat(x, y, b);
      NameInConcat(x', y', b);
      if HasName(x, a) && HasName(x, b) {
        assert Earlier(filters, x, a, b) <==> Earlier(filters, x', a, b);
      } else if !HasName(x, a) && !HasName(x, b) {
        assert Earlier(filters, y, a, b) <==> Earlier(filters, y', a, b);
      }
    }
  }

  /** The entries a filter matches, in list order. */
  ghost function Matched(filters: seq<Pattern>, s: seq<Proxy>): seq<Proxy> {
    if s == [] then []
    else
      var front, last := s[..|s| - 1], s[|s| - 1];
      Matched(filters, front) + (if Rank(filters, last.name) < |filters| then [last] else [])
  }

  lemma NameInSnoc(front: seq<Proxy>, last: Proxy, name: string)
    ensures HasName(front + [last], name) <==> HasName(front, name) || last.name == name
    ensures HasName(front, name) ==> FirstIdx(front + [last], name) == FirstIdx(front, name)
    ensures !HasName(front, name) && last.name == name ==> FirstIdx(front + [last], name) == |front|
  {
    NameInConcat(front, [last], name);
    assert [last][0] == last;
  }

  /** The entries whose name a filter matches are a subsequence of the list. */
  lemma {:induction false} MatchedInOrder(filters: seq<Pattern>, s: seq<Proxy>)
    ensures IsSubsequence(Matched(filters, s), s)
  {
    if s == [] {
      SubsequenceOfItself<Proxy>([]);
    } else {
      var front, last := s[..|s| - 1], s[|s| - 1];
      MatchedInOrder(filters, front);
      SubsequenceSnoc(Matched(filters, front), front, last);
      assert s == front + [last];
    }
  }

  /** And there are as many of each as in the list. */
  lemma {:induction false} MatchedCount(filters: seq<Pattern>, s: seq<Proxy>, p: Proxy)
    ensures multiset(Matched(filters, s))[p] ==
      if exists f :: 0 <= f < |filters| && filters[f](p.name) then multiset(s)[p] else 0
  {
    MatchedByIff(filters, p.name);
    if s == [] {
    } else {
      var front, last := s[..|s| - 1], s[|s| - 1];
      MatchedCount(filters, front, p);
      assert s == front + [last];
    }
  }

  lemma {:induction false} MatchedNames(filters: seq<Pattern>, s: seq<Proxy>, name: string)
    ensures HasName(Matched(filters, s), name) <==> HasName(s, name) && Rank(filters, name) < |filters|
    ensures HasName(Matched(filters, s), name) ==>
      Matched(filters, s)[FirstIdx(Matched(filters, s), name)] == s[FirstIdx(s, name)]
  {
    if s == [] {
    } else {
      var front, last := s[..|s| - 1], s[|s| - 1];
      var m := Matched(filters, front);
      MatchedNames(filters, front, name);
      assert s == front + [last];
      NameInSnoc(front, last, name);
      NameInSnoc(m, last, name);
      assert Matched(filters, s) == if Rank(filters, last.name) < |filters| then m + [last] else m;
    }
  }

  ghost predicate Before(s: seq<Proxy>, a: string, b: string) {
    HasName(s, a) && HasName(s, b) && FirstIdx(s, a) < FirstIdx(s, b)
  }

  /** One more entry at the end keeps the order of first occurrences. */
  lemma SnocBefore(front: seq<Proxy>, last: Proxy, a: string, b: string)
    ensures Before(front + [last], a, b) <==>
      Before(front, a, b) || (HasName(front, a) && !HasName(front, b) && last.name == b)
  {
    NameInSnoc(front, last, a);
    NameInSnoc(front, last, b);
  }

  lemma {:induction false} MatchedOrder(filters: seq<Pattern>, s: seq<Proxy>, a: string, b: string)
    requires Rank(filters, a) < |filters| && Rank(filters, b) < |filters|
    ensures Before(s, a, b) <==> Before(Matched(filters, s), a, b)
  {
    if s == [] {
    } else {
      var front, last := s[..|s| - 1], s[|s| - 1];
      var m := Matched(filters, front);
      assert s == front + [last];
      MatchedNames(filters, front, a);
      MatchedNames(filters, front, b);
      MatchedOrder(filters, front, a, b);
      SnocBefore(front, last, a, b);
      SnocBefore(m, last, a, b);
      assert Matched(filters, s) == if Rank(filters, last.name) < |filters| then m + [last] else m;
    }
  }

  /** The dedupe of a list up to the unmatched names is as good as its matched entries. */
  lemma DedupeStandsForMatched(filters: seq<Pattern>, s: seq<Proxy>, out: seq<Proxy>)
    requires RankedDedupe(filters, s, |filters|, out)
    ensures SameFirsts(filters, out, Matched(filters, s))
  {
    var t := Matched(filters, s);
    forall name
      ensures HasName(out, name) <==> HasName(t, name)
      ensures HasName(out, name) && HasName(t, name) ==> out[FirstIdx(out, name)] == t[FirstIdx(t, name)]
    {
      MatchedNames(filters, s, name);
      if HasName(out, name) {
        assert out[FirstIdx(out, name)].name == name;
      }
    }
    forall a, b | HasName(out, a) && HasName(out, b) && HasName(t, a) && HasName(t, b)
      ensures Earlier(filters, out, a, b) <==> Earlier(filters, t, a, b)
    {
      MatchedNames(filters, s, a);
      MatchedNames(filters, s, b);
      MatchedOrder(filters, s, a, b);
      var i, j := FirstIdx(out, a), FirstIdx(out, b);
      assert i < j ==> Earlier(filters, s, out[i].name, out[j].name);
      assert j < i ==> Earlier(filters, s, out[j].name, out[i].name);
    }
  }

  // ----- all providers together -----

  ghost function Flatten(lists: seq<seq<Proxy>>): seq<Proxy> {
    if lists == [] then [] else Flatten(lists[..|lists| - 1]) + lists[|lists| - 1]
  }

  /** What one provider contributes; a compatible provider is not filtered. */
  ghost predicate Contribution(filters: seq<Pattern>, p: Provider, out: seq<Proxy>) {
    if p.compatible || filters == [] then out == p.proxies else RankedDedupe(filters, p.proxies, |filters|, out)
  }

  ghost predicate Contributions(filters: seq<Pattern>, providers: seq<Provider>, lists: seq<seq<Proxy>>) {
    |lists| == |providers| && forall i :: 0 <= i < |lists| ==> Contribution(filters, providers[i], lists[i])
  }

  /** The entries that take part: all of a compatible provider, elsewhere those a filter matches. */
  ghost function Admitted(filters: seq<Pattern>, providers: seq<Provider>): seq<Proxy> {
    if providers == [] then []
    else
      var last := providers[|providers| - 1];
      Admitted(filters, providers[..|providers| - 1])
      + (if last.compatible then last.proxies else Matched(filters, last.proxies))
  }

  /**
   * The list before exclusions: with several providers and several filters, the admitted
   * entries as a whole, deduped and ranked, unmatched names last; otherwise the providers'
   * contributions one after the other.
   */
  ghost predicate Selected(filters: seq<Pattern>, providers: seq<Provider>, out: seq<Proxy>) {
    if |providers| > 1 && |filters| > 1 then
      RankedDedupe(filters, Admitted(filters, providers), |filters| + 1, out)
    else
      exists lists :: Contributions(filters, providers, lists) && out == Flatten(lists)
  }

  /**
   * With two providers and two filters or more, no name comes twice, whichever providers have
   * it, and what an earlier filter matches comes first, whichever provider it is from.
   */
  lemma SeveralAreRanked(filters: seq<Pattern>, providers: seq<Provider>, out: seq<Proxy>, k: nat, m: nat)
    requires |providers| >= 2 && |filters| >= 2 && Selected(filters, providers, out) && k < m < |out|
    ensures RankedDedupe(filters, Admitted(filters, providers), |filters| + 1, out)
    ensures out[k].name != out[m].name
    ensures forall f :: 0 <= f < |filters| && filters[f](out[m].name) ==>
      exists g :: 0 <= g <= f && filters[g](out[k].name)
  {
    var s := Admitted(filters, providers);
    DedupeFirsts(filters, s, |filters| + 1, out);
    assert FirstOfName(s, out[k]) && FirstOfName(s, out[m]);
    var i: nat :| IsFirst(s, i) && s[i] == out[k];
    var j: nat :| IsFirst(s, j) && s[j] == out[m];
    DedupeOrder(filters, s, |filters| + 1, out, k, m, i, j);
  }

  /** With one provider or one filter at most, what each provider contributes stands one after the other. */
  lemma FewAreJoined(filters: seq<Pattern>, providers: seq<Provider>, out: seq<Proxy>)
    requires (|providers| <= 1 || |filters| <= 1) && Selected(filters, providers, out)
    ensures exists lists :: Contributions(filters, providers, lists) && out == Flatten(lists)
  {
  }

  /** A single provider's list is left as it is if the provider is compatible, and filtered otherwise. */
  lemma OneProvider(filters: seq<Pattern>, p: Provider, out: seq<Proxy>)
    requires Selected(filters, [p], out)
    ensures p.compatible || filters == [] ==> out == p.proxies
    ensures !p.compatible && filters != [] ==> RankedDedupe(filters, p.proxies, |filters|, out)
  {
    var lists :| Contributions(filters, [p], lists) && out == Flatten(lists);
    assert Contribution(filters, [p][0], lists[0]);
    assert lists[..0] == [] && Flatten(lists) == [] + lists[0] == lists[0];
  }

  /** Without filters the lists of the providers stand one after the other. */
  lemma UnfilteredIsAll(providers: seq<Provider>, out: seq<Proxy>)
    ensures Selected([], providers, out) <==>
      out == Flatten(seq(|providers|, i requires 0 <= i < |providers| => providers[i].proxies))
  {
    var lists := seq(|providers|, i requires 0 <= i < |providers| => providers[i].proxies);
    assert Contributions([], providers, lists);
    forall other | Contributions([], providers, other) ensures other == lists {
      assert forall i :: 0 <= i < |other| ==> Contribution([], providers[i], other[i]);
    }
  }

  lemma {:induction false} NameInFlatten(lists: seq<seq<Proxy>>, name: string)
    ensures HasName(Flatten(lists), name) <==> exists i :: 0 <= i < |lists| && HasName(lists[i], name)
  {
    if lists == [] {
    } else {
      var front, last := lists[..|lists| - 1], lists[|lists| - 1];
      NameInFlatten(front, name);
      NameInConcat(Flatten(front), last, name);
      assert lists == front + [last];
    }
  }

  /**
   * With filters a name is there exactly if a compatible provider has it, or another one has it and a
   * filter matches.
   */
  lemma SelectedNames(filters: seq<Pattern>, providers: seq<Provider>, out: seq<Proxy>, name: string)
    requires filters != [] && Selected(filters, providers, out)
    ensures (exists k :: 0 <= k < |out| && out[k].name == name) <==>
      exists i :: 0 <= i < |providers| && Offers(filters, providers[i], name)
  {
    if |providers| > 1 && |filters| > 1 {
      DedupeNames(filters, Admitted(filters, providers), true, out, name);
      AdmittedNames(filters, providers, name);
      assert HasName(out, name) <==> HasName(Admitted(filters, providers), name);
    } else {
      var lists :| Contributions(filters, providers, lists) && out == Flatten(lists);
      NameInFlatten(lists, name);
      forall i | 0 <= i < |lists| ensures HasName(lists[i], name) <==> Offers(filters, providers[i], name) {
        assert Contribution(filters, providers[i], lists[i]);
        if !providers[i].compatible {
          DedupeNames(filters, providers[i].proxies, false, lists[i], name);
        }
      }
      assert HasName(out, name) <==> exists k :: 0 <= k < |out| && out[k].name == name;
    }
  }

  ghost predicate Offers(filters: seq<Pattern>, p: Provider, name: string) {
    && (exists j :: 0 <= j < |p.proxies| && p.proxies[j].name == name)
    && (p.compatible || exists f :: 0 <= f < |filters| && filters[f](name))
  }

  lemma {:induction false} AdmittedNames(filters: seq<Pattern>, providers: seq<Provider>, name: string)
    ensures HasName(Admitted(filters, providers), name) <==>
      exists i :: 0 <= i < |providers| && Offers(filters, providers[i], name)
  {
    if providers == [] {
    } else {
      var front, last := providers[..|providers| - 1], providers[|providers| - 1];
      AdmittedNames(filters, front, name);
      var part := if last.compatible then last.proxies else Matched(filters, last.proxies);
      PartNames(filters, last, name);
      NameInConcat(Admitted(filters, front), part, name);
      assert Admitted(filters, providers) == Admitted(filters, front) + part;
      SomeOffers(filters, providers, front, name);
    }
  }

  lemma PartNames(filters: seq<Pattern>, p: Provider, name: string)
    ensures HasName(if p.compatible then p.proxies else Matched(filters, p.proxies), name) <==> Offers(filters, p, name)
  {
    MatchedNames(filters, p.proxies, name);
    MatchedByIff(filters, name);
  }

  lemma SomeOffers(filters: seq<Pattern>, providers: seq<Provider>, front: seq<Provider>, name: string)
    requires providers != [] && front == providers[..|providers| - 1]
    ensures (exists i :: 0 <= i < |providers| && Offers(filters, providers[i], name)) <==>
      || (exists i :: 0 <= i < |front| && Offers(filters, front[i], name))
      || Offers(filters, providers[|providers| - 1], name)
  {
    if i :| 0 <= i < |providers| && Offers(filters, providers[i], name) {
      if i < |front| {
        assert front[i] == providers[i];
      }
    }
    if i :| 0 <= i < |front| && Offers(filters, front[i], name) {
      assert front[i] == providers[i];
    }
  }

  lemma SameFirstsReflexive(filters: seq<Pattern>, s: seq<Proxy>)
    ensures SameFirsts(filters, s, s)
  {
  }

  lemma {:induction false} ContributionsStandForAdmitted(filters: seq<Pattern>, providers: seq<Provider>,
                                                         lists: seq<seq<Proxy>>)
    requires filters != [] && Contributions(filters, providers, lists)
    ensures SameFirsts(filters, Flatten(lists), Admitted(filters, providers))
  {
    if providers == [] {
    } else {
      var n := |providers| - 1;
      ContributionsStandForAdmitted(filters, providers[..n], lists[..n]);
      assert Contribution(filters, providers[n], lists[n]);
      if providers[n].compatible {
        SameFirstsReflexive(filters, lists[n]);
        SameFirstsConcat(filters, Flatten(lists[..n]), Admitted(filters, providers[..n]), lists[n], lists[n]);
      } else {
        DedupeStandsForMatched(filters, providers[n].proxies, lists[n]);
        SameFirstsConcat(filters, Flatten(lists[..n]), Admitted(filters, providers[..n]),
          lists[n], Matched(filters, providers[n].proxies));
      }
    }
  }

  lemma FlattenSnoc(lists: seq<seq<Proxy>>, last: seq<Proxy>)
    ensures Flatten(lists + [last]) == Flatten(lists) + last
  {
    FrontOfSnoc(lists, last);
  }

  method Contribute(filters: seq<Pattern>, p: Provider) returns (out: seq<Proxy>)
    ensures Contribution(filters, p, out)
  {
    if p.compatible || filters == [] {
      out := p.proxies;
    } else {
      out := FilterMajor(filters, p.proxies, false);
    }
  }

  method Select(filters: seq<Pattern>, providers: seq<Provider>) returns (proxies: seq<Proxy>)
    ensures Selected(filters, providers, proxies)
  {
    proxies := [];
    ghost var lists: seq<seq<Proxy>> := [];
    for i := 0 to |providers|
      invariant Contributions(filters, providers[..i], lists) && proxies == Flatten(lists)
    {
      var part := Contribute(filters, providers[i]);
      FlattenSnoc(lists, part);
      proxies := proxies + part;
      lists := lists + [part];
    }
    WholePrefix(providers);
    if |providers| > 1 && |filters| > 1 {
      ContributionsStandForAdmitted(filters, providers, lists);
      var all := proxies;
      proxies := FilterMajor(filters, all, true);
      SameFirstsSameDedupe(filters, all, Admitted(filters, providers), |filters| + 1, proxies);
    }
  }

  lemma ContributionsUnique(filters: seq<Pattern>, providers: seq<Provider>, a: seq<seq<Proxy>>, b: seq<seq<Proxy>>)
    requires Contributions(filters, providers, a) && Contributions(filters, providers, b)
    ensures a == b
  {
    forall i | 0 <= i < |a| ensures a[i] == b[i] {
      assert Contribution(filters, providers[i], a[i]) && Contribution(filters, providers[i], b[i]);
      if !providers[i].compatible && filters != [] {
        DedupeIsUnique(filters, providers[i].proxies, |filters|, a[i], b[i]);
      }
    }
  }

  lemma SelectedIsUnique(filters: seq<Pattern>, providers: seq<Provider>, a: seq<Proxy>, b: seq<Proxy>)
    requires Selected(filters, providers, a) && Selected(filters, providers, b)
    ensures a == b
  {
    if |providers| > 1 && |filters| > 1 {
      DedupeIsUnique(filters, Admitted(filters, providers), |filters| + 1, a, b);
    } else {
      var la :| Contributions(filters, providers, la) && a == Flatten(la);
      var lb :| Contributions(filters, providers, lb) && b == Flatten(lb);
      ContributionsUnique(filters, providers, la, lb);
    }
  }

  // ----- exclusions -----

  /** The subsequence of the entries that `keep` accepts. */
  ghost function Subsequence(keep: Proxy -> bool, s: seq<Proxy>): seq<Proxy> {
    if s == [] then []
    else
      var rest := Subsequence(keep, s[..|s| - 1]);
      if keep(s[|s| - 1]) then rest + [s[|s| - 1]] else rest
  }

  /** Of each entry as many as there were, if it is accepted, and in their order. */
  lemma {:induction false} SubsequenceIs(keep: Proxy -> bool, s: seq<Proxy>)
    ensures IsSubsequence(Subsequence(keep, s), s)
    ensures forall p: Proxy :: multiset(Subsequence(keep, s))[p] == if keep(p) then multiset(s)[p] else 0
  {
    if s == [] {
      SubsequenceOfItself<Proxy>([]);
    } else {
      var front, last := s[..|s| - 1], s[|s| - 1];
      SubsequenceIs(keep, front);
      SubsequenceSnoc(Subsequence(keep, front), front, last);
      assert s == front + [last];
    }
  }

  lemma SubsequenceNext(keep: Proxy -> bool, s: seq<Proxy>, i: nat)
    requires i < |s|
    ensures Subsequence(keep, s[..i + 1]) == Subsequence(keep, s[..i]) + (if keep(s[i]) then [s[i]] else [])
  {
    assert s[..i + 1][..i] == s[..i];
  }

  lemma {:induction false} SubsequenceTwice(p: Proxy -> bool, q: Proxy -> bool, both: Proxy -> bool, s: seq<Proxy>)
    requires forall x :: both(x) <==> p(x) && q(x)
    ensures Subsequence(q, Subsequence(p, s)) == Subsequence(both, s)
  {
    if s == [] {
    } else {
      var front, last := s[..|s| - 1], s[|s| - 1];
      SubsequenceTwice(p, q, both, front);
      if p(last) {
        FrontOfSnoc(Subsequence(p, front), last);
      }
    }
  }

  lemma {:induction false} SubsequenceAll(keep: Proxy -> bool, s: seq<Proxy>)
    requires forall x :: keep(x)
    ensures Subsequence(keep, s) == s
  {
    if s == [] {
    } else {
      SubsequenceAll(keep, s[..|s| - 1]);
      assert s == s[..|s| - 1] + [s[|s| - 1]];
    }
  }

  ghost function KeepsName(patterns: seq<Pattern>): Proxy -> bool {
    (p: Proxy) => forall i :: 0 <= i < |patterns| ==> !patterns[i](p.name)
  }

  method ExcludeNames(patterns: seq<Pattern>, s: seq<Proxy>) returns (out: seq<Proxy>)
    ensures out == Subsequence(KeepsName(patterns), s)
  {
    out := [];
    for i := 0 to |s|
      invariant out == Subsequence(KeepsName(patterns), s[..i])
    {
      var j := 0;
      while j < |patterns| && !patterns[j](s[i].name)
        invariant j <= |patterns|
        invariant forall k :: 0 <= k < j ==> !patterns[k](s[i].name)
      {
        j := j + 1;
      }
      SubsequenceNext(KeepsName(patterns), s, i);
      if j == |patterns| {
        out := out + [s[i]];
      }
    }
    WholePrefix(s);
  }

  ghost function KeepsKind(sameKind: (string, string) -> bool, kinds: seq<string>): Proxy -> bool {
    (p: Proxy) => forall i :: 0 <= i < |kinds| ==> !sameKind(p.kind, kinds[i])
  }

  method ExcludeKinds(sameKind: (string, string) -> bool, kinds: seq<string>, s: seq<Proxy>) returns (out: seq<Proxy>)
    ensures out == Subsequence(KeepsKind(sameKind, kinds), s)
  {
    out := [];
    for i := 0 to |s|
      invariant out == Subsequence(KeepsKind(sameKind, kinds), s[..i])
    {
      var j := 0;
      while j < |kinds| && !sameKind(s[i].kind, kinds[j])
        invariant j <= |kinds|
        invariant forall k :: 0 <= k < j ==> !sameKind(s[i].kind, kinds[k])
      {
        j := j + 1;
      }
      SubsequenceNext(KeepsKind(sameKind, kinds), s, i);
      if j == |kinds| {
        out := out + [s[i]];
      }
    }
    WholePrefix(s);
  }

  // ----- the cached operation -----

  datatype Config = Config(filters: seq<Pattern>, excludeNames: seq<Pattern>, excludeKinds: Option<seq<string>>,
    sameKind: (string, string) -> bool, fallback: Proxy)

  ghost function Kept(cfg: Config): Proxy -> bool {
    (p: Proxy) =>
      && KeepsName(cfg.excludeNames)(p)
      && (cfg.excludeKinds.Some? ==> KeepsKind(cfg.sameKind, cfg.excludeKinds.value)(p))
  }

  /** An excluding pattern hits the name, or the kind is excluded. */
  ghost predicate Excluded(cfg: Config, p: Proxy) {
    || (exists i :: 0 <= i < |cfg.excludeNames| && cfg.excludeNames[i](p.name))
    || (cfg.excludeKinds.Some?
        && exists i :: 0 <= i < |cfg.excludeKinds.value| && cfg.sameKind(p.kind, cfg.excludeKinds.value[i]))
  }

  /** What GetProxies promises for a snapshot of the providers, with no cache in sight. */
  ghost predicate Answer(cfg: Config, providers: seq<Provider>, out: seq<Proxy>) {
    exists all :: Selected(cfg.filters, providers, all)
      && out == (if Subsequence(Kept(cfg), all) == [] then [cfg.fallback] else Subsequence(Kept(cfg), all))
  }

  /** A snapshot has one answer, so a cached answer and a fresh one are the same list. */
  lemma AnswerIsUnique(cfg: Config, providers: seq<Provider>, a: seq<Proxy>, b: seq<Proxy>)
    requires Answer(cfg, providers, a) && Answer(cfg, providers, b)
    ensures a == b && a != []
  {
    var x :| Selected(cfg.filters, providers, x)
      && a == (if Subsequence(Kept(cfg), x) == [] then [cfg.fallback] else Subsequence(Kept(cfg), x));
    var y :| Selected(cfg.filters, providers, y)
      && b == (if Subsequence(Kept(cfg), y) == [] then [cfg.fallback] else Subsequence(Kept(cfg), y));
    SelectedIsUnique(cfg.filters, providers, x, y);
  }

  /** Exactly the excluded entries are left out; if that leaves none the fallback stands for them. */
  ghost predicate LeavesOut(cfg: Config, all: seq<Proxy>, out: seq<Proxy>) {
    if forall p :: p in all ==> Excluded(cfg, p) then out == [cfg.fallback]
    else
      && IsSubsequence(out, all)
      && forall p: Proxy :: multiset(out)[p] == if Excluded(cfg, p) then 0 else multiset(all)[p]
  }

  lemma KeptLeavesOut(cfg: Config, all: seq<Proxy>)
    ensures var out := Subsequence(Kept(cfg), all); LeavesOut(cfg, all, if out == [] then [cfg.fallback] else out)
  {
    KeptIff(cfg);
    SubsequenceIs(Kept(cfg), all);
    EmptyIff(Kept(cfg), all);
  }

  /** An answer leaves out exactly the excluded entries of what is selected. */
  lemma AnswerExcludes(cfg: Config, providers: seq<Provider>, out: seq<Proxy>)
    requires Answer(cfg, providers, out)
    ensures exists all :: Selected(cfg.filters, providers, all) && LeavesOut(cfg, all, out)
  {
    var all :| Selected(cfg.filters, providers, all)
      && out == (if Subsequence(Kept(cfg), all) == [] then [cfg.fallback] else Subsequence(Kept(cfg), all));
    KeptLeavesOut(cfg, all);
  }

  lemma {:induction false} EmptyIff(keep: Proxy -> bool, s: seq<Proxy>)
    ensures Subsequence(keep, s) == [] <==> forall p :: p in s ==> !keep(p)
  {
    if s == [] {
    } else {
      var front, last := s[..|s| - 1], s[|s| - 1];
      EmptyIff(keep, front);
      assert s == front + [last];
    }
  }

  lemma KeptIff(cfg: Config)
    ensures forall p :: Kept(cfg)(p) <==> !Excluded(cfg, p)
    ensures forall p :: Excluded(cfg, p) <==>
      || (exists i :: 0 <= i < |cfg.excludeNames| && cfg.excludeNames[i](p.name))
      || (cfg.excludeKinds.Some?
          && exists i :: 0 <= i < |cfg.excludeKinds.value| && cfg.sameKind(p.kind, cfg.excludeKinds.value[i]))
  {
    forall p ensures Kept(cfg)(p) <==> !Excluded(cfg, p) {
      assert KeepsName(cfg.excludeNames)(p) <==>
        forall i :: 0 <= i < |cfg.excludeNames| ==> !cfg.excludeNames[i](p.name);
      if cfg.excludeKinds.Some? {
        var kinds := cfg.excludeKinds.value;
        assert KeepsKind(cfg.sameKind, kinds)(p) <==> forall i :: 0 <= i < |kinds| ==> !cfg.sameKind(p.kind, kinds[i]);
      }
    }
  }

  /** The two exclusion loops leave the entries that both accept. */
  method Exclude(cfg: Config, all: seq<Proxy>) returns (proxies: seq<Proxy>)
    ensures proxies == Subsequence(Kept(cfg), all)
    ensures IsSubsequence(proxies, all)
    ensures forall p: Proxy :: multiset(proxies)[p] == if Excluded(cfg, p) then 0 else multiset(all)[p]
  {
    KeptIff(cfg);
    SubsequenceIs(Kept(cfg), all);
    proxies := all;
    if |cfg.excludeNames| > 0 {
      proxies := ExcludeNames(cfg.excludeNames, proxies);
    } else {
      SubsequenceAll(KeepsName(cfg.excludeNames), all);
    }
    if cfg.excludeKinds.Some? {
      SubsequenceTwice(KeepsName(cfg.excludeNames), KeepsKind(cfg.sameKind, cfg.excludeKinds.value), Kept(cfg), all);
      proxies := ExcludeKinds(cfg.sameKind, cfg.excludeKinds.value, proxies);
    } else {
      SubsequenceCongruent(KeepsName(cfg.excludeNames), Kept(cfg), all);
    }
  }

  lemma {:induction false} SubsequenceCongruent(p: Proxy -> bool, q: Proxy -> bool, s: seq<Proxy>)
    requires forall x :: p(x) <==> q(x)
    ensures Subsequence(p, s) == Subsequence(q, s)
  {
    if s == [] {
    } else {
      SubsequenceCongruent(p, q, s[..|s| - 1]);
    }
  }

  function Versions(providers: seq<Provider>): (r: seq<nat>)
    ensures |r| == |providers| && forall i :: 0 <= i < |r| ==> r[i] == providers[i].version
  {
    seq(|providers|, i requires 0 <= i < |providers| => providers[i].version)
  }

  class GroupBase {
    const cfg: Config
    var providerVersions: seq<nat>
    var providerProxies: seq<Proxy>
    /** What provider i holds at version v. */
    ghost const contents: (nat, nat) -> Provider

    constructor (cfg: Config, ghost contents: (nat, nat) -> Provider)
      ensures Valid() && this.cfg == cfg && this.contents == contents && providerVersions == []
    {
      this.cfg := cfg;
      this.contents := contents;
      providerVersions := [];
      providerProxies := [];
    }

    /** The snapshot shows each provider as it is at its version. */
    ghost predicate Versioned(providers: seq<Provider>) {
      forall i: nat :: i < |providers| ==> providers[i] == contents(i, providers[i].version)
    }

    ghost function At(versions: seq<nat>): seq<Provider> {
      seq(|versions|, i requires 0 <= i < |versions| => contents(i, versions[i]))
    }

    ghost predicate Valid()
      reads this
    {
      if providerVersions == [] then providerProxies == []
      else Answer(cfg, At(providerVersions), providerProxies)
    }

    /** With a provider the answer is right, cached or not; a group without providers gets an empty list. */
    method GetProxies(providers: seq<Provider>) returns (proxies: seq<Proxy>)
      requires Valid() && Versioned(providers)
      modifies this
      ensures Valid()
      ensures providers != [] ==> Answer(cfg, providers, proxies) && proxies != []
      ensures providers == [] && old(providerVersions) == [] ==> proxies == []
      ensures (providerVersions == Versions(providers) && providerProxies == proxies) || proxies == [cfg.fallback]
      ensures providerVersions == old(providerVersions) ==> providerProxies == old(providerProxies)
    {
      var versions := Versions(providers);
      assert At(versions) == providers;
      if versions == providerVersions {
        proxies := providerProxies;
        if providers != [] {
          AnswerIsUnique(cfg, providers, proxies, proxies);
        }
        return;
      }
      var all := Select(cfg.filters, providers);
      proxies := Exclude(cfg, all);
      if proxies == [] {
        proxies := [cfg.fallback];
        return;
      }
      providerVersions := versions;
      providerProxies := proxies;
    }
  }
}
