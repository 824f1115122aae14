/**
 * Finite reference graphs between names. The configuration checks (proxy groups, sub-rules,
 * host aliases) all speak of such graphs; what a cycle is, and which names lie between
 * cycles, is defined here once, independently of any of the checking algorithms.
 */
module Graphs {
  import opened Prelude

  type Graph<T> = map<T, set<T>>

  ghost predicate Edge<T(!new)>(g: Graph<T>, a: T, b: T) {
    a in g && b in g[a]
  }

  /** A walk follows edges from its first name to its last; a single name is a walk. */
  ghost predicate IsWalk<T(!new)>(g: Graph<T>, p: seq<T>) {
    && p != []
    && forall i :: 0 <= i < |p| - 1 ==> Edge(g, p[i], p[i + 1])
  }

  /** A cycle is a walk of at least one edge that returns to its start. */
  ghost predicate IsCycle<T(!new)>(g: Graph<T>, p: seq<T>) {
    IsWalk(g, p) && |p| >= 2 && p[0] == p[|p| - 1]
  }

  ghost predicate Acyclic<T(!new)>(g: Graph<T>) {
    forall p :: !IsCycle(g, p)
  }

  ghost predicate HasPred<T(!new)>(g: Graph<T>, s: set<T>, x: T) {
    exists a :: a in s && Edge(g, a, x)
  }

  ghost predicate HasSucc<T(!new)>(g: Graph<T>, s: set<T>, x: T) {
    exists b :: b in s && Edge(g, x, b)
  }

  /** Every member of the set is referenced by a member. */
  ghost predicate PredClosed<T(!new)>(g: Graph<T>, s: set<T>) {
    forall x {:trigger HasPred(g, s, x)} :: x in s ==> HasPred(g, s, x)
  }

  /** Every member of the set references a member. */
  ghost predicate SuccClosed<T(!new)>(g: Graph<T>, s: set<T>) {
    forall x {:trigger HasSucc(g, s, x)} :: x in s ==> HasSucc(g, s, x)
  }

  ghost predicate BiClosed<T(!new)>(g: Graph<T>, s: set<T>) {
    PredClosed(g, s) && SuccClosed(g, s)
  }

  /** The largest set in which everybody both references and is referenced by a member. */
  ghost predicate IsGreatestBiClosed<T(!new)>(g: Graph<T>, s: set<T>) {
    && BiClosed(g, s)
    && forall t :: BiClosed(g, t) ==> t <= s
  }

  /** x lies on a walk that starts on one cycle and ends on another (or the same) one. */
  ghost predicate BetweenCycles<T(!new)>(g: Graph<T>, x: T) {
    exists back, forth ::
      && Reaches(g, back, x) && OnCycle(g, back)
      && Reaches(g, x, forth) && OnCycle(g, forth)
  }

  ghost predicate Reaches<T(!new)>(g: Graph<T>, a: T, b: T) {
    exists p :: IsWalk(g, p) && p[0] == a && p[|p| - 1] == b
  }

  ghost predicate OnCycle<T(!new)>(g: Graph<T>, x: T) {
    exists p :: IsCycle(g, p) && p[0] == x
  }

  // ----- walks -----

  lemma WalkSlice<T(!new)>(g: Graph<T>, p: seq<T>, lo: nat, hi: nat)
    requires IsWalk(g, p) && lo < hi <= |p|
    ensures IsWalk(g, p[lo..hi])
  {
    var q := p[lo..hi];
    forall i | 0 <= i < |q| - 1 ensures Edge(g, q[i], q[i + 1]) {
      assert Edge(g, p[lo + i], p[lo + i + 1]);
    }
  }

  lemma WalkJoin<T(!new)>(g: Graph<T>, p: seq<T>, q: seq<T>)
    requires IsWalk(g, p) && IsWalk(g, q) && p[|p| - 1] == q[0]
    ensures IsWalk(g, p + q[1..])
    ensures (p + q[1..])[|p + q[1..]| - 1] == q[|q| - 1]
  {
    var r := p + q[1..];
    forall i | 0 <= i < |r| - 1 ensures Edge(g, r[i], r[i + 1]) {
      if i < |p| - 1 {
        assert Edge(g, p[i], p[i + 1]);
      } else {
        var k := i - (|p| - 1);
        assert Edge(g, q[k], q[k + 1]);
      }
    }
  }

  lemma ReachesTransitive<T(!new)>(g: Graph<T>, a: T, b: T, c: T)
    requires Reaches(g, a, b) && Reaches(g, b, c)
    ensures Reaches(g, a, c)
  {
    var p :| IsWalk(g, p) && p[0] == a && p[|p| - 1] == b;
    var q :| IsWalk(g, q) && q[0] == b && q[|q| - 1] == c;
    WalkJoin(g, p, q);
    var r := p + q[1..];
    assert r[0] == a;
  }

  lemma ReachesEdge<T(!new)>(g: Graph<T>, a: T, b: T)
    requires Edge(g, a, b)
    ensures Reaches(g, a, b)
  {
    var p := [a, b];
    assert IsWalk(g, p) && p[0] == a && p[|p| - 1] == b;
  }

  lemma ReachesSelf<T(!new)>(g: Graph<T>, a: T)
    ensures Reaches(g, a, a)
  {
    var p := [a];
    assert IsWalk(g, p) && p[0] == a && p[|p| - 1] == a;
  }

  /** A walk that meets the same name twice contains a cycle. */
  lemma RepeatIsCycle<T(!new)>(g: Graph<T>, p: seq<T>, i: nat, j: nat)
    requires IsWalk(g, p) && i < j < |p| && p[i] == p[j]
    ensures IsCycle(g, p[i..j + 1])
  {
    WalkSlice(g, p, i, j + 1);
  }

  lemma CycleRefutesAcyclic<T(!new)>(g: Graph<T>, p: seq<T>)
    requires IsCycle(g, p)
    ensures !Acyclic(g)
  {
  }

  // ----- cycles and closed sets -----

  /** The names of a cycle reference, and are referenced by, one another. */
  lemma CycleIsBiClosed<T(!new)>(g: Graph<T>, p: seq<T>)
    requires IsCycle(g, p)
    ensures BiClosed(g, Elements(p))
  {
    var s := Elements(p);
    forall x | x in s ensures HasPred(g, s, x) && HasSucc(g, s, x) {
      var k :| 0 <= k < |p| && p[k] == x;
      var a := if k == 0 then |p| - 2 else k - 1;
      var b := if k == |p| - 1 then 1 else k + 1;
      assert p[a] in s && Edge(g, p[a], p[a + 1]);
      assert p[b] in s && Edge(g, p[b - 1], p[b]);
    }
  }

  /** Inside a set where everybody is referenced one can walk backwards for ever. */
  lemma {:induction false} BackwardWalk<T(!new)>(g: Graph<T>, s: set<T>, x: T, n: nat) returns (p: seq<T>)
    requires PredClosed(g, s) && x in s
    ensures IsWalk(g, p) && |p| == n + 1 && p[n] == x
    ensures forall y :: y in p ==> y in s
  {
    if n == 0 {
      p := [x];
    } else {
      assert HasPred(g, s, x);
      var a :| a in s && Edge(g, a, x);
      var q := BackwardWalk(g, s, a, n - 1);
      p := q + [x];
    }
  }

  lemma {:induction false} ForwardWalk<T(!new)>(g: Graph<T>, s: set<T>, x: T, n: nat) returns (p: seq<T>)
    requires SuccClosed(g, s) && x in s
    ensures IsWalk(g, p) && |p| == n + 1 && p[0] == x
    ensures forall y :: y in p ==> y in s
  {
    if n == 0 {
      p := [x];
    } else {
      assert HasSucc(g, s, x);
      var b :| b in s && Edge(g, x, b);
      var q := ForwardWalk(g, s, b, n - 1);
      p := [x] + q;
    }
  }

  /** In a predecessor-closed set every member is reached from a cycle. */
  lemma PredClosedComesFromCycle<T(!new)>(g: Graph<T>, s: set<T>, x: T)
    requires PredClosed(g, s) && x in s
    ensures exists c :: OnCycle(g, c) && Reaches(g, c, x)
  {
    var p := BackwardWalk(g, s, x, |s|);
    var i, j := Pigeonhole(p, s);
    RepeatIsCycle(g, p, i, j);
    var cycle := p[i..j + 1];
    WalkSlice(g, p, i, |p|);
    var tail := p[i..];
    assert IsCycle(g, cycle) && cycle[0] == p[i];
    assert IsWalk(g, tail) && tail[0] == p[i] && tail[|tail| - 1] == x;
    assert OnCycle(g, p[i]) && Reaches(g, p[i], x);
  }

  lemma SuccClosedLeadsToCycle<T(!new)>(g: Graph<T>, s: set<T>, x: T)
    requires SuccClosed(g, s) && x in s
    ensures exists c :: OnCycle(g, c) && Reaches(g, x, c)
  {
    var p := ForwardWalk(g, s, x, |s|);
    var i, j := Pigeonhole(p, s);
    RepeatIsCycle(g, p, i, j);
    var cycle := p[i..j + 1];
    WalkSlice(g, p, 0, i + 1);
    var head := p[..i + 1];
    assert IsCycle(g, cycle) && cycle[0] == p[i];
    assert IsWalk(g, head) && head[0] == x && head[|head| - 1] == p[i];
    assert OnCycle(g, p[i]) && Reaches(g, x, p[i]);
  }

  /** A graph has no cycle exactly when no non-empty set of names is predecessor-closed. */
  lemma AcyclicIffNoPredClosed<T(!new)>(g: Graph<T>)
    ensures Acyclic(g) <==> forall s :: PredClosed(g, s) ==> s == {}
  {
    if Acyclic(g) {
      forall s | PredClosed(g, s) ensures s == {} {
        if x :| x in s {
          PredClosedComesFromCycle(g, s, x);
          assert false;
        }
      }
    } else {
      var p :| IsCycle(g, p);
      CycleIsBiClosed(g, p);
      assert p[0] in Elements(p);
    }
  }

  /** If some measure falls along every edge there is no cycle. */
  lemma RankImpliesAcyclic<T(!new)>(g: Graph<T>, rank: map<T, int>)
    requires forall a, b :: Edge(g, a, b) ==> a in rank && b in rank && rank[b] < rank[a]
    ensures Acyclic(g)
  {
    forall p | IsCycle(g, p) ensures false {
      RankFalls(g, rank, p, |p| - 1);
    }
  }

  lemma {:induction false} RankFalls<T(!new)>(g: Graph<T>, rank: map<T, int>, p: seq<T>, k: nat)
    requires forall a, b :: Edge(g, a, b) ==> a in rank && b in rank && rank[b] < rank[a]
    requires IsWalk(g, p) && 0 < k < |p|
    ensures p[0] in rank && p[k] in rank && rank[p[k]] < rank[p[0]]
  {
    assert Edge(g, p[k - 1], p[k]);
    if k > 1 {
      RankFalls(g, rank, p, k - 1);
    }
  }

  /** Neighbours inside a set stay neighbours inside a larger one. */
  lemma BiClosedGrows<T(!new)>(g: Graph<T>, s: set<T>, t: set<T>, x: T)
    requires BiClosed(g, s) && x in s && s <= t
    ensures HasPred(g, t, x) && HasSucc(g, t, x)
  {
    assert HasPred(g, s, x) && HasSucc(g, s, x);
  }

  /** A cycle, a walk leading away from it, and a cycle at the end of that walk. */
  lemma WalkBetweenCyclesIsBiClosed<T(!new)>(g: Graph<T>, front: seq<T>, mid: seq<T>, back: seq<T>)
    requires IsCycle(g, front) && IsWalk(g, mid) && IsCycle(g, back)
    requires front[0] == mid[0] && mid[|mid| - 1] == back[0]
    ensures BiClosed(g, Elements(front) + Elements(mid) + Elements(back))
  {
    var s := Elements(front) + Elements(mid) + Elements(back);
    CycleIsBiClosed(g, front);
    CycleIsBiClosed(g, back);
    forall x | x in s ensures HasPred(g, s, x) && HasSucc(g, s, x) {
      if x in Elements(front) {
        BiClosedGrows(g, Elements(front), s, x);
      } else if x in Elements(back) {
        BiClosedGrows(g, Elements(back), s, x);
      } else {
        var k :| 0 <= k < |mid| && mid[k] == x;
        assert 0 < k < |mid| - 1;
        assert mid[k - 1] in s && Edge(g, mid[k - 1], mid[k]);
        assert mid[k + 1] in s && Edge(g, mid[k], mid[k + 1]);
      }
    }
  }

  /** The greatest bi-closed set is exactly the set of names on a walk from cycle to cycle. */
  lemma GreatestBiClosedIsBetweenCycles<T(!new)>(g: Graph<T>, s: set<T>, x: T)
    requires IsGreatestBiClosed(g, s)
    ensures x in s <==> BetweenCycles(g, x)
  {
    if x in s {
      PredClosedComesFromCycle(g, s, x);
      SuccClosedLeadsToCycle(g, s, x);
    }
    if BetweenCycles(g, x) {
      var back, forth :| Reaches(g, back, x) && OnCycle(g, back) && Reaches(g, x, forth) && OnCycle(g, forth);
      var p :| IsWalk(g, p) && p[0] == back && p[|p| - 1] == x;
      var q :| IsWalk(g, q) && q[0] == x && q[|q| - 1] == forth;
      var front :| IsCycle(g, front) && front[0] == back;
      var rear :| IsCycle(g, rear) && rear[0] == forth;
      WalkJoin(g, p, q);
      var mid := p + q[1..];
      WalkBetweenCyclesIsBiClosed(g, front, mid, rear);
      assert mid[|p| - 1] == x;
      assert x in Elements(mid);
    }
  }

  /** Loops that reach one another do so both ways: no loop leads to another one. */
  ghost predicate LoopsApart<T(!new)>(g: Graph<T>) {
    forall x, y {:trigger Reaches(g, x, y)} :: OnCycle(g, x) && OnCycle(g, y) && Reaches(g, x, y) ==> Reaches(g, y, x)
  }

  lemma LoopReachesBack<T(!new)>(g: Graph<T>, x: T, y: T)
    requires LoopsApart(g) && OnCycle(g, x) && OnCycle(g, y) && Reaches(g, x, y)
    ensures Reaches(g, y, x)
  {
  }

  lemma ThereAndBack<T(!new)>(g: Graph<T>, x: T, y: T)
    requires x != y && Reaches(g, x, y) && Reaches(g, y, x)
    ensures OnCycle(g, x)
  {
    var p :| IsWalk(g, p) && p[0] == x && p[|p| - 1] == y;
    var q :| IsWalk(g, q) && q[0] == y && q[|q| - 1] == x;
    WalkJoin(g, p, q);
    var r := p + q[1..];
    assert IsCycle(g, r) && r[0] == x;
  }

  lemma BetweenIsOnCycle<T(!new)>(g: Graph<T>, x: T, back: T, forth: T)
    requires LoopsApart(g) && OnCycle(g, back) && OnCycle(g, forth) && Reaches(g, back, x) && Reaches(g, x, forth)
    ensures OnCycle(g, x)
  {
    if x != forth {
      ReachesTransitive(g, back, x, forth);
      LoopReachesBack(g, back, forth);
      ReachesTransitive(g, forth, back, x);
      ThereAndBack(g, x, forth);
    }
  }

  lemma OnCycleIsBetween<T(!new)>(g: Graph<T>, x: T)
    requires OnCycle(g, x)
    ensures BetweenCycles(g, x)
  {
    ReachesSelf(g, x);
  }

  /** Where no loop leads to another, to lie between loops is to lie on one. */
  lemma BetweenLoopsApart<T(!new)>(g: Graph<T>, x: T)
    requires LoopsApart(g)
    ensures BetweenCycles(g, x) <==> OnCycle(g, x)
  {
    if OnCycle(g, x) {
      OnCycleIsBetween(g, x);
    }
    if BetweenCycles(g, x) {
      var back, forth :| Reaches(g, back, x) && OnCycle(g, back) && Reaches(g, x, forth) && OnCycle(g, forth);
      BetweenIsOnCycle(g, x, back, forth);
    }
  }

  ghost predicate LeadsToCycle<T(!new)>(g: Graph<T>, x: T) {
    exists forth :: Reaches(g, x, forth) && OnCycle(g, forth)
  }

  /** A name on a loop references one that is on none, and that leads to a loop again. */
  ghost predicate Detour<T(!new)>(g: Graph<T>, a: T, b: T) {
    OnCycle(g, a) && Edge(g, a, b) && !OnCycle(g, b) && LeadsToCycle(g, b)
  }

  ghost predicate NoDetour<T(!new)>(g: Graph<T>) {
    forall a, b :: !Detour(g, a, b)
  }

  lemma DetourIsBetween<T(!new)>(g: Graph<T>, a: T, b: T)
    requires Detour(g, a, b)
    ensures BetweenCycles(g, b) && !OnCycle(g, b)
  {
    ReachesEdge(g, a, b);
    var forth :| Reaches(g, b, forth) && OnCycle(g, forth);
  }

  /** Where a walk that starts on a loop first leaves the loops. */
  lemma FirstOffCycle<T(!new)>(g: Graph<T>, p: seq<T>) returns (i: nat)
    requires IsWalk(g, p) && OnCycle(g, p[0]) && !OnCycle(g, p[|p| - 1])
    ensures i + 1 < |p| && OnCycle(g, p[i]) && !OnCycle(g, p[i + 1])
  {
    i := 0;
    while OnCycle(g, p[i + 1])
      invariant i + 1 < |p| && OnCycle(g, p[i])
      decreases |p| - i
    {
      i := i + 1;
    }
  }

  lemma BetweenOffCycleIsDetour<T(!new)>(g: Graph<T>, x: T) returns (a: T, b: T)
    requires BetweenCycles(g, x) && !OnCycle(g, x)
    ensures Detour(g, a, b)
  {
    var back, forth :| Reaches(g, back, x) && OnCycle(g, back) && Reaches(g, x, forth) && OnCycle(g, forth);
    var p :| IsWalk(g, p) && p[0] == back && p[|p| - 1] == x;
    var i := FirstOffCycle(g, p);
    a, b := p[i], p[i + 1];
    assert Edge(g, p[i], p[i + 1]);
    SuffixReaches(g, p, i + 1);
    ReachesTransitive(g, b, x, forth);
  }

  lemma SuffixReaches<T(!new)>(g: Graph<T>, p: seq<T>, i: nat)
    requires IsWalk(g, p) && i < |p|
    ensures Reaches(g, p[i], p[|p| - 1])
  {
    WalkSlice(g, p, i, |p|);
    var q := p[i..|p|];
    assert q[0] == p[i] && q[|q| - 1] == p[|p| - 1];
  }

  /** To lie between loops is to lie on one exactly if no detour leads from loop to loop. */
  lemma BetweenIsOnCycleIff<T(!new)>(g: Graph<T>)
    ensures (forall x :: BetweenCycles(g, x) ==> OnCycle(g, x)) <==> NoDetour(g)
  {
    if a, b :| Detour(g, a, b) {
      DetourIsBetween(g, a, b);
    }
    if x :| BetweenCycles(g, x) && !OnCycle(g, x) {
      var a, b := BetweenOffCycleIsDetour(g, x);
    }
  }

  // ----- graphs in which every name references one at most -----

  ghost predicate Functional<T(!new)>(g: Graph<T>) {
    forall a, b, c :: Edge(g, a, b) && Edge(g, a, c) ==> b == c
  }

  ghost predicate Within<T(!new)>(g: Graph<T>, h: Graph<T>) {
    forall a, b :: Edge(g, a, b) ==> Edge(h, a, b)
  }

  lemma WalkWithin<T(!new)>(g: Graph<T>, h: Graph<T>, p: seq<T>)
    requires Within(g, h) && IsWalk(g, p)
    ensures IsWalk(h, p)
  {
    forall i | 0 <= i < |p| - 1 ensures Edge(h, p[i], p[i + 1]) {
      assert Edge(g, p[i], p[i + 1]);
    }
  }

  lemma ReachesWithin<T(!new)>(g: Graph<T>, h: Graph<T>, a: T, b: T)
    requires Within(g, h) && Reaches(g, a, b)
    ensures Reaches(h, a, b)
  {
    var p :| IsWalk(g, p) && p[0] == a && p[|p| - 1] == b;
    WalkWithin(g, h, p);
  }

  lemma OnCycleWithin<T(!new)>(g: Graph<T>, h: Graph<T>, x: T)
    requires Within(g, h) && OnCycle(g, x)
    ensures OnCycle(h, x)
  {
    var p :| IsCycle(g, p) && p[0] == x;
    WalkWithin(g, h, p);
    assert IsCycle(h, p);
  }

  lemma AcyclicWithin<T(!new)>(g: Graph<T>, h: Graph<T>)
    requires Within(g, h) && Acyclic(h)
    ensures Acyclic(g)
  {
    forall p ensures !IsCycle(g, p) {
      if IsCycle(g, p) {
        WalkWithin(g, h, p);
        CycleRefutesAcyclic(h, p);
      }
    }
  }

  lemma AcyclicIffNoneOnCycle<T(!new)>(g: Graph<T>)
    ensures Acyclic(g) <==> forall x :: !OnCycle(g, x)
  {
    if !Acyclic(g) {
      var p :| IsCycle(g, p);
      assert OnCycle(g, p[0]);
    }
  }

  /** What is reached from a set that no reference leaves stays in it. */
  lemma {:induction false} WalkStaysIn<T(!new)>(g: Graph<T>, s: set<T>, p: seq<T>, i: nat)
    requires IsWalk(g, p) && p[0] in s && i < |p|
    requires forall a, b :: a in s && Edge(g, a, b) ==> b in s
    ensures p[i] in s
  {
    if i == 0 {
    } else {
      WalkStaysIn(g, s, p, i - 1);
      assert Edge(g, p[i - 1], p[i]);
    }
  }

  /** In a functional graph no walk leaves a cycle. */
  lemma CycleIsClosed<T(!new)>(g: Graph<T>, p: seq<T>, x: T, y: T)
    requires Functional(g) && IsCycle(g, p) && x in p && Reaches(g, x, y)
    ensures y in p
  {
    var s := Elements(p);
    forall a, b | a in s && Edge(g, a, b) ensures b in s {
      var i :| 0 <= i < |p| && p[i] == a;
      var k := if i == |p| - 1 then 0 else i;
      assert Edge(g, p[k], p[k + 1]);
      assert p[k + 1] in p;
    }
    var w :| IsWalk(g, w) && w[0] == x && w[|w| - 1] == y;
    WalkStaysIn(g, s, w, |w| - 1);
  }

  /** So whatever is reached from a name on a cycle is on it too, and leads back. */
  lemma CycleLeadsBack<T(!new)>(g: Graph<T>, x: T, y: T)
    requires Functional(g) && OnCycle(g, x) && Reaches(g, x, y)
    ensures Reaches(g, y, x) && OnCycle(g, y)
  {
    var p :| IsCycle(g, p) && p[0] == x;
    CycleIsClosed(g, p, x, y);
    var i :| 0 <= i < |p| && p[i] == y;
    SuffixReaches(g, p, i);
    if x != y {
      ThereAndBack(g, y, x);
    }
  }

  lemma CycleHasEdge<T(!new)>(g: Graph<T>, x: T) returns (y: T)
    requires OnCycle(g, x)
    ensures Edge(g, x, y)
  {
    var p :| IsCycle(g, p) && p[0] == x;
    assert Edge(g, p[0], p[1]);
    y := p[1];
  }

  /** A name that leads to a cycle has a reference, and that leads on to the cycle. */
  lemma LeadsOn<T(!new)>(g: Graph<T>, x: T) returns (y: T)
    requires LeadsToCycle(g, x)
    ensures Edge(g, x, y) && LeadsToCycle(g, y)
  {
    var forth :| Reaches(g, x, forth) && OnCycle(g, forth);
    var w :| IsWalk(g, w) && w[0] == x && w[|w| - 1] == forth;
    if |w| == 1 {
      var p :| IsCycle(g, p) && p[0] == x;
      assert Edge(g, p[0], p[1]);
      y := p[1];
      SuffixReaches(g, p, 1);
    } else {
      assert Edge(g, w[0], w[1]);
      y := w[1];
      SuffixReaches(g, w, 1);
    }
  }

  lemma CycleMember<T(!new)>(g: Graph<T>, p: seq<T>, x: T)
    requires Functional(g) && IsCycle(g, p) && x in p
    ensures OnCycle(g, x) && Reaches(g, p[0], x)
  {
    var i :| 0 <= i < |p| && p[i] == x;
    WalkSlice(g, p, 0, i + 1);
    var q := p[0..i + 1];
    assert IsWalk(g, q) && q[0] == p[0] && q[|q| - 1] == x;
    assert OnCycle(g, p[0]);
    CycleLeadsBack(g, p[0], x);
  }

  lemma EdgeAndBack<T(!new)>(g: Graph<T>, x: T, y: T)
    requires Edge(g, x, y) && Reaches(g, y, x)
    ensures OnCycle(g, x)
  {
    if x == y {
      assert IsCycle(g, [x, x]) && [x, x][0] == x;
    } else {
      ReachesEdge(g, x, y);
      ThereAndBack(g, x, y);
    }
  }

  lemma EdgelessIsAcyclic<T(!new)>(g: Graph<T>)
    requires forall a, b :: !Edge(g, a, b)
    ensures Acyclic(g)
  {
    forall p ensures !IsCycle(g, p) {
      assert |p| >= 2 ==> !Edge(g, p[0], p[1]);
    }
  }
}
