/**
 * The domain trie (core/Clash.Meta/component/trie/domain.go): a tree of labels, last label
 * first, in which a label may be a wildcard. Its search goes down one branch and comes back
 * to try another; what it finds is told here by the set of patterns alone.
 *
 * Names are sequences of labels. The nodes are values: the single-child shortcut of a node
 * and its update in place are not part of this model.
 */
module DomainTrie {
  import opened Prelude

  type Labels = seq<string>

  /** One label, whatever it is. */
  const WILDCARD := "*"

  /** Only as the first label of a pattern: one label or more. */
  const DOT_WILDCARD := ""

  /** Only as the first label of a domain: any number of labels. */
  const COMPLEX_WILDCARD := "+"

  datatype Node<V> = Node(children: map<string, Node<V>>, data: Option<V>)

  function EmptyNode<V>(): Node<V> {
    Node(map[], None)
  }

  function Child<V>(node: Node<V>, part: string): Node<V> {
    if part in node.children then node.children[part] else EmptyNode()
  }

  function Insert<V>(node: Node<V>, parts: Labels, v: V): Node<V>
    decreases |parts|
  {
    if parts == [] then node.(data := Some(v))
    else
      var part := parts[|parts| - 1];
      node.(children := node.children[part := Insert(Child(node, part), parts[..|parts| - 1], v)])
  }

  /** A domain that begins with "+" is entered without its first label, and with a dot wildcard in its place. */
  function InsertDomain<V>(root: Node<V>, parts: Labels, v: V): Node<V>
    requires parts != []
  {
    if parts[0] == COMPLEX_WILDCARD then Insert(Insert(root, parts[1..], v), [DOT_WILDCARD] + parts[1..], v)
    else Insert(root, parts, v)
  }

  /** The data of the node that the search ends at; an empty node is as good as none. */
  function Search<V>(node: Node<V>, parts: Labels): Option<V>
    decreases |parts|
  {
    if parts == [] then node.data
    else
      var part, front := parts[|parts| - 1], parts[..|parts| - 1];
      var exact := if part in node.children then Search(node.children[part], front) else None;
      if exact.Some? then exact
      else
        var wild := if WILDCARD in node.children then Search(node.children[WILDCARD], front) else None;
        if wild.Some? then wild else Child(node, DOT_WILDCARD).data
  }

  // ----- what is in a trie -----

  ghost function Entry<V>(node: Node<V>, pattern: Labels): Option<V>
    decreases |pattern|
  {
    if pattern == [] then node.data else Entry(Child(node, pattern[|pattern| - 1]), pattern[..|pattern| - 1])
  }

  lemma {:induction false} EntryOfEmpty<V>(pattern: Labels)
    ensures Entry<V>(EmptyNode(), pattern).None?
    decreases |pattern|
  {
    if pattern == [] {
    } else {
      EntryOfEmpty<V>(pattern[..|pattern| - 1]);
    }
  }

  /** An insertion writes one entry and leaves the others. */
  lemma {:induction false} InsertWritesOne<V>(node: Node<V>, parts: Labels, v: V, pattern: Labels)
    ensures Entry(Insert(node, parts, v), pattern) == if pattern == parts then Some(v) else Entry(node, pattern)
    decreases |parts|
  {
    if parts == [] || pattern == [] {
      if parts == [] && pattern != [] {
        var part := pattern[|pattern| - 1];
        assert Child(Insert(node, parts, v), part) == Child(node, part);
      }
    } else {
      var part, front := parts[|parts| - 1], pattern[..|pattern| - 1];
      InsertWritesOne(Child(node, part), parts[..|parts| - 1], v, front);
      assert parts == parts[..|parts| - 1] + [part];
      assert pattern == front + [pattern[|pattern| - 1]];
    }
  }

  // ----- which patterns match -----

  /** Label by label. */
  ghost predicate Fits(pattern: Labels, name: Labels) {
    |pattern| == |name| && forall i :: 0 <= i < |name| ==> pattern[i] == name[i] || pattern[i] == WILDCARD
  }

  /** A dot wildcard in front stands for one label or more. */
  ghost predicate Matches(pattern: Labels, name: Labels) {
    || Fits(pattern, name)
    || (pattern != [] && pattern[0] == DOT_WILDCARD && |pattern| <= |name|
        && Fits(pattern[1..], name[|name| - |pattern| + 1..]))
  }

  /** The pattern of the set that a search of the name finds, behind the labels already taken. */
  function Find(keys: set<Labels>, name: Labels, tail: Labels): Option<Labels>
    decreases |name|
  {
    if name == [] then if tail in keys then Some(tail) else None
    else
      var part, front := name[|name| - 1], name[..|name| - 1];
      var exact := Find(keys, front, [part] + tail);
      if exact.Some? then exact
      else
        var wild := Find(keys, front, [WILDCARD] + tail);
        if wild.Some? then wild
        else if [DOT_WILDCARD] + tail in keys then Some([DOT_WILDCARD] + tail)
        else None
  }

  lemma FitsSnoc(pattern: Labels, name: Labels, x: string, part: string)
    ensures Fits(pattern + [x], name + [part]) <==> Fits(pattern, name) && (x == part || x == WILDCARD)
  {
    if Fits(pattern + [x], name + [part]) {
      assert (pattern + [x])[|name|] == x && (name + [part])[|name|] == part;
      forall i | 0 <= i < |name| ensures pattern[i] == name[i] || pattern[i] == WILDCARD {
        assert (pattern + [x])[i] == pattern[i] && (name + [part])[i] == name[i];
      }
    }
  }

  /** A pattern of more than one label matches if its last label does and the rest matches the rest. */
  lemma MatchesSnoc(pattern: Labels, name: Labels, x: string, part: string)
    ensures Matches(pattern + [x], name + [part]) <==>
      (Matches(pattern, name) && (x == part || x == WILDCARD)) || (pattern == [] && x == DOT_WILDCARD)
  {
    var p, n := pattern + [x], name + [part];
    FitsSnoc(pattern, name, x, part);
    if pattern != [] && |p| <= |n| {
      var from := |n| - |p| + 1;
      assert p[1..] == pattern[1..] + [x] && n[from..] == name[from..] + [part];
      FitsSnoc(pattern[1..], name[from..], x, part);
    }
    if pattern == [] {
      assert p[1..] == [] && n[|n|..] == [];
    }
  }

  /** One step of the search, told by patterns. */
  lemma MatchesLast(pattern: Labels, name: Labels)
    requires name != []
    ensures Matches(pattern, name) <==>
      && pattern != []
      && var x := pattern[|pattern| - 1];
        (Matches(pattern[..|pattern| - 1], name[..|name| - 1]) && (x == name[|name| - 1] || x == WILDCARD))
        || pattern == [DOT_WILDCARD]
  {
    if pattern != [] {
      var front, x := pattern[..|pattern| - 1], pattern[|pattern| - 1];
      assert pattern == front + [x] && name == name[..|name| - 1] + [name[|name| - 1]];
      MatchesSnoc(front, name[..|name| - 1], x, name[|name| - 1]);
    }
  }

  ghost predicate Found(keys: set<Labels>, name: Labels, tail: Labels, k: Labels, p: Labels) {
    k in keys && k == p + tail && Matches(p, name)
  }

  ghost predicate IsMatch(keys: set<Labels>, name: Labels, tail: Labels, k: Labels) {
    exists p :: Found(keys, name, tail, k, p)
  }

  ghost predicate NoMatch(keys: set<Labels>, name: Labels, tail: Labels) {
    forall p :: p + tail in keys ==> !Matches(p, name)
  }

  /** A pattern is found exactly if there is one that matches, and what is found matches. */
  lemma {:induction false} FindTells(keys: set<Labels>, name: Labels, tail: Labels)
    ensures match Find(keys, name, tail)
      case None => NoMatch(keys, name, tail)
      case Some(k) => IsMatch(keys, name, tail, k)
    decreases |name|
  {
    if name == [] {
      assert [] + tail == tail;
      if tail in keys {
        assert Found(keys, name, tail, tail, []);
      }
    } else {
      var part, front := name[|name| - 1], name[..|name| - 1];
      FindTells(keys, front, [part] + tail);
      FindTells(keys, front, [WILDCARD] + tail);
      match Find(keys, name, tail) {
        case None => NoneMatches(keys, name, tail);
        case Some(k) =>
          if Find(keys, front, [part] + tail) == Some(k) {
            OneMatches(keys, name, tail, k, part);
          } else if Find(keys, front, [WILDCARD] + tail) == Some(k) {
            OneMatches(keys, name, tail, k, WILDCARD);
          } else {
            DotMatches(keys, name, tail);
          }
      }
    }
  }

  /** The whole name, in the whole set. */
  lemma FindIn(keys: set<Labels>, name: Labels)
    ensures match Find(keys, name, [])
      case None => forall p :: p in keys ==> !Matches(p, name)
      case Some(k) => k in keys && Matches(k, name)
  {
    FindTells(keys, name, []);
    assert forall p: Labels :: p + [] == p;
  }

  lemma NoneMatches(keys: set<Labels>, name: Labels, tail: Labels)
    requires name != [] && Find(keys, name, tail).None?
    requires NoMatch(keys, name[..|name| - 1], [name[|name| - 1]] + tail)
    requires NoMatch(keys, name[..|name| - 1], [WILDCARD] + tail)
    ensures NoMatch(keys, name, tail)
  {
    forall p | p + tail in keys ensures !Matches(p, name) {
      MatchesLast(p, name);
      if p != [] {
        var x, front := p[|p| - 1], p[..|p| - 1];
        assert p == front + [x] && front + ([x] + tail) == p + tail;
      }
    }
  }

  lemma FoundLonger(keys: set<Labels>, name: Labels, tail: Labels, k: Labels, p: Labels, x: string)
    requires name != [] && (x == name[|name| - 1] || x == WILDCARD)
    requires Found(keys, name[..|name| - 1], [x] + tail, k, p)
    ensures Found(keys, name, tail, k, p + [x])
  {
    assert (p + [x])[..|p|] == p && (p + [x]) + tail == p + ([x] + tail);
    MatchesLast(p + [x], name);
  }

  lemma OneMatches(keys: set<Labels>, name: Labels, tail: Labels, k: Labels, x: string)
    requires name != [] && (x == name[|name| - 1] || x == WILDCARD)
    requires IsMatch(keys, name[..|name| - 1], [x] + tail, k)
    ensures IsMatch(keys, name, tail, k)
  {
    var p :| Found(keys, name[..|name| - 1], [x] + tail, k, p);
    FoundLonger(keys, name, tail, k, p, x);
  }

  lemma DotMatches(keys: set<Labels>, name: Labels, tail: Labels)
    requires name != [] && [DOT_WILDCARD] + tail in keys
    ensures IsMatch(keys, name, tail, [DOT_WILDCARD] + tail)
  {
    MatchesLast([DOT_WILDCARD], name);
    assert Found(keys, name, tail, [DOT_WILDCARD] + tail, [DOT_WILDCARD]);
  }

  /** The better a pattern the sooner it is found: with fewer patterns, what is still there is still found. */
  lemma {:induction false} FindStays(keys: set<Labels>, fewer: set<Labels>, name: Labels, tail: Labels)
    requires fewer <= keys
    ensures Find(keys, name, tail).None? ==> Find(fewer, name, tail).None?
    ensures Find(keys, name, tail).Some? && Find(keys, name, tail).value in fewer ==>
      Find(fewer, name, tail) == Find(keys, name, tail)
    decreases |name|
  {
    if name == [] {
    } else {
      var part, front := name[|name| - 1], name[..|name| - 1];
      FindStays(keys, fewer, front, [part] + tail);
      FindStays(keys, fewer, front, [WILDCARD] + tail);
    }
  }

  // ----- which of the matching patterns -----

  /**
   * p is q, or better than q: on the last label on which they differ p has the label of the name,
   * or p has a wildcard where q has the dot wildcard.
   */
  ghost predicate Better(p: Labels, q: Labels, name: Labels)
    decreases |name|
  {
    || p == q
    || (name != [] && p != [] && q != []
        && var x, y, part := p[|p| - 1], q[|q| - 1], name[|name| - 1];
          || (x == part && y != part)
          || (x == "*" && y == "")
          || (x == y && Better(p[..|p| - 1], q[..|q| - 1], name[..|name| - 1])))
  }

  ghost predicate IsBest(keys: set<Labels>, name: Labels, tail: Labels, p: Labels) {
    && p + tail in keys && Matches(p, name)
    && forall q :: q + tail in keys && Matches(q, name) ==> Better(p, q, name)
  }

  /** Of all patterns that match a name the search finds the best one. */
  lemma {:induction false} FindsBest(keys: set<Labels>, name: Labels, tail: Labels) returns (p: Labels)
    requires Find(keys, name, tail).Some? && "" !in name
    ensures Find(keys, name, tail) == Some(p + tail) && IsBest(keys, name, tail, p)
    decreases |name|
  {
    if name == [] {
      p := [];
      assert p + tail == tail;
    } else {
      var part, front := name[|name| - 1], name[..|name| - 1];
      if Find(keys, front, [part] + tail).Some? {
        var r := FindsBest(keys, front, [part] + tail);
        p := BestWithLast(keys, name, tail, part, r);
      } else if Find(keys, front, [WILDCARD] + tail).Some? {
        var r := FindsBest(keys, front, [WILDCARD] + tail);
        NoneWithLast(keys, name, tail, part);
        p := BestWithLast(keys, name, tail, WILDCARD, r);
      } else {
        p := [DOT_WILDCARD];
        NoneWithLast(keys, name, tail, part);
        NoneWithLast(keys, name, tail, WILDCARD);
        MatchesLast(p, name);
        forall q | q + tail in keys && Matches(q, name) ensures q == p {
          MatchesLast(q, name);
        }
      }
    }
  }

  /** No pattern that matches ends with x. */
  ghost predicate NoneEndsWith(keys: set<Labels>, name: Labels, tail: Labels, x: string) {
    forall q :: q != [] && q[|q| - 1] == x && q + tail in keys && Matches(q, name) ==> q == [DOT_WILDCARD]
  }

  lemma NoneWithLast(keys: set<Labels>, name: Labels, tail: Labels, x: string)
    requires name != [] && Find(keys, name[..|name| - 1], [x] + tail).None?
    ensures NoneEndsWith(keys, name, tail, x)
  {
    FindTells(keys, name[..|name| - 1], [x] + tail);
    forall q | q != [] && q[|q| - 1] == x && q + tail in keys && Matches(q, name) ensures q == [DOT_WILDCARD] {
      MatchesLast(q, name);
      var q' := q[..|q| - 1];
      assert q == q' + [x] && q' + ([x] + tail) == q + tail;
    }
  }

  lemma BestWithLast(keys: set<Labels>, name: Labels, tail: Labels, x: string, r: Labels) returns (p: Labels)
    requires name != [] && "" !in name && IsBest(keys, name[..|name| - 1], [x] + tail, r)
    requires x == name[|name| - 1] || (x == WILDCARD && NoneEndsWith(keys, name, tail, name[|name| - 1]))
    ensures p == r + [x] && p + tail == r + ([x] + tail) && IsBest(keys, name, tail, p)
  {
    p := r + [x];
    assert p[..|p| - 1] == r && p + tail == r + ([x] + tail);
    MatchesLast(p, name);
    forall q | q + tail in keys && Matches(q, name) ensures Better(p, q, name) {
      OtherLast(keys, name, tail, x, q);
      BetterThanOther(keys, name, tail, x, r, q);
    }
  }

  /** A pattern that matches ends with x, or with something worse. */
  lemma OtherLast(keys: set<Labels>, name: Labels, tail: Labels, x: string, q: Labels)
    requires name != [] && "" !in name && q + tail in keys && Matches(q, name)
    requires x == name[|name| - 1] || (x == WILDCARD && NoneEndsWith(keys, name, tail, name[|name| - 1]))
    ensures q != []
    ensures q[|q| - 1] == x ==> Matches(q[..|q| - 1], name[..|name| - 1]) && q[..|q| - 1] + ([x] + tail) in keys
    ensures q[|q| - 1] != x ==> x == name[|name| - 1] || (x == "*" && q[|q| - 1] == "")
  {
    MatchesLast(q, name);
    var q', y := q[..|q| - 1], q[|q| - 1];
    assert name[|name| - 1] in name;
    assert q == q' + [y];
    if y == x {
      assert q' + ([x] + tail) == q + tail;
      SameLastMatches(q', name, y);
    }
  }

  lemma BetterThanOther(keys: set<Labels>, name: Labels, tail: Labels, x: string, r: Labels, q: Labels)
    requires name != [] && q != [] && IsBest(keys, name[..|name| - 1], [x] + tail, r)
    requires q[|q| - 1] == x ==> Matches(q[..|q| - 1], name[..|name| - 1]) && q[..|q| - 1] + ([x] + tail) in keys
    requires q[|q| - 1] != x ==> x == name[|name| - 1] || (x == "*" && q[|q| - 1] == "")
    ensures Better(r + [x], q, name)
  {
    var q', y := q[..|q| - 1], q[|q| - 1];
    assert q == q' + [y];
    if y == x {
      BetterSnoc(r, q', name, x);
    } else {
      BetterLast(r, q', name, x, y);
    }
  }

  lemma SameLastMatches(q: Labels, name: Labels, y: string)
    requires name != [] && y != "" && Matches(q + [y], name)
    ensures Matches(q, name[..|name| - 1])
  {
    assert (q + [y])[..|q|] == q;
    MatchesLast(q + [y], name);
  }

  lemma BetterSnoc(p: Labels, q: Labels, name: Labels, x: string)
    requires name != [] && Better(p, q, name[..|name| - 1])
    ensures Better(p + [x], q + [x], name)
  {
    assert (p + [x])[..|p|] == p && (q + [x])[..|q|] == q;
  }

  lemma BetterLast(p: Labels, q: Labels, name: Labels, x: string, y: string)
    requires name != [] && ((x == name[|name| - 1] && y != x) || (x == "*" && y == ""))
    ensures Better(p + [x], q + [y], name)
  {
  }

  /** A pattern that is the name itself is found before any other. */
  lemma ExactFirst(keys: set<Labels>, name: Labels)
    requires name in keys && "" !in name && "*" !in name
    ensures Find(keys, name, []) == Some(name)
  {
    FindIn(keys, name);
    assert Fits(name, name);
    var p := FindsBest(keys, name, []);
    assert name + [] == name && p + [] == p;
    BetterThanName(p, name);
  }

  lemma {:induction false} BetterThanName(p: Labels, name: Labels)
    requires Better(p, name, name) && "" !in name && "*" !in name
    ensures p == name
    decreases |name|
  {
    if p != name {
      assert name[|name| - 1] in name;
      assert p == p[..|p| - 1] + [p[|p| - 1]] && name == name[..|name| - 1] + [name[|name| - 1]];
      BetterThanName(p[..|p| - 1], name[..|name| - 1]);
    }
  }

  // ----- the search in a trie -----

  /** Below the labels `tail` the node holds what the table holds. */
  ghost predicate Below<V>(node: Node<V>, t: map<Labels, V>, tail: Labels) {
    forall p: Labels :: Entry(node, p) == if p + tail in t then Some(t[p + tail]) else None
  }

  lemma BelowChild<V>(node: Node<V>, t: map<Labels, V>, tail: Labels, part: string)
    requires Below(node, t, tail)
    ensures Below(Child(node, part), t, [part] + tail)
  {
    forall p: Labels ensures Entry(Child(node, part), p) ==
      if p + ([part] + tail) in t then Some(t[p + ([part] + tail)]) else None
    {
      assert (p + [part]) + tail == p + ([part] + tail);
      assert (p + [part])[..|p|] == p;
      assert Entry(node, p + [part]) == Entry(Child(node, part), p);
    }
  }

  ghost function Value<V>(t: map<Labels, V>, k: Option<Labels>): Option<V> {
    if k.Some? && k.value in t then Some(t[k.value]) else None
  }

  lemma {:induction false} SearchEmpty<V>(name: Labels)
    ensures Search<V>(EmptyNode(), name).None?
  {
  }

  /** The search that goes down and comes back gives the value of the pattern found in the set of patterns. */
  lemma {:induction false} SearchIsFind<V>(node: Node<V>, t: map<Labels, V>, name: Labels, tail: Labels)
    requires Below(node, t, tail)
    ensures Search(node, name) == Value(t, Find(t.Keys, name, tail))
    ensures Find(t.Keys, name, tail).Some? ==> Find(t.Keys, name, tail).value in t
    decreases |name|
  {
    if name == [] {
      assert Entry(node, []) == node.data && [] + tail == tail;
    } else {
      var part, front := name[|name| - 1], name[..|name| - 1];
      BelowChild(node, t, tail, part);
      BelowChild(node, t, tail, WILDCARD);
      BelowChild(node, t, tail, DOT_WILDCARD);
      SearchIsFind(Child(node, part), t, front, [part] + tail);
      SearchIsFind(Child(node, WILDCARD), t, front, [WILDCARD] + tail);
      SearchEmpty<V>(front);
      var dot := Child(node, DOT_WILDCARD);
      assert Entry(dot, []) == dot.data && [] + ([DOT_WILDCARD] + tail) == [DOT_WILDCARD] + tail;
    }
  }

  /** A search finds something exactly if some pattern that was entered matches. */
  lemma SearchIff<V>(root: Node<V>, name: Labels, t: map<Labels, V>)
    requires Below(root, t, [])
    ensures Search(root, name).Some? <==> exists p :: p in t && Matches(p, name)
  {
    SearchIsFind(root, t, name, []);
    FindIn(t.Keys, name);
  }

  // ----- insertion -----

  /** The patterns that a domain is entered under. */
  function Paths(parts: Labels): set<Labels>
    requires parts != []
  {
    if parts[0] == COMPLEX_WILDCARD then {parts[1..], [DOT_WILDCARD] + parts[1..]} else {parts}
  }

  function Put<V>(t: map<Labels, V>, keys: set<Labels>, v: V): map<Labels, V> {
    t + map k | k in keys :: v
  }

  /** The name ends with the labels, wildcards standing for any. */
  ghost predicate EndsAs(name: Labels, pattern: Labels) {
    |pattern| <= |name| && Fits(pattern, name[|name| - |pattern|..])
  }

  /** A domain "+.x" covers x and everything under it; any other domain what it matches itself. */
  lemma DomainCovers(parts: Labels, name: Labels)
    requires parts != [] && (parts[0] == "+" ==> |parts| > 1)
    ensures (exists p :: p in Paths(parts) && Matches(p, name)) <==>
      if parts[0] == "+" then EndsAs(name, parts[1..]) || Matches(parts[1..], name) else Matches(parts, name)
  {
    if parts[0] == "+" {
      var rest, dotted := parts[1..], [DOT_WILDCARD] + parts[1..];
      DottedMatches(rest, name);
      assert rest in Paths(parts) && dotted in Paths(parts);
      assert forall p :: p in Paths(parts) ==> p == rest || p == dotted;
    } else {
      assert parts in Paths(parts);
    }
  }

  lemma DottedMatches(rest: Labels, name: Labels)
    ensures Matches([DOT_WILDCARD] + rest, name) || Matches(rest, name) <==> EndsAs(name, rest) || Matches(rest, name)
  {
    var dotted := [DOT_WILDCARD] + rest;
    assert dotted[1..] == rest;
    if Fits(dotted, name) {
      FitsTail(rest, name);
    }
    if |dotted| <= |name| {
      assert name[|name| - |dotted| + 1..] == name[|name| - |rest|..];
    } else if |rest| == |name| {
      assert name[|name| - |rest|..] == name;
    }
  }

  lemma FitsTail(rest: Labels, name: Labels)
    requires Fits([DOT_WILDCARD] + rest, name)
    ensures EndsAs(name, rest)
  {
    var dotted, end := [DOT_WILDCARD] + rest, name[|name| - |rest|..];
    forall i | 0 <= i < |rest| ensures rest[i] == end[i] || rest[i] == WILDCARD {
      assert dotted[i + 1] == rest[i] && end[i] == name[i + 1];
    }
  }

  lemma InsertIsPut<V>(node: Node<V>, t: map<Labels, V>, parts: Labels, v: V)
    requires Below(node, t, [])
    ensures Below(Insert(node, parts, v), t[parts := v], [])
  {
    forall p: Labels
      ensures Entry(Insert(node, parts, v), p) == if p + [] in t[parts := v] then Some(t[parts := v][p + []]) else None
    {
      InsertWritesOne(node, parts, v, p);
      assert p + [] == p;
      assert Entry(node, p) == if p + [] in t then Some(t[p + []]) else None;
    }
  }

  lemma InsertDomainIsPut<V>(root: Node<V>, t: map<Labels, V>, parts: Labels, v: V)
    requires Below(root, t, []) && parts != []
    ensures Below(InsertDomain(root, parts, v), Put(t, Paths(parts), v), [])
  {
    if parts[0] == COMPLEX_WILDCARD {
      InsertIsPut(root, t, parts[1..], v);
      InsertIsPut(Insert(root, parts[1..], v), t[parts[1..] := v], [DOT_WILDCARD] + parts[1..], v);
      assert Put(t, Paths(parts), v) == t[parts[1..] := v][[DOT_WILDCARD] + parts[1..] := v];
    } else {
      InsertIsPut(root, t, parts, v);
      assert Put(t, Paths(parts), v) == t[parts := v];
    }
  }
}
