/** Shared vocabulary of the model: optional values and sequences without repetition. */
module Prelude {

  datatype Option<+T> = None | Some(value: T)

  ghost predicate Distinct<T>(s: seq<T>) {
    forall i, j :: 0 <= i < j < |s| ==> s[i] != s[j]
  }

  ghost function Elements<T>(s: seq<T>): set<T> {
    set x | x in s
  }

  lemma DistinctSize<T>(s: seq<T>)
    requires Distinct(s)
    ensures |Elements(s)| == |s|
  {
    if s == [] {
    } else {
      var front, last := s[..|s| - 1], s[|s| - 1];
      DistinctSize(front);
      assert Elements(s) == Elements(front) + {last};
    }
  }

  /** A sequence longer than a set that holds all its elements repeats one of them. */
  lemma Pigeonhole<T>(s: seq<T>, pool: set<T>) returns (i: nat, j: nat)
    requires forall x :: x in s ==> x in pool
    requires |s| > |pool|
    ensures i < j < |s| && s[i] == s[j]
  {
    if Distinct(s) {
      DistinctSize(s);
      SubsetSize(Elements(s), pool);
      assert false;
    }
    i, j :| 0 <= i < j < |s| && s[i] == s[j];
  }

  lemma SubsetSize<T>(a: set<T>, b: set<T>)
    requires a <= b
    ensures |a| <= |b|
    ensures |a| == |b| ==> a == b
  {
    assert b == a + (b - a);
  }

  lemma PrefixGrows<T>(s: seq<T>, j: nat)
    requires j < |s|
    ensures s[..j + 1] == s[..j] + [s[j]]
  {
  }

  lemma SuffixShrinks<T>(s: seq<T>, j: nat)
    requires j < |s|
    ensures s[j..] == [s[j]] + s[j + 1..]
  {
  }

  lemma WholePrefix<T>(s: seq<T>)
    ensures s[..|s|] == s
  {
  }

  lemma FrontOfSnoc<T>(s: seq<T>, x: T)
    ensures (s + [x])[..|s|] == s && (s + [x])[|s|] == x
  {
  }

  lemma HeadAndTail<T>(q: seq<T>)
    requires q != []
    ensures q == [q[0]] + q[1..]
  {
  }

  lemma AppendAssociates<T>(a: seq<T>, b: seq<T>, c: seq<T>)
    ensures (a + b) + c == a + (b + c)
  {
  }

  lemma OneLessToDo<T>(all: set<T>, toDo: set<T>, x: T)
    requires x in toDo && toDo <= all
    ensures all - (toDo - {x}) == (all - toDo) + {x}
  {
  }

  /** xs is ys with some elements left out. */
  ghost predicate IsSubsequence<T(!new)>(xs: seq<T>, ys: seq<T>) {
    exists f: seq<nat> ::
      && |f| == |xs|
      && (forall i, j :: 0 <= i < j < |f| ==> f[i] < f[j])
      && (forall i :: 0 <= i < |f| ==> f[i] < |ys| && ys[f[i]] == xs[i])
  }

  lemma SubsequenceOfItself<T(!new)>(xs: seq<T>)
    ensures IsSubsequence(xs, xs)
  {
    var f: seq<nat> := seq(|xs|, i requires 0 <= i < |xs| => i);
    assert |f| == |xs| && forall i :: 0 <= i < |f| ==> f[i] < |xs| && xs[f[i]] == xs[i];
  }

  /** One element more behind both, or behind the longer only. */
  lemma SubsequenceSnoc<T(!new)>(xs: seq<T>, ys: seq<T>, y: T)
    requires IsSubsequence(xs, ys)
    ensures IsSubsequence(xs + [y], ys + [y]) && IsSubsequence(xs, ys + [y])
  {
    var f: seq<nat> :|
      && |f| == |xs|
      && (forall i, j :: 0 <= i < j < |f| ==> f[i] < f[j])
      && (forall i :: 0 <= i < |f| ==> f[i] < |ys| && ys[f[i]] == xs[i]);
    var g: seq<nat> := f + [|ys|];
    forall i | 0 <= i < |g| ensures g[i] < |ys + [y]| && (ys + [y])[g[i]] == (xs + [y])[i] {
    }
    forall i, j | 0 <= i < j < |g| ensures g[i] < g[j] {
    }
    forall i | 0 <= i < |f| ensures f[i] < |ys + [y]| && (ys + [y])[f[i]] == xs[i] {
    }
  }
}
