/**
 * Bringing the tunnel listeners in line with a new configuration: PatchTunnel
 * (core/Clash.Meta/listener/listener.go). Listeners are kept in two tables under a key that
 * joins address, target and proxy with slashes, and what is running is read back from the keys.
 *
 * A listener is a number, given out in the order of opening. Whether an opening succeeds comes
 * from outside.
 */
module TunnelPatch {
  import opened Prelude

  datatype Tunnel = Tunnel(network: seq<string>, address: string, target: string, proxy: string)

  datatype Element = Element(network: string, addr: string, target: string, proxy: string)

  // ----- keys -----

  function Key(e: Element): string {
    e.addr + "/" + e.target + "/" + e.proxy
  }

  function Split(s: string): (parts: seq<string>)
    ensures |parts| >= 1
  {
    SplitFrom(s, 0)
  }

  /** The parts of a string whose first i characters are no separators. */
  function SplitFrom(s: string, i: nat): (parts: seq<string>)
    requires i <= |s|
    ensures |parts| >= 1
    decreases |s|, |s| - i
  {
    if i == |s| then [s]
    else if s[i] == '/' then [s[..i]] + SplitFrom(s[i + 1..], 0)
    else SplitFrom(s, i + 1)
  }

  ghost predicate NoSlash(s: string) {
    '/' !in s
  }

  lemma {:induction false} SplitAtFirst(a: string, rest: string, i: nat)
    requires NoSlash(a) && i <= |a|
    ensures SplitFrom(a + "/" + rest, i) == [a] + Split(rest)
    decreases |a| - i
  {
    var s := a + "/" + rest;
    if i == |a| {
      assert s[..i] == a && s[i + 1..] == rest;
    } else {
      assert s[i] == a[i] && a[i] in a;
      SplitAtFirst(a, rest, i + 1);
    }
  }

  lemma {:induction false} SplitNone(a: string, i: nat)
    requires NoSlash(a) && i <= |a|
    ensures SplitFrom(a, i) == [a]
    decreases |a| - i
  {
    if i == |a| {
    } else {
      assert a[i] in a;
      SplitNone(a, i + 1);
    }
  }

  /** Parts have no separators, and there is one more of them than separators. */
  lemma {:induction false} PartsAreClean(s: string, i: nat, k: nat)
    requires i <= |s| && '/' !in s[..i] && k < |SplitFrom(s, i)|
    ensures NoSlash(SplitFrom(s, i)[k])
    decreases |s|, |s| - i
  {
    if i == |s| {
      assert s[..i] == s;
    } else if s[i] == '/' {
      if k > 0 {
        assert '/' !in s[i + 1..][..0];
        PartsAreClean(s[i + 1..], 0, k - 1);
      }
    } else {
      PrefixGrows(s, i);
      PartsAreClean(s, i + 1, k);
    }
  }

  ghost function Slashes(s: string): nat {
    if s == "" then 0 else (if s[0] == '/' then 1 else 0) + Slashes(s[1..])
  }

  lemma {:induction false} SlashesAdd(a: string, b: string)
    ensures Slashes(a + b) == Slashes(a) + Slashes(b)
  {
    if a == "" {
      assert a + b == b;
    } else {
      SlashesAdd(a[1..], b);
      assert (a + b)[1..] == a[1..] + b;
    }
  }

  lemma {:induction false} PartsCount(s: string, i: nat)
    requires i <= |s|
    ensures |SplitFrom(s, i)| == 1 + Slashes(s[i..])
    decreases |s|, |s| - i
  {
    if i == |s| {
    } else {
      SuffixShrinks(s, i);
      assert s[i..][1..] == s[i + 1..];
      if s[i] == '/' {
        PartsCount(s[i + 1..], 0);
        assert s[i + 1..][0..] == s[i + 1..];
      } else {
        PartsCount(s, i + 1);
      }
    }
  }

  /** A key has at least the two separators that were put into it. */
  lemma KeyHasThreeParts(e: Element)
    ensures |Split(Key(e))| >= 3
  {
    PartsCount(Key(e), 0);
    assert Key(e)[0..] == Key(e);
    SlashesAdd(e.addr + "/" + e.target + "/", e.proxy);
    SlashesAdd(e.addr + "/" + e.target, "/");
    SlashesAdd(e.addr + "/", e.target);
    SlashesAdd(e.addr, "/");
    assert Slashes("/") == 1 + Slashes("/"[1..]);
  }

  /** The element that a key is read back as. */
  function FromKey(network: string, key: string): Element
    requires |Split(key)| >= 3
  {
    var parts := Split(key);
    Element(network, parts[0], parts[1], parts[2])
  }

  ghost predicate Clean(e: Element) {
    NoSlash(e.addr) && NoSlash(e.target) && NoSlash(e.proxy)
  }

  lemma CleanKeySplits(e: Element)
    requires Clean(e)
    ensures Split(Key(e)) == [e.addr, e.target, e.proxy]
  {
    var rest := e.target + "/" + e.proxy;
    assert Key(e) == e.addr + "/" + rest;
    SplitAtFirst(e.addr, rest, 0);
    SplitAtFirst(e.target, e.proxy, 0);
    SplitNone(e.proxy, 0);
  }

  /** A key is read back as the element it was made of exactly if no part of that has a slash. */
  lemma ReadBackIff(e: Element)
    ensures |Split(Key(e))| >= 3 && (FromKey(e.network, Key(e)) == e <==> Clean(e))
  {
    KeyHasThreeParts(e);
    if Clean(e) {
      CleanKeySplits(e);
    } else {
      assert Key(e)[..0] == "";
      PartsAreClean(Key(e), 0, 0);
      PartsAreClean(Key(e), 0, 1);
      PartsAreClean(Key(e), 0, 2);
    }
  }

  /** Two elements of the same network read back from keys have different keys. */
  lemma CleanKeysDiffer(a: Element, b: Element)
    requires Clean(a) && Clean(b) && a.network == b.network && Key(a) == Key(b)
    ensures a == b
  {
    CleanKeySplits(a);
    CleanKeySplits(b);
  }

  // ----- what is running -----

  type Table = map<string, nat>

  /** The tables, the listeners closed so far, and the number of listeners opened so far. */
  datatype Live = Live(tcp: Table, udp: Table, closed: set<nat>, next: nat)

  ghost function TableOf(s: Live, network: string): Table {
    if network == "tcp" then s.tcp else s.udp
  }

  ghost function Ids(s: Live): set<nat> {
    (set k | k in s.tcp :: s.tcp[k]) + (set k | k in s.udp :: s.udp[k])
  }

  ghost predicate Readable(t: Table) {
    forall k :: k in t ==> |Split(k)| >= 3
  }

  ghost predicate Injective(t: Table) {
    forall j, k :: j in t && k in t && t[j] == t[k] ==> j == k
  }

  /** No listener is in two places, and none that is in a table has been closed. */
  ghost predicate Inv(s: Live) {
    && Readable(s.tcp) && Readable(s.udp)
    && Injective(s.tcp) && Injective(s.udp)
    && (forall j, k :: j in s.tcp && k in s.udp ==> s.tcp[j] != s.udp[k])
    && (forall id :: id in Ids(s) ==> id < s.next && id !in s.closed)
    && (forall id :: id in s.closed ==> id < s.next)
  }

  ghost function Running(s: Live): set<Element>
    requires Readable(s.tcp) && Readable(s.udp)
  {
    (set k | k in s.tcp :: FromKey("tcp", k)) + (set k | k in s.udp :: FromKey("udp", k))
  }

  ghost function NeedClose(s: Live, requested: seq<Element>): set<Element>
    requires Inv(s)
  {
    Running(s) - Elements(requested)
  }

  /** What is requested and not running, in the order of the request, repetitions included. */
  ghost function NeedCreate(running: set<Element>, requested: seq<Element>): (r: seq<Element>) {
    if requested == [] then []
    else
      var rest, last := NeedCreate(running, requested[..|requested| - 1]), requested[|requested| - 1];
      if last in running then rest else rest + [last]
  }

  ghost predicate Found(s: Live, e: Element) {
    Key(e) in TableOf(s, e.network)
  }

  /** An element to close is not found under its key: the code goes through a nil listener. */
  ghost predicate Panics(s: Live, requested: seq<Element>)
    requires Inv(s)
  {
    exists e :: e in NeedClose(s, requested) && !Found(s, e)
  }

  ghost function KeysOf(es: set<Element>, network: string): set<string> {
    set e | e in es && (e.network == "tcp" <==> network == "tcp") :: Key(e)
  }

  ghost function IdsAt(t: Table, keys: set<string>): set<nat> {
    set k | k in t && k in keys :: t[k]
  }

  /** With some elements closed and taken out of their tables. */
  ghost function Without(s: Live, es: set<Element>): Live {
    Live(s.tcp - KeysOf(es, "tcp"), s.udp - KeysOf(es, "udp"),
      s.closed + IdsAt(s.tcp, KeysOf(es, "tcp")) + IdsAt(s.udp, KeysOf(es, "udp")), s.next)
  }

  ghost function Opened(s: Live, e: Element, ok: bool): Live {
    if !ok then s
    else if e.network == "tcp" then s.(tcp := s.tcp[Key(e) := s.next], next := s.next + 1)
    else s.(udp := s.udp[Key(e) := s.next], next := s.next + 1)
  }

  ghost function AllOpened(s: Live, es: seq<Element>, ok: nat -> bool): Live {
    if es == [] then s
    else Opened(AllOpened(s, es[..|es| - 1], ok), es[|es| - 1], ok(|es| - 1))
  }

  ghost function Patched(s: Live, requested: seq<Element>, ok: nat -> bool): Live
    requires Inv(s)
  {
    AllOpened(Without(s, NeedClose(s, requested)), NeedCreate(Running(s), requested), ok)
  }

  /** The elements a configuration asks for. */
  ghost function Requested(tunnels: seq<Tunnel>): seq<Element> {
    if tunnels == [] then []
    else
      var last := tunnels[|tunnels| - 1];
      Requested(tunnels[..|tunnels| - 1]) + ElementsOf(last)
  }

  /** Some tunnel of the configuration asks for e: for its network, on its address, to its target, by its proxy. */
  ghost predicate AskedFor(tunnels: seq<Tunnel>, e: Element) {
    exists t :: t in tunnels && Asks(t, e)
  }

  ghost predicate Asks(t: Tunnel, e: Element) {
    e.network in t.network && e.addr == t.address && e.target == t.target && e.proxy == t.proxy
  }

  ghost function ElementsOf(t: Tunnel): (r: seq<Element>)
    ensures |r| == |t.network|
    ensures forall j :: 0 <= j < |r| ==> r[j] == Element(t.network[j], t.address, t.target, t.proxy)
  {
    seq(|t.network|, j requires 0 <= j < |t.network| => Element(t.network[j], t.address, t.target, t.proxy))
  }

  /** The elements of each tunnel stand behind those of the tunnels before it, in the order of its networks. */
  lemma {:induction false} RequestedAt(tunnels: seq<Tunnel>, i: nat, j: nat)
    requires i < |tunnels| && j < |tunnels[i].network|
    ensures var from := |Requested(tunnels[..i])|;
      && from + |tunnels[i].network| <= |Requested(tunnels)|
      && Requested(tunnels)[from + j]
         == Element(tunnels[i].network[j], tunnels[i].address, tunnels[i].target, tunnels[i].proxy)
    ensures i == |tunnels| - 1 ==> |Requested(tunnels)| == |Requested(tunnels[..i])| + |tunnels[i].network|
  {
    var front := tunnels[..|tunnels| - 1];
    if i < |front| {
      RequestedAt(front, i, j);
      assert front[..i] == tunnels[..i];
    }
  }

  /** An element is requested exactly if some tunnel asks for it. */
  lemma {:induction false} RequestedIff(tunnels: seq<Tunnel>, e: Element)
    ensures e in Requested(tunnels) <==>
      exists t ::
        t in tunnels && e.network in t.network && e.addr == t.address && e.target == t.target && e.proxy == t.proxy
  {
    if tunnels == [] {
    } else {
      var front, last := tunnels[..|tunnels| - 1], tunnels[|tunnels| - 1];
      RequestedIff(front, e);
      assert tunnels == front + [last];
      assert Requested(tunnels) == Requested(front) + ElementsOf(last);
      if e.network in last.network && e == Element(e.network, last.address, last.target, last.proxy) {
        var j :| 0 <= j < |last.network| && last.network[j] == e.network;
        assert ElementsOf(last)[j] == e;
      }
    }
  }

  // ----- the operation -----

  class Listeners {
    var tcp: Table
    var udp: Table
    var next: nat
    ghost var closed: set<nat>

    constructor ()
      ensures State() == Nothing()
    {
      tcp, udp, next, closed := map[], map[], 0, {};
    }

    ghost function State(): Live
      reads this
    {
      Live(tcp, udp, closed, next)
    }

    /** Closing takes a listener that has not been closed before. */
    method CloseOne(e: Element)
      requires Inv(State()) && Key(e) in TableOf(State(), e.network)
      requires TableOf(State(), e.network)[Key(e)] !in closed
      modifies this
      ensures State() == Without(old(State()), {e})
    {
      ghost var was := State();
      var key := Key(e);
      if e.network == "tcp" {
        closed := closed + {tcp[key]};
        tcp := tcp - {key};
        assert KeysOf({e}, "tcp") == {key} && KeysOf({e}, "udp") == {};
        assert IdsAt(was.tcp, {key}) == {was.tcp[key]} && IdsAt(was.udp, {}) == {};
      } else {
        closed := closed + {udp[key]};
        udp := udp - {key};
        assert KeysOf({e}, "udp") == {key} && KeysOf({e}, "tcp") == {};
        assert IdsAt(was.udp, {key}) == {was.udp[key]} && IdsAt(was.tcp, {}) == {};
      }
    }

    /** One element more, unless it is missing. */
    method CloseNext(es: set<Element>, ghost gone: set<Element>, e: Element, ghost was: Live) returns (panicked: bool)
      requires Inv(was) && AsRead(es) && gone <= es && e in es && e !in gone && State() == Without(was, gone)
      modifies this
      ensures panicked <==> !Found(was, e)
      ensures !panicked ==> State() == Without(was, gone + {e})
    {
      WithoutKeepsInv(was, gone);
      StillThere(was, es, gone, e);
      if Key(e) !in (if e.network == "tcp" then tcp else udp) {
        return true;
      }
      ListedIsOpen(State(), e);
      CloseOne(e);
      WithoutOneMore(was, gone, e);
      return false;
    }

    /** The elements are closed in any order; the first one missing ends it all. */
    method CloseAll(es: set<Element>) returns (panicked: bool)
      requires Inv(State()) && AsRead(es)
      modifies this
      ensures panicked <==> exists e :: e in es && !Found(old(State()), e)
      ensures !panicked ==> State() == Without(old(State()), es)
    {
      ghost var was := State();
      var toDo := es;
      ghost var gone: set<Element> := {};
      WithoutNothing(was);
      while toDo != {}
        invariant toDo <= es && gone == es - toDo
        invariant State() == Without(was, gone)
        invariant forall e :: e in gone ==> Found(was, e)
        decreases |toDo|
      {
        var e :| e in toDo;
        panicked := CloseNext(es, gone, e, was);
        if panicked {
          return;
        }
        toDo := toDo - {e};
        gone := gone + {e};
      }
      assert gone == es;
      return false;
    }

    method OpenOne(e: Element, ok: bool)
      modifies this
      ensures State() == Opened(old(State()), e, ok)
    {
      if !ok {
        return;
      }
      if e.network == "tcp" {
        tcp := tcp[Key(e) := next];
      } else {
        udp := udp[Key(e) := next];
      }
      next := next + 1;
    }

    method OpenAll(es: seq<Element>, ok: nat -> bool)
      modifies this
      ensures State() == AllOpened(old(State()), es, ok)
    {
      for i := 0 to |es|
        invariant State() == AllOpened(old(State()), es[..i], ok)
      {
        PrefixGrows(es, i);
        FrontOfSnoc(es[..i], es[i]);
        OpenOne(es[i], ok(i));
      }
      WholePrefix(es);
    }

    method RunningIn(t: Table, network: string) returns (es: set<Element>)
      requires Readable(t)
      ensures es == set k | k in t :: FromKey(network, k)
    {
      es := {};
      var toDo := t.Keys;
      while toDo != {}
        invariant toDo <= t.Keys
        invariant es == set k | k in t && k !in toDo :: FromKey(network, k)
        decreases |toDo|
      {
        var k :| k in toDo;
        toDo := toDo - {k};
        es := es + {FromKey(network, k)};
      }
    }

    method PatchTunnel(tunnels: seq<Tunnel>, ok: nat -> bool) returns (panicked: bool)
      requires Inv(State())
      modifies this
      ensures panicked <==> Panics(old(State()), Requested(tunnels))
      ensures !panicked ==> State() == Patched(old(State()), Requested(tunnels), ok)
      ensures MayRun(old(State()), tunnels) ==>
        && !panicked && Tidy(State())
        && (forall e :: e in Running(State()) ==> AskedFor(tunnels, e))
        && (forall e :: e in Running(old(State())) && AskedFor(tunnels, e) ==>
          e in Running(State()) && Found(old(State()), e) && Keeps(old(State()), State(), e))
        && ((forall i :: ok(i)) ==> forall e :: AskedFor(tunnels, e) ==> e in Running(State()))
    {
      if MayRun(State(), tunnels) {
        PatchRunsAsked(State(), tunnels, ok);
      }
      var oldTcp := RunningIn(tcp, "tcp");
      var oldUdp := RunningIn(udp, "udp");
      var requested := FlatMap(tunnels);
      var create := Missing(oldTcp + oldUdp, requested);
      var close := oldTcp + oldUdp - set e | e in requested;
      assert close == NeedClose(State(), requested);
      RunningIsAsRead(State());
      panicked := CloseAll(close);
      if !panicked {
        OpenAll(create, ok);
      }
    }
  }

  ghost function Nothing(): Live {
    Live(map[], map[], {}, 0)
  }

  method FlatMap(tunnels: seq<Tunnel>) returns (es: seq<Element>)
    ensures es == Requested(tunnels)
  {
    es := [];
    for i := 0 to |tunnels|
      invariant es == Requested(tunnels[..i])
    {
      var t := tunnels[i];
      PrefixGrows(tunnels, i);
      FrontOfSnoc(tunnels[..i], t);
      es := es
        + seq(|t.network|, j requires 0 <= j < |t.network| => Element(t.network[j], t.address, t.target, t.proxy));
    }
    WholePrefix(tunnels);
  }

  method Missing(running: set<Element>, requested: seq<Element>) returns (es: seq<Element>)
    ensures es == NeedCreate(running, requested)
  {
    es := [];
    for i := 0 to |requested|
      invariant es == NeedCreate(running, requested[..i])
    {
      PrefixGrows(requested, i);
      FrontOfSnoc(requested[..i], requested[i]);
      if requested[i] !in running {
        es := es + [requested[i]];
      }
    }
    WholePrefix(requested);
  }

  // ----- closing -----

  /** Elements as they are read back from keys. */
  ghost predicate AsRead(es: set<Element>) {
    forall e :: e in es ==> Clean(e) && (e.network == "tcp" || e.network == "udp")
  }

  lemma RunningIsAsRead(s: Live)
    requires Readable(s.tcp) && Readable(s.udp)
    ensures AsRead(Running(s))
  {
    forall k | k in s.tcp || k in s.udp
      ensures Clean(FromKey("tcp", k)) && Clean(FromKey("udp", k))
    {
      assert k[..0] == "";
      PartsAreClean(k, 0, 0);
      PartsAreClean(k, 0, 1);
      PartsAreClean(k, 0, 2);
    }
  }

  lemma WithoutNothing(s: Live)
    ensures Without(s, {}) == s
  {
  }

  lemma WithoutOneMore(s: Live, gone: set<Element>, e: Element)
    ensures Without(Without(s, gone), {e}) == Without(s, gone + {e})
  {
    var more := gone + {e};
    assert KeysOf(more, "tcp") == KeysOf(gone, "tcp") + KeysOf({e}, "tcp");
    assert KeysOf(more, "udp") == KeysOf(gone, "udp") + KeysOf({e}, "udp");
    IdsAtTwo(s.tcp, KeysOf(gone, "tcp"), KeysOf({e}, "tcp"));
    IdsAtTwo(s.udp, KeysOf(gone, "udp"), KeysOf({e}, "udp"));
  }

  lemma IdsAtTwo(t: Table, a: set<string>, b: set<string>)
    ensures IdsAt(t, a) + IdsAt(t - a, b) == IdsAt(t, a + b)
    ensures t - a - b == t - (a + b)
  {
    forall id | id in IdsAt(t, a + b) ensures id in IdsAt(t, a) + IdsAt(t - a, b) {
      var k :| k in t && k in a + b && t[k] == id;
      if k !in a {
        assert k in t - a && (t - a)[k] == id;
      }
    }
  }

  /** What is closed leaves the key of every other element in place. */
  lemma StillThere(s: Live, es: set<Element>, gone: set<Element>, e: Element)
    requires AsRead(es) && gone <= es && e in es && e !in gone
    ensures Key(e) in TableOf(Without(s, gone), e.network) <==> Key(e) in TableOf(s, e.network)
  {
    if Key(e) in KeysOf(gone, e.network) {
      var d :| d in gone && (d.network == "tcp" <==> e.network == "tcp") && Key(d) == Key(e);
      CleanKeysDiffer(d, e);
    }
  }

  lemma ListedIsOpen(s: Live, e: Element)
    requires Inv(s) && Key(e) in TableOf(s, e.network)
    ensures TableOf(s, e.network)[Key(e)] !in s.closed
  {
    assert TableOf(s, e.network)[Key(e)] in Ids(s);
  }

  lemma WithoutKeepsInv(s: Live, es: set<Element>)
    requires Inv(s)
    ensures Inv(Without(s, es))
  {
    var v := Without(s, es);
    forall id | id in Ids(v) ensures id in Ids(s) && id !in v.closed {
    }
    forall id | id in v.closed ensures id < v.next {
      if id !in s.closed {
        assert id in Ids(s);
      }
    }
  }

  // ----- no listener is in two places or closed twice, over any run -----

  lemma OpenedKeepsInv(s: Live, e: Element, ok: bool)
    requires Inv(s)
    ensures Inv(Opened(s, e, ok))
  {
    var v := Opened(s, e, ok);
    KeyHasThreeParts(e);
    forall id | id in Ids(v) ensures id < v.next && id !in v.closed {
      assert id in Ids(s) || id == s.next;
    }
    forall k | k in s.tcp ensures s.tcp[k] != s.next {
      assert s.tcp[k] in Ids(s);
    }
    forall k | k in s.udp ensures s.udp[k] != s.next {
      assert s.udp[k] in Ids(s);
    }
  }

  lemma {:induction false} AllOpenedKeepsInv(s: Live, es: seq<Element>, ok: nat -> bool)
    requires Inv(s)
    ensures Inv(AllOpened(s, es, ok))
  {
    if es == [] {
    } else {
      AllOpenedKeepsInv(s, es[..|es| - 1], ok);
      OpenedKeepsInv(AllOpened(s, es[..|es| - 1], ok), es[|es| - 1], ok(|es| - 1));
    }
  }

  /** Whatever is requested, with or without slashes or repetitions. */
  lemma PatchKeepsInv(s: Live, requested: seq<Element>, ok: nat -> bool)
    requires Inv(s)
    ensures Inv(Patched(s, requested, ok))
  {
    WithoutKeepsInv(s, NeedClose(s, requested));
    AllOpenedKeepsInv(Without(s, NeedClose(s, requested)), NeedCreate(Running(s), requested), ok);
  }

  // ----- requests that are read back as they are -----

  ghost predicate Proper(e: Element) {
    Clean(e) && (e.network == "tcp" || e.network == "udp")
  }

  ghost predicate ProperRequest(requested: seq<Element>) {
    Distinct(requested) && forall i :: 0 <= i < |requested| ==> Proper(requested[i])
  }

  /** Every key in the tables has just three parts. */
  ghost predicate Tidy(s: Live) {
    && Inv(s)
    && (forall k :: k in s.tcp ==> Key(FromKey("tcp", k)) == k)
    && (forall k :: k in s.udp ==> Key(FromKey("udp", k)) == k)
  }

  lemma RunningIff(s: Live, e: Element)
    requires Tidy(s) && Proper(e)
    ensures e in Running(s) <==> Found(s, e)
  {
    ReadBackIff(e);
    if e in Running(s) {
      if k :| k in s.tcp && FromKey("tcp", k) == e {
      } else {
        var k :| k in s.udp && FromKey("udp", k) == e;
      }
    }
  }

  lemma TidyNeverPanics(s: Live, requested: seq<Element>)
    requires Tidy(s)
    ensures !Panics(s, requested)
  {
    RunningIsAsRead(s);
    forall e | e in NeedClose(s, requested) ensures Found(s, e) {
      RunningIff(s, e);
    }
  }

  lemma {:induction false} NeedCreateHas(running: set<Element>, requested: seq<Element>)
    ensures forall e :: e in NeedCreate(running, requested) <==> e in requested && e !in running
    ensures Distinct(requested) ==> Distinct(NeedCreate(running, requested))
  {
    if requested == [] {
    } else {
      var front, last := requested[..|requested| - 1], requested[|requested| - 1];
      NeedCreateHas(running, front);
      assert requested == front + [last];
      if Distinct(requested) {
        assert last !in front;
      }
    }
  }

  /** Opening proper elements, each once: an element is found if it was before or its own opening succeeded. */
  lemma {:induction false} AllOpenedFinds(s: Live, es: seq<Element>, ok: nat -> bool, e: Element)
    requires ProperRequest(es) && Proper(e)
    ensures e !in es ==> (Found(AllOpened(s, es, ok), e) <==> Found(s, e))
    ensures e !in es && Found(s, e) ==>
      TableOf(AllOpened(s, es, ok), e.network)[Key(e)] == TableOf(s, e.network)[Key(e)]
    ensures forall i :: 0 <= i < |es| && es[i] == e && !Found(s, e) ==> (Found(AllOpened(s, es, ok), e) <==> ok(i))
  {
    if es == [] {
    } else {
      var front, last := es[..|es| - 1], es[|es| - 1];
      AllOpenedFinds(s, front, ok, e);
      assert es == front + [last];
      if Key(last) == Key(e) && last.network == e.network {
        CleanKeysDiffer(last, e);
      }
    }
  }

  lemma {:induction false} AllOpenedStaysTidy(s: Live, es: seq<Element>, ok: nat -> bool)
    requires Tidy(s) && forall i :: 0 <= i < |es| ==> Proper(es[i])
    ensures Tidy(AllOpened(s, es, ok))
  {
    if es == [] {
    } else {
      var front, last := es[..|es| - 1], es[|es| - 1];
      AllOpenedStaysTidy(s, front, ok);
      OpenedKeepsInv(AllOpened(s, front, ok), last, ok(|es| - 1));
      ReadBackIff(last);
    }
  }

  /** What is closed is what is not requested. */
  lemma WithoutFinds(s: Live, requested: seq<Element>, e: Element)
    requires Tidy(s) && Proper(e)
    ensures var v := Without(s, NeedClose(s, requested));
      && (Found(v, e) <==> e in Running(s) && e in requested)
      && (Found(v, e) ==> TableOf(v, e.network)[Key(e)] == TableOf(s, e.network)[Key(e)])
  {
    var es := NeedClose(s, requested);
    RunningIff(s, e);
    RunningIsAsRead(s);
    if Key(e) in KeysOf(es, e.network) {
      var d :| d in es && (d.network == "tcp" <==> e.network == "tcp") && Key(d) == Key(e);
      CleanKeysDiffer(d, e);
    }
  }

  lemma WithoutIsTidy(s: Live, es: set<Element>)
    requires Tidy(s)
    ensures Tidy(Without(s, es))
  {
    WithoutKeepsInv(s, es);
  }

  ghost predicate Requestable(s: Live, requested: seq<Element>) {
    Tidy(s) && ProperRequest(requested)
  }

  lemma PatchedStaysTidy(s: Live, requested: seq<Element>, ok: nat -> bool)
    requires Requestable(s, requested)
    ensures Tidy(Patched(s, requested, ok)) && !Panics(s, requested)
  {
    TidyNeverPanics(s, requested);
    WithoutIsTidy(s, NeedClose(s, requested));
    CreatesAreProper(s, requested);
    AllOpenedStaysTidy(Without(s, NeedClose(s, requested)), NeedCreate(Running(s), requested), ok);
  }

  lemma CreatesAreProper(s: Live, requested: seq<Element>)
    requires Requestable(s, requested)
    ensures ProperRequest(NeedCreate(Running(s), requested))
  {
    var es := NeedCreate(Running(s), requested);
    NeedCreateHas(Running(s), requested);
    forall i | 0 <= i < |es| ensures Proper(es[i]) {
      assert es[i] in requested;
    }
  }

  /**
   * After a patch, what runs is what was requested, without the elements whose opening
   * failed; what ran before and is still requested runs on with the same listener.
   */
  lemma PatchMeetsRequest(s: Live, requested: seq<Element>, ok: nat -> bool, e: Element)
    requires Requestable(s, requested) && Proper(e)
    ensures var v, create := Patched(s, requested, ok), NeedCreate(Running(s), requested);
      && Tidy(v)
      && (e in Running(v) ==> e in requested)
      && (e in Running(s) && e in requested ==>
        e in Running(v) && Found(s, e) && Found(v, e)
        && TableOf(v, e.network)[Key(e)] == TableOf(s, e.network)[Key(e)])
      && (e in requested && e !in Running(s) ==> e in create)
      && (forall i :: 0 <= i < |create| && create[i] == e ==> (e in Running(v) <==> ok(i)))
  {
    var create := NeedCreate(Running(s), requested);
    var mid := Without(s, NeedClose(s, requested));
    PatchedStaysTidy(s, requested, ok);
    NeedCreateHas(Running(s), requested);
    CreatesAreProper(s, requested);
    WithoutFinds(s, requested, e);
    AllOpenedFinds(mid, create, ok, e);
    RunningIff(s, e);
    RunningIff(Patched(s, requested, ok), e);
  }

  // ----- what runs, told by the configuration -----

  /** Only three-part keys are about, and the configuration asks for tcp and udp, without slashes. */
  ghost predicate MayRun(s: Live, tunnels: seq<Tunnel>) {
    Tidy(s) && forall e :: AskedFor(tunnels, e) ==> Proper(e)
  }

  lemma RequestedIsProper(s: Live, tunnels: seq<Tunnel>)
    requires MayRun(s, tunnels)
    ensures forall i :: 0 <= i < |Requested(tunnels)| ==> Proper(Requested(tunnels)[i])
    ensures forall e :: e in Requested(tunnels) <==> AskedFor(tunnels, e)
  {
    forall e ensures e in Requested(tunnels) <==> AskedFor(tunnels, e) {
      AskedForIff(tunnels, e);
      RequestedIff(tunnels, e);
    }
    forall i | 0 <= i < |Requested(tunnels)| ensures Proper(Requested(tunnels)[i]) {
      assert Requested(tunnels)[i] in Requested(tunnels);
    }
  }

  lemma AskedForIff(tunnels: seq<Tunnel>, e: Element)
    ensures AskedFor(tunnels, e) <==>
      exists t ::
        t in tunnels && e.network in t.network && e.addr == t.address && e.target == t.target && e.proxy == t.proxy
  {
    if t :|
      t in tunnels && e.network in t.network && e.addr == t.address && e.target == t.target && e.proxy == t.proxy
    {
      assert Asks(t, e);
    }
    if t :| t in tunnels && Asks(t, e) {
      assert e.network in t.network;
    }
  }

  /** A proper element runs after a patch if it ran and is still requested, or one of its openings succeeded. */
  lemma RunsAfterIff(s: Live, requested: seq<Element>, ok: nat -> bool, e: Element)
    requires Tidy(s) && (forall i :: 0 <= i < |requested| ==> Proper(requested[i])) && Proper(e)
    ensures var v, create := Patched(s, requested, ok), NeedCreate(Running(s), requested);
      && Tidy(v)
      && (e in Running(v) <==>
        (e in Running(s) && e in requested) || exists i :: 0 <= i < |create| && ok(i) && create[i] == e)
  {
    var mid, create := Without(s, NeedClose(s, requested)), NeedCreate(Running(s), requested);
    NeedCreateHas(Running(s), requested);
    forall i | 0 <= i < |create| ensures Proper(create[i]) {
      assert create[i] in requested;
    }
    WithoutIsTidy(s, NeedClose(s, requested));
    AllOpenedStaysTidy(mid, create, ok);
    WithoutFinds(s, requested, e);
    FoundAfterOpening(mid, create, ok, e);
    RunningIff(Patched(s, requested, ok), e);
    if i :| 0 <= i < |create| && ok(i) && SameSlot(create[i], e) {
      CleanKeysDiffer(create[i], e);
    }
    if i :| 0 <= i < |create| && ok(i) && create[i] == e {
      assert SameSlot(create[i], e);
    }
  }

  lemma RunsOnlyAsked(s: Live, tunnels: seq<Tunnel>, ok: nat -> bool, e: Element)
    requires MayRun(s, tunnels) && e in Running(PatchedTidily(s, tunnels, ok))
    ensures AskedFor(tunnels, e)
  {
    var requested := Requested(tunnels);
    var create := NeedCreate(Running(s), requested);
    RequestedIsProper(s, tunnels);
    NeedCreateHas(Running(s), requested);
    RunningIsAsRead(Patched(s, requested, ok));
    RunsAfterIff(s, requested, ok, e);
    if i :| 0 <= i < |create| && ok(i) && create[i] == e {
      assert e in create;
    }
  }

  lemma AskedRunsOn(s: Live, tunnels: seq<Tunnel>, ok: nat -> bool, e: Element)
    requires MayRun(s, tunnels) && e in Running(s) && AskedFor(tunnels, e)
    ensures e in Running(PatchedTidily(s, tunnels, ok)) && Found(s, e) && Keeps(s, PatchedTidily(s, tunnels, ok), e)
  {
    var requested := Requested(tunnels);
    RequestedIsProper(s, tunnels);
    RunningIsAsRead(s);
    RunsAfterIff(s, requested, ok, e);
    RunningIff(s, e);
    ProperRequestKeepsIff(s, requested, ok, e);
  }

  lemma AskedRuns(s: Live, tunnels: seq<Tunnel>, ok: nat -> bool, e: Element)
    requires MayRun(s, tunnels) && (forall i :: ok(i)) && AskedFor(tunnels, e)
    ensures e in Running(PatchedTidily(s, tunnels, ok))
  {
    var requested := Requested(tunnels);
    RequestedIsProper(s, tunnels);
    NeedCreateHas(Running(s), requested);
    RunsAfterIff(s, requested, ok, e);
    if e !in Running(s) {
      assert e in NeedCreate(Running(s), requested);
    }
  }

  /** The state after a patch that the configuration asks for. */
  ghost function PatchedTidily(s: Live, tunnels: seq<Tunnel>, ok: nat -> bool): (v: Live)
    requires MayRun(s, tunnels)
    ensures Tidy(v) && v == Patched(s, Requested(tunnels), ok)
  {
    RequestedIsProper(s, tunnels);
    RunsAfterIff(s, Requested(tunnels), ok, Element("tcp", "", "", ""));
    Patched(s, Requested(tunnels), ok)
  }

  /**
   * What runs after a patch is asked for; what ran before and is still asked for keeps its
   * listener; and when every opening succeeds all that is asked for runs.
   */
  lemma PatchRunsAsked(s: Live, tunnels: seq<Tunnel>, ok: nat -> bool)
    requires MayRun(s, tunnels)
    ensures !Panics(s, Requested(tunnels))
    ensures var v := Patched(s, Requested(tunnels), ok);
      && Tidy(v)
      && (forall e :: e in Running(v) ==> AskedFor(tunnels, e))
      && (forall e :: e in Running(s) && AskedFor(tunnels, e) ==>
        e in Running(v) && Found(s, e) && Keeps(s, v, e))
      && ((forall i :: ok(i)) ==> forall e :: AskedFor(tunnels, e) ==> e in Running(v))
  {
    TidyNeverPanics(s, Requested(tunnels));
    var v := PatchedTidily(s, tunnels, ok);
    forall e | e in Running(v) ensures AskedFor(tunnels, e) {
      RunsOnlyAsked(s, tunnels, ok, e);
    }
    forall e | e in Running(s) && AskedFor(tunnels, e) ensures e in Running(v) && Found(s, e) && Keeps(s, v, e) {
      AskedRunsOn(s, tunnels, ok, e);
    }
    if forall i :: ok(i) {
      forall e | AskedFor(tunnels, e) ensures e in Running(v) {
        AskedRuns(s, tunnels, ok, e);
      }
    }
  }

  // ----- every listener is live or closed -----

  ghost predicate Covered(s: Live) {
    forall id :: 0 <= id < s.next ==> id in Ids(s) || id in s.closed
  }

  lemma WithoutStaysCovered(s: Live, es: set<Element>)
    requires Covered(s)
    ensures Covered(Without(s, es))
  {
    var v := Without(s, es);
    forall id | 0 <= id < v.next ensures id in Ids(v) || id in v.closed {
      assert id in Ids(s) || id in s.closed;
      if k :| k in s.tcp && s.tcp[k] == id {
        if k !in KeysOf(es, "tcp") {
          assert v.tcp[k] == id;
        }
      } else if k :| k in s.udp && s.udp[k] == id {
        if k !in KeysOf(es, "udp") {
          assert v.udp[k] == id;
        }
      }
    }
  }

  lemma OpenedStaysCovered(s: Live, e: Element, ok: bool)
    requires Covered(s) && (ok ==> !Found(s, e))
    ensures Covered(Opened(s, e, ok))
  {
    var v := Opened(s, e, ok);
    forall id | 0 <= id < v.next ensures id in Ids(v) || id in v.closed {
      if id == s.next {
        assert TableOf(v, e.network)[Key(e)] == id;
      } else {
        assert id in Ids(s) || id in s.closed;
        if k :| k in s.tcp && s.tcp[k] == id {
          assert v.tcp[k] == id;
        } else if k :| k in s.udp && s.udp[k] == id {
          assert v.udp[k] == id;
        }
      }
    }
  }

  lemma {:induction false} AllOpenedStaysCovered(s: Live, es: seq<Element>, ok: nat -> bool)
    requires Covered(s) && ProperRequest(es) && forall i :: 0 <= i < |es| ==> !Found(s, es[i])
    ensures Covered(AllOpened(s, es, ok))
  {
    if es == [] {
    } else {
      var front, last := es[..|es| - 1], es[|es| - 1];
      AllOpenedStaysCovered(s, front, ok);
      assert last !in front;
      AllOpenedFinds(s, front, ok, last);
      OpenedStaysCovered(AllOpened(s, front, ok), last, ok(|es| - 1));
    }
  }

  lemma PatchStaysCovered(s: Live, requested: seq<Element>, ok: nat -> bool)
    requires Requestable(s, requested) && Covered(s)
    ensures Covered(Patched(s, requested, ok))
  {
    var es, mid := NeedCreate(Running(s), requested), Without(s, NeedClose(s, requested));
    WithoutStaysCovered(s, NeedClose(s, requested));
    NeedCreateHas(Running(s), requested);
    CreatesAreProper(s, requested);
    forall i | 0 <= i < |es| ensures !Found(mid, es[i]) {
      assert es[i] in es;
      WithoutFinds(s, requested, es[i]);
    }
    AllOpenedStaysCovered(mid, es, ok);
  }

  datatype Patch = Patch(requested: seq<Element>, ok: nat -> bool)

  /** The state after patches from the start; none if one of them panics. */
  ghost function After(patches: seq<Patch>): (r: Option<Live>)
    ensures r.Some? ==> Inv(r.value)
  {
    if patches == [] then Some(Nothing())
    else
      var p := patches[|patches| - 1];
      match After(patches[..|patches| - 1])
      case None => None
      case Some(s) =>
        if Panics(s, p.requested) then None
        else
          PatchKeepsInv(s, p.requested, p.ok);
          Some(Patched(s, p.requested, p.ok))
  }

  /**
   * Over any run of proper patches nothing panics, and every listener ever opened is either
   * in a table or has been closed, never both; a closing always takes one not closed before.
   */
  lemma {:induction false} LiveOrClosed(patches: seq<Patch>)
    requires forall i :: 0 <= i < |patches| ==> ProperRequest(patches[i].requested)
    ensures After(patches).Some? && Tidy(After(patches).value)
    ensures var s := After(patches).value;
      (forall id :: 0 <= id < s.next <==> id in Ids(s) || id in s.closed) && Ids(s) !! s.closed
  {
    if patches == [] {
    } else {
      var p := patches[|patches| - 1];
      LiveOrClosed(patches[..|patches| - 1]);
      var s := After(patches[..|patches| - 1]).value;
      PatchedStaysTidy(s, p.requested, p.ok);
      PatchStaysCovered(s, p.requested, p.ok);
    }
  }

  // ----- listeners that get lost -----

  /** Two elements that are kept under one key of one table. */
  ghost predicate SameSlot(a: Element, b: Element) {
    Key(a) == Key(b) && (a.network == "tcp" <==> b.network == "tcp")
  }

  /** One of the first n openings succeeded in the slot of e. */
  ghost predicate OpenedAmong(es: seq<Element>, ok: nat -> bool, n: nat, e: Element)
    requires n <= |es|
  {
    exists i :: 0 <= i < n && ok(i) && SameSlot(es[i], e)
  }

  /** The j-th opening succeeds in a slot that is taken. */
  ghost predicate Overwrites(s: Live, es: seq<Element>, ok: nat -> bool, j: nat) {
    j < |es| && ok(j) && (Found(s, es[j]) || OpenedAmong(es, ok, j, es[j]))
  }

  ghost predicate NoOverwrite(s: Live, es: seq<Element>, ok: nat -> bool) {
    forall j :: !Overwrites(s, es, ok, j)
  }

  lemma OpenedAmongNext(es: seq<Element>, ok: nat -> bool, n: nat, e: Element)
    requires n < |es|
    ensures OpenedAmong(es, ok, n + 1, e) <==> OpenedAmong(es, ok, n, e) || (ok(n) && SameSlot(es[n], e))
  {
  }

  lemma OpenedAmongFront(es: seq<Element>, ok: nat -> bool, n: nat, e: Element)
    requires n < |es|
    ensures OpenedAmong(es[..|es| - 1], ok, n, e) <==> OpenedAmong(es, ok, n, e)
  {
    var front := es[..|es| - 1];
    if i :| 0 <= i < n && ok(i) && SameSlot(es[i], e) {
      assert front[i] == es[i];
    }
  }

  lemma OpenedFinds(s: Live, e: Element, ok: bool, d: Element)
    ensures Found(Opened(s, e, ok), d) <==> Found(s, d) || (ok && SameSlot(e, d))
  {
  }

  lemma {:induction false} FoundAfterOpening(s: Live, es: seq<Element>, ok: nat -> bool, e: Element)
    ensures Found(AllOpened(s, es, ok), e) <==> Found(s, e) || OpenedAmong(es, ok, |es|, e)
  {
    if es == [] {
    } else {
      var n := |es| - 1;
      FoundAfterOpening(s, es[..n], ok, e);
      OpenedAmongFront(es, ok, n, e);
      OpenedAmongNext(es, ok, n, e);
      OpenedFinds(AllOpened(s, es[..n], ok), es[n], ok(n), e);
    }
  }

  /** A listener that was opened, and is neither in a table nor closed. */
  ghost predicate Lost(s: Live, id: nat) {
    id < s.next && id !in Ids(s) && id !in s.closed
  }

  lemma CoveredIffNoneLost(s: Live)
    ensures Covered(s) <==> forall id: nat :: !Lost(s, id)
  {
    if forall id: nat :: !Lost(s, id) {
      forall id | 0 <= id < s.next ensures id in Ids(s) || id in s.closed {
        assert !Lost(s, id);
      }
    }
  }

  /** To open in a taken slot loses the listener that was there. */
  lemma OverwritingLoses(s: Live, e: Element)
    requires Inv(s) && Found(s, e)
    ensures Lost(Opened(s, e, true), TableOf(s, e.network)[Key(e)])
  {
    var id := TableOf(s, e.network)[Key(e)];
    assert id in Ids(s);
    var v := Opened(s, e, true);
    if e.network == "tcp" {
      assert forall k :: k in v.tcp ==> v.tcp[k] != id;
    } else {
      assert forall k :: k in v.udp ==> v.udp[k] != id;
    }
  }

  lemma OpenedKeepsLost(s: Live, e: Element, ok: bool, id: nat)
    requires Lost(s, id)
    ensures Lost(Opened(s, e, ok), id)
  {
    var v := Opened(s, e, ok);
    forall k | k in v.tcp ensures v.tcp[k] != id {
      assert k in s.tcp ==> s.tcp[k] in Ids(s);
    }
    forall k | k in v.udp ensures v.udp[k] != id {
      assert k in s.udp ==> s.udp[k] in Ids(s);
    }
  }

  lemma {:induction false} AllOpenedKeepsLost(s: Live, es: seq<Element>, ok: nat -> bool, id: nat)
    requires Lost(s, id)
    ensures Lost(AllOpened(s, es, ok), id)
  {
    if es == [] {
    } else {
      AllOpenedKeepsLost(s, es[..|es| - 1], ok, id);
      OpenedKeepsLost(AllOpened(s, es[..|es| - 1], ok), es[|es| - 1], ok(|es| - 1), id);
    }
  }

  lemma WithoutKeepsLost(s: Live, es: set<Element>, id: nat)
    requires Lost(s, id)
    ensures Lost(Without(s, es), id)
  {
    forall k | k in s.tcp ensures s.tcp[k] != id {
      assert s.tcp[k] in Ids(s);
    }
    forall k | k in s.udp ensures s.udp[k] != id {
      assert s.udp[k] in Ids(s);
    }
  }

  /** What one opening does to the listeners on record. */
  lemma OpenedCoveredIff(s: Live, e: Element, ok: bool)
    requires Inv(s) && Covered(s)
    ensures Covered(Opened(s, e, ok)) <==> !(ok && Found(s, e))
  {
    if ok && Found(s, e) {
      OverwritingLoses(s, e);
      CoveredIffNoneLost(Opened(s, e, ok));
    } else {
      OpenedStaysCovered(s, e, ok);
    }
  }

  lemma {:induction false} AllOpenedCoveredIff(s: Live, es: seq<Element>, ok: nat -> bool)
    requires Inv(s) && Covered(s)
    ensures Covered(AllOpened(s, es, ok)) <==> NoOverwrite(s, es, ok)
  {
    if es == [] {
    } else {
      var n := |es| - 1;
      var mid := AllOpened(s, es[..n], ok);
      AllOpenedCoveredIff(s, es[..n], ok);
      NoOverwriteNext(s, es, ok);
      AllOpenedKeepsInv(s, es[..n], ok);
      FoundAfterOpening(s, es[..n], ok, es[n]);
      OpenedAmongFront(es, ok, n, es[n]);
      if Covered(mid) {
        OpenedCoveredIff(mid, es[n], ok(n));
      } else {
        StaysUncovered(mid, es[n], ok(n));
      }
    }
  }

  lemma StaysUncovered(s: Live, e: Element, ok: bool)
    requires !Covered(s)
    ensures !Covered(Opened(s, e, ok))
  {
    CoveredIffNoneLost(s);
    CoveredIffNoneLost(Opened(s, e, ok));
    var id: nat :| Lost(s, id);
    OpenedKeepsLost(s, e, ok, id);
  }

  lemma NoOverwriteNext(s: Live, es: seq<Element>, ok: nat -> bool)
    requires es != []
    ensures NoOverwrite(s, es, ok) <==>
      NoOverwrite(s, es[..|es| - 1], ok) && !Overwrites(s, es, ok, |es| - 1)
  {
    var front := es[..|es| - 1];
    forall j: nat | j < |front| ensures Overwrites(s, front, ok, j) <==> Overwrites(s, es, ok, j) {
      OpenedAmongFront(es, ok, j, es[j]);
    }
    forall j: nat ensures Overwrites(s, es, ok, j) ==> j == |front| || Overwrites(s, front, ok, j) {
    }
  }

  /** The openings of a patch, made when what is not requested has been closed, overwrite nothing. */
  ghost predicate PatchIsSafe(s: Live, requested: seq<Element>, ok: nat -> bool)
    requires Inv(s)
  {
    NoOverwrite(Without(s, NeedClose(s, requested)), NeedCreate(Running(s), requested), ok)
  }

  /** From any state in which no listener is lost, a patch loses one exactly if it overwrites one. */
  lemma PatchCoveredIff(s: Live, requested: seq<Element>, ok: nat -> bool)
    requires Inv(s) && Covered(s)
    ensures Covered(Patched(s, requested, ok)) <==> PatchIsSafe(s, requested, ok)
  {
    WithoutKeepsInv(s, NeedClose(s, requested));
    WithoutStaysCovered(s, NeedClose(s, requested));
    AllOpenedCoveredIff(Without(s, NeedClose(s, requested)), NeedCreate(Running(s), requested), ok);
  }

  lemma PatchKeepsLost(s: Live, requested: seq<Element>, ok: nat -> bool, id: nat)
    requires Inv(s) && Lost(s, id)
    ensures Lost(Patched(s, requested, ok), id)
  {
    WithoutKeepsLost(s, NeedClose(s, requested), id);
    AllOpenedKeepsLost(Without(s, NeedClose(s, requested)), NeedCreate(Running(s), requested), ok, id);
  }

  /** A listener once lost stays lost, so a patch leaves none lost only if none was and it is safe. */
  lemma PatchedCoveredIff(s: Live, requested: seq<Element>, ok: nat -> bool)
    requires Inv(s)
    ensures Covered(Patched(s, requested, ok)) <==> Covered(s) && PatchIsSafe(s, requested, ok)
  {
    if Covered(s) {
      PatchCoveredIff(s, requested, ok);
    } else {
      CoveredIffNoneLost(s);
      CoveredIffNoneLost(Patched(s, requested, ok));
      var id: nat :| Lost(s, id);
      PatchKeepsLost(s, requested, ok, id);
    }
  }

  /** Every patch of the run is safe in the state that it meets. */
  ghost predicate AllSafe(patches: seq<Patch>) {
    if patches == [] then true
    else
      var front, last := patches[..|patches| - 1], patches[|patches| - 1];
      AllSafe(front) && (After(front).Some? ==> PatchIsSafe(After(front).value, last.requested, last.ok))
  }

  /** Over any run that does not panic, every listener is live or closed exactly if no patch overwrites one. */
  lemma {:induction false} RunCoveredIff(patches: seq<Patch>)
    requires After(patches).Some?
    ensures Covered(After(patches).value) <==> AllSafe(patches)
  {
    if patches == [] {
    } else {
      var front, last := patches[..|patches| - 1], patches[|patches| - 1];
      RunCoveredIff(front);
      PatchedCoveredIff(After(front).value, last.requested, last.ok);
    }
  }

  /** Two openings of one proper element both succeed. */
  ghost predicate OpenedTwice(es: seq<Element>, ok: nat -> bool, i: nat, j: nat) {
    i < j < |es| && es[i] == es[j] && ok(i) && ok(j)
  }

  lemma ProperOverwrites(s: Live, es: seq<Element>, ok: nat -> bool, j: nat)
    requires AllFree(s, es)
    ensures Overwrites(s, es, ok, j) <==> exists i: nat :: OpenedTwice(es, ok, i, j)
  {
    if Overwrites(s, es, ok, j) {
      var i :| 0 <= i < j && ok(i) && SameSlot(es[i], es[j]);
      CleanKeysDiffer(es[i], es[j]);
      assert OpenedTwice(es, ok, i, j);
    }
    if i: nat :| OpenedTwice(es, ok, i, j) {
      assert SameSlot(es[i], es[j]);
    }
  }

  ghost predicate NoneTwice(es: seq<Element>, ok: nat -> bool) {
    forall i: nat, j: nat :: !OpenedTwice(es, ok, i, j)
  }

  lemma ProperNoOverwrite(s: Live, es: seq<Element>, ok: nat -> bool)
    requires AllFree(s, es)
    ensures NoOverwrite(s, es, ok) <==> NoneTwice(es, ok)
  {
    if j: nat :| Overwrites(s, es, ok, j) {
      ProperOverwrites(s, es, ok, j);
    }
    if i: nat, j: nat :| OpenedTwice(es, ok, i, j) {
      ProperOverwrites(s, es, ok, j);
    }
  }

  ghost predicate AllFree(s: Live, es: seq<Element>) {
    forall k :: 0 <= k < |es| ==> Proper(es[k]) && !Found(s, es[k])
  }

  /** What a request of proper elements opens is not there. */
  lemma CreatesAreFree(s: Live, requested: seq<Element>)
    requires Tidy(s) && forall i :: 0 <= i < |requested| ==> Proper(requested[i])
    ensures AllFree(Without(s, NeedClose(s, requested)), NeedCreate(Running(s), requested))
  {
    var es := NeedCreate(Running(s), requested);
    NeedCreateHas(Running(s), requested);
    forall k | 0 <= k < |es|
      ensures Proper(es[k]) && !Found(Without(s, NeedClose(s, requested)), es[k])
    {
      assert es[k] in requested && es[k] !in Running(s);
      WithoutFinds(s, requested, es[k]);
    }
  }

  /** A request of proper elements, with repetitions, loses a listener exactly if one is opened twice. */
  lemma RepetitionLosesListener(s: Live, requested: seq<Element>, ok: nat -> bool)
    requires Tidy(s) && Covered(s) && forall i :: 0 <= i < |requested| ==> Proper(requested[i])
    ensures Covered(Patched(s, requested, ok)) <==> NoneTwice(NeedCreate(Running(s), requested), ok)
  {
    CreatesAreFree(s, requested);
    RepetitionAmongFree(s, requested, ok);
  }

  lemma RepetitionAmongFree(s: Live, requested: seq<Element>, ok: nat -> bool)
    requires Inv(s) && Covered(s)
    requires AllFree(Without(s, NeedClose(s, requested)), NeedCreate(Running(s), requested))
    ensures Covered(Patched(s, requested, ok)) <==> NoneTwice(NeedCreate(Running(s), requested), ok)
  {
    PatchCoveredIff(s, requested, ok);
    ProperNoOverwrite(Without(s, NeedClose(s, requested)), NeedCreate(Running(s), requested), ok);
  }

  // ----- slashes -----

  ghost function Join(parts: seq<string>): string
    requires parts != []
  {
    if |parts| == 1 then parts[0] else parts[0] + "/" + Join(parts[1..])
  }

  lemma {:induction false} SplitJoins(s: string, i: nat)
    requires i <= |s|
    ensures Join(SplitFrom(s, i)) == s
    decreases |s|, |s| - i
  {
    if i == |s| {
    } else if s[i] == '/' {
      SplitJoins(s[i + 1..], 0);
      assert SplitFrom(s, i)[1..] == SplitFrom(s[i + 1..], 0);
      assert s == s[..i] + "/" + s[i + 1..];
    } else {
      SplitJoins(s, i + 1);
    }
  }

  lemma ThreePartsKey(network: string, key: string)
    requires |Split(key)| == 3
    ensures Key(FromKey(network, key)) == key
  {
    var parts := Split(key);
    SplitJoins(key, 0);
    assert parts[1..][1..] == [parts[2]];
    assert Join(parts[1..]) == parts[1] + "/" + parts[2];
    assert key == parts[0] + "/" + (parts[1] + "/" + parts[2]);
  }

  /** A key of more than three parts, whose listener is read back as one neither requested nor there. */
  ghost predicate Misread(s: Live, requested: seq<Element>, network: string, key: string) {
    && (network == "tcp" || network == "udp") && key in TableOf(s, network)
    && |Split(key)| > 3
    && FromKey(network, key) !in requested && !Found(s, FromKey(network, key))
  }

  /** In any state a patch panics exactly if a key with more than two slashes is misread. */
  lemma PanicsIff(s: Live, requested: seq<Element>)
    requires Inv(s)
    ensures Panics(s, requested) <==> exists network, key :: Misread(s, requested, network, key)
  {
    if Panics(s, requested) {
      var e :| e in NeedClose(s, requested) && !Found(s, e);
      var key :| (key in s.tcp && e == FromKey("tcp", key)) || (key in s.udp && e == FromKey("udp", key));
      if |Split(key)| == 3 {
        ThreePartsKey(e.network, key);
      }
      assert Misread(s, requested, e.network, key);
    }
    if network, key :| Misread(s, requested, network, key) {
      assert FromKey(network, key) in NeedClose(s, requested);
    }
  }

  lemma SlashedKey(e: Element)
    ensures |Split(Key(e))| > 3 <==> !Clean(e)
  {
    PartsCount(Key(e), 0);
    assert Key(e)[0..] == Key(e);
    CountSlashes(e);
    SlashFree(e.addr);
    SlashFree(e.target);
    SlashFree(e.proxy);
  }

  /**
   * However it got there, an element that runs with a slash in one of its parts makes the
   * next patch panic, unless what its key is read back as is requested or running too.
   */
  lemma SlashPanicsNextTime(s: Live, requested: seq<Element>, e: Element)
    requires Inv(s) && (e.network == "tcp" || e.network == "udp") && Found(s, e) && !Clean(e)
    ensures |Split(Key(e))| >= 3
    ensures Panics(s, requested) || FromKey(e.network, Key(e)) in requested || Found(s, FromKey(e.network, Key(e)))
  {
    SlashedKey(e);
    PanicsIff(s, requested);
    if FromKey(e.network, Key(e)) !in requested && !Found(s, FromKey(e.network, Key(e))) {
      assert Misread(s, requested, e.network, Key(e));
    }
  }

  lemma CountSlashes(e: Element)
    ensures Slashes(Key(e)) == 2 + Slashes(e.addr) + Slashes(e.target) + Slashes(e.proxy)
  {
    SlashesAdd(e.addr + "/" + e.target + "/", e.proxy);
    SlashesAdd(e.addr + "/" + e.target, "/");
    SlashesAdd(e.addr + "/", e.target);
    SlashesAdd(e.addr, "/");
    assert Slashes("/") == 1 + Slashes("/"[1..]);
  }

  lemma {:induction false} SlashFree(s: string)
    ensures Slashes(s) == 0 <==> NoSlash(s)
  {
    if s == "" {
    } else {
      SlashFree(s[1..]);
      assert s == [s[0]] + s[1..];
    }
  }

  // ----- which listeners are kept -----

  /** The element that a clean element is read back as. */
  ghost function AsReadBack(e: Element): Element {
    e.(network := if e.network == "tcp" then "tcp" else "udp")
  }

  ghost function ListenerOf(s: Live, e: Element): nat
    requires Found(s, e)
  {
    TableOf(s, e.network)[Key(e)]
  }

  /** The listener of e is still the one under its key. */
  ghost predicate Keeps(s: Live, v: Live, e: Element)
    requires Found(s, e)
  {
    Found(v, e) && ListenerOf(v, e) == ListenerOf(s, e)
  }

  /** What is read back from the key of e is not requested. */
  ghost predicate GivenUp(requested: seq<Element>, e: Element) {
    Clean(e) && AsReadBack(e) !in requested
  }

  /** Some opening that the patch makes succeeds in the slot of e. */
  ghost predicate Reopened(s: Live, requested: seq<Element>, ok: nat -> bool, e: Element)
    requires Inv(s)
  {
    var create := NeedCreate(Running(s), requested);
    OpenedAmong(create, ok, |create|, e)
  }

  /** The closings take the listener of e exactly if it is given up. */
  lemma WithoutKeepsIff(s: Live, requested: seq<Element>, e: Element)
    requires Inv(s) && Found(s, e)
    ensures var v := Without(s, NeedClose(s, requested));
      && (Found(v, e) <==> !GivenUp(requested, e))
      && (Found(v, e) ==> ListenerOf(v, e) == ListenerOf(s, e))
      && (ListenerOf(s, e) in v.closed <==> GivenUp(requested, e))
  {
    var es := NeedClose(s, requested);
    KeyClosedIff(s, requested, e);
    ListedIsOpen(s, e);
    var keys := KeysOf(es, e.network);
    assert TableOf(Without(s, es), e.network) == TableOf(s, e.network) - keys;
    IdClosedIff(s, es, e);
  }

  lemma KeyClosedIff(s: Live, requested: seq<Element>, e: Element)
    requires Inv(s) && Found(s, e)
    ensures Key(e) in KeysOf(NeedClose(s, requested), e.network) <==> GivenUp(requested, e)
  {
    var es := NeedClose(s, requested);
    RunningIsAsRead(s);
    if Key(e) in KeysOf(es, e.network) {
      var d :| d in es && (d.network == "tcp" <==> e.network == "tcp") && Key(d) == Key(e);
      CleanKeySplits(d);
      SlashedKey(e);
      CleanKeySplits(e);
      assert d == AsReadBack(e);
    }
    if GivenUp(requested, e) {
      CleanKeySplits(e);
      assert FromKey(AsReadBack(e).network, Key(e)) == AsReadBack(e);
      assert AsReadBack(e) in es && Key(AsReadBack(e)) == Key(e);
    }
  }

  /** Since no listener is in two places, it is closed exactly if its key goes. */
  lemma IdClosedIff(s: Live, es: set<Element>, e: Element)
    requires Inv(s) && Found(s, e)
    ensures ListenerOf(s, e) in Without(s, es).closed <==> Key(e) in KeysOf(es, e.network)
  {
    ListedIsOpen(s, e);
    if Key(e) in KeysOf(es, e.network) {
      assert ListenerOf(s, e) in IdsAt(TableOf(s, e.network), KeysOf(es, e.network));
    }
  }

  lemma {:induction false} AllOpenedKeepsIff(s: Live, es: seq<Element>, ok: nat -> bool, e: Element)
    requires Inv(s) && Found(s, e)
    ensures Keeps(s, AllOpened(s, es, ok), e) <==> !OpenedAmong(es, ok, |es|, e)
    ensures Found(AllOpened(s, es, ok), e) && AllOpened(s, es, ok).next >= s.next
    ensures OpenedAmong(es, ok, |es|, e) ==> ListenerOf(AllOpened(s, es, ok), e) >= s.next
  {
    assert ListenerOf(s, e) in Ids(s);
    if es == [] {
    } else {
      var n := |es| - 1;
      AllOpenedKeepsIff(s, es[..n], ok, e);
      OpenedAmongFront(es, ok, n, e);
      OpenedAmongNext(es, ok, n, e);
    }
  }

  lemma {:induction false} ClosedStayClosed(s: Live, es: seq<Element>, ok: nat -> bool)
    ensures AllOpened(s, es, ok).closed == s.closed
  {
    if es == [] {
    } else {
      ClosedStayClosed(s, es[..|es| - 1], ok);
    }
  }

  /** What opening finds missing it does not bring back. */
  lemma {:induction false} AllOpenedIsNew(s: Live, es: seq<Element>, ok: nat -> bool, e: Element)
    requires !Found(s, e)
    ensures AllOpened(s, es, ok).next >= s.next
    ensures Found(AllOpened(s, es, ok), e) ==> ListenerOf(AllOpened(s, es, ok), e) >= s.next
  {
    if es == [] {
    } else {
      AllOpenedIsNew(s, es[..|es| - 1], ok, e);
    }
  }

  /**
   * What a patch does to the listener under a key, in any state, for any request and any
   * outcome of the openings: it is closed exactly if what the key is read back as is not
   * requested, and otherwise it is kept exactly if no opening succeeds under the same key.
   */
  lemma ListenerFate(s: Live, requested: seq<Element>, ok: nat -> bool, e: Element)
    requires Inv(s) && Found(s, e)
    ensures var v := Patched(s, requested, ok);
      && (ListenerOf(s, e) in v.closed <==> GivenUp(requested, e))
      && (Keeps(s, v, e) <==> !GivenUp(requested, e) && !Reopened(s, requested, ok, e))
      && (Lost(v, ListenerOf(s, e)) <==> !GivenUp(requested, e) && Reopened(s, requested, ok, e))
  {
    var mid, create := Without(s, NeedClose(s, requested)), NeedCreate(Running(s), requested);
    WithoutKeepsIff(s, requested, e);
    WithoutKeepsInv(s, NeedClose(s, requested));
    ClosedStayClosed(mid, create, ok);
    assert ListenerOf(s, e) in Ids(s);
    if GivenUp(requested, e) {
      AllOpenedIsNew(mid, create, ok, e);
    } else {
      AllOpenedKeepsIff(mid, create, ok, e);
      LostIffReplaced(mid, create, ok, e);
    }
  }

  lemma LostIffReplaced(s: Live, es: seq<Element>, ok: nat -> bool, e: Element)
    requires Inv(s) && Found(s, e)
    ensures Lost(AllOpened(s, es, ok), ListenerOf(s, e)) <==> OpenedAmong(es, ok, |es|, e)
  {
    var v := AllOpened(s, es, ok);
    AllOpenedKeepsIff(s, es, ok, e);
    ListedIsOpen(s, e);
    ClosedStayClosed(s, es, ok);
    assert ListenerOf(s, e) in Ids(s);
    if Keeps(s, v, e) {
      assert ListenerOf(v, e) in Ids(v);
    } else {
      forall k | k in v.tcp ensures v.tcp[k] != ListenerOf(s, e) {
        OldIdsStay(s, es, ok, "tcp", k);
      }
      forall k | k in v.udp ensures v.udp[k] != ListenerOf(s, e) {
        OldIdsStay(s, es, ok, "udp", k);
      }
    }
  }

  /** After opening, a listener is under a key where it was before, or it is new. */
  lemma {:induction false} OldIdsStay(s: Live, es: seq<Element>, ok: nat -> bool, network: string, k: string)
    requires network == "tcp" || network == "udp"
    requires k in TableOf(AllOpened(s, es, ok), network)
    ensures AllOpened(s, es, ok).next >= s.next
    ensures var id := TableOf(AllOpened(s, es, ok), network)[k];
      id >= s.next || (k in TableOf(s, network) && TableOf(s, network)[k] == id)
  {
    if es == [] {
    } else {
      var front := AllOpened(s, es[..|es| - 1], ok);
      NextGrows(s, es[..|es| - 1], ok);
      if k in TableOf(front, network) {
        OldIdsStay(s, es[..|es| - 1], ok, network, k);
      }
    }
  }

  lemma {:induction false} NextGrows(s: Live, es: seq<Element>, ok: nat -> bool)
    ensures AllOpened(s, es, ok).next >= s.next
  {
    if es == [] {
    } else {
      NextGrows(s, es[..|es| - 1], ok);
    }
  }

  /** A request of proper elements keeps exactly the listeners of the running elements it names. */
  lemma ProperRequestKeepsIff(s: Live, requested: seq<Element>, ok: nat -> bool, e: Element)
    requires Tidy(s) && (forall i :: 0 <= i < |requested| ==> Proper(requested[i])) && Proper(e) && Found(s, e)
    ensures Keeps(s, Patched(s, requested, ok), e) <==> e in requested
  {
    ListenerFate(s, requested, ok, e);
    NeedCreateHas(Running(s), requested);
    RunningIff(s, e);
    var create := NeedCreate(Running(s), requested);
    forall i | 0 <= i < |create| && SameSlot(create[i], e) ensures false {
      assert create[i] in requested;
      CleanKeysDiffer(create[i], e);
    }
    assert AsReadBack(e) == e;
  }

  // ----- other networks -----

  ghost predicate OtherNetwork(e: Element) {
    Clean(e) && e.network != "tcp" && e.network != "udp"
  }

  /** The udp element that an element of another network is read back as. */
  ghost function Twin(e: Element): Element {
    e.(network := "udp")
  }

  lemma OtherIsCreated(s: Live, requested: seq<Element>, e: Element) returns (i: nat)
    requires Inv(s) && OtherNetwork(e) && e in requested
    ensures var create := NeedCreate(Running(s), requested); i < |create| && create[i] == e
  {
    RunningIsAsRead(s);
    NeedCreateHas(Running(s), requested);
    var create := NeedCreate(Running(s), requested);
    assert e in create;
    i :| 0 <= i < |create| && create[i] == e;
  }

  /**
   * An element of a network that is neither tcp nor udp runs as a udp listener and is never
   * taken for running. A patch closes its listener exactly if the same element with network
   * udp is not requested; otherwise it keeps the listener exactly if nothing is opened under
   * the key, and so not when the element is requested and its own opening succeeds.
   */
  lemma OtherNetworkIsReopened(s: Live, requested: seq<Element>, ok: nat -> bool, e: Element)
    requires Inv(s) && OtherNetwork(e) && Found(s, e)
    ensures var v := Patched(s, requested, ok);
      && (ListenerOf(s, e) in v.closed <==> Twin(e) !in requested)
      && (Keeps(s, v, e) <==> Twin(e) in requested && !Reopened(s, requested, ok, e))
    ensures e in requested && (forall i :: ok(i)) ==> !Keeps(s, Patched(s, requested, ok), e)
  {
    ListenerFate(s, requested, ok, e);
    assert AsReadBack(e) == Twin(e);
    if e in requested {
      var i := OtherIsCreated(s, requested, e);
    }
  }

  /** So it is at every patch of every run. */
  lemma EveryPatchReopens(patches: seq<Patch>, e: Element, i: nat)
    requires i < |patches| && After(patches).Some? && OtherNetwork(e)
    ensures After(patches[..i]).Some? && After(patches[..i + 1]).Some?
    ensures var s, v, p := After(patches[..i]).value, After(patches[..i + 1]).value, patches[i];
      Found(s, e) ==>
        && (ListenerOf(s, e) in v.closed <==> Twin(e) !in p.requested)
        && (Keeps(s, v, e) <==> Twin(e) in p.requested && !Reopened(s, p.requested, p.ok, e))
  {
    PrefixRuns(patches, i);
    PrefixRuns(patches, i + 1);
    assert patches[..i + 1][..i] == patches[..i];
    var s, p := After(patches[..i]).value, patches[i];
    if Found(s, e) {
      OtherNetworkIsReopened(s, p.requested, p.ok, e);
    }
  }

  lemma {:induction false} PrefixRuns(patches: seq<Patch>, i: nat)
    requires i <= |patches| && After(patches).Some?
    ensures After(patches[..i]).Some?
    decreases |patches| - i
  {
    if i == |patches| {
      WholePrefix(patches);
    } else {
      PrefixRuns(patches, i + 1);
      assert patches[..i + 1][..i] == patches[..i];
    }
  }

  // ----- runs from the start -----

  lemma OnePatch(p: Patch)
    ensures After([p]) == Some(AllOpened(Nothing(), p.requested, p.ok))
  {
    var s := Nothing();
    assert [p][..0] == [] && After([]) == Some(s);
    assert Running(s) == {} && NeedClose(s, p.requested) == {};
    WithoutNothing(s);
    CreatesAll(p.requested);
  }

  lemma {:induction false} CreatesAll(requested: seq<Element>)
    ensures NeedCreate({}, requested) == requested
  {
    if requested == [] {
    } else {
      CreatesAll(requested[..|requested| - 1]);
    }
  }

  lemma OneOpened(e: Element, ok: nat -> bool)
    requires ok(0)
    ensures AllOpened(Nothing(), [e], ok) == Opened(Nothing(), e, true)
    ensures Found(Opened(Nothing(), e, true), e) && ListenerOf(Opened(Nothing(), e, true), e) == 0
    ensures forall network, key :: key in TableOf(Opened(Nothing(), e, true), network) ==> key == Key(e)
  {
    assert [e][..0] == [];
  }

  lemma OnePatchOpens(p: Patch, e: Element)
    requires p.requested == [e] && p.ok(0)
    ensures After([p]) == Some(Opened(Nothing(), e, true)) && Inv(Opened(Nothing(), e, true))
    ensures After([p, p]) ==
      if Panics(After([p]).value, p.requested) then None else Some(Patched(After([p]).value, p.requested, p.ok))
  {
    OnePatch(p);
    OneOpened(e, p.ok);
    assert [p, p][..1] == [p];
  }

  /** A slash in a part: the patch that opens the element goes well, and the same patch again panics. */
  lemma SlashRun(p: Patch, e: Element)
    requires p.requested == [e] && p.ok(0) && !Clean(e) && (e.network == "tcp" || e.network == "udp")
    ensures After([p]).Some? && After([p, p]).None?
  {
    OnePatchOpens(p, e);
    OneOpened(e, p.ok);
    var s := After([p]).value;
    SlashedKey(e);
    var d := FromKey(e.network, Key(e));
    ReadBackIff(e);
    if Found(s, d) {
      RunningIsAsRead(s);
      assert d in Running(s);
      SlashedKey(d);
    }
    PanicsIff(s, p.requested);
    assert Misread(s, p.requested, e.network, Key(e));
  }

  /** For instance. */
  lemma SlashRunHappens() returns (p: Patch)
    ensures p.requested == [Element("tcp", "a", "b", "x/y")] && After([p]).Some? && After([p, p]).None?
  {
    var proxy := "x/y";
    p := Patch([Element("tcp", "a", "b", proxy)], _ => true);
    assert proxy[1] == '/';
    SlashRun(p, p.requested[0]);
  }

  /**
   * An element requested twice whose openings both succeed, as on a port that the system picks: the
   * first listener is lost.
   */
  lemma RepetitionRun(p: Patch, e: Element)
    requires p.requested == [e, e] && p.ok(0) && p.ok(1)
    ensures After([p]).Some? && Lost(After([p]).value, 0)
  {
    OnePatch(p);
    assert [e, e][..1] == [e];
    OneOpened(e, p.ok);
    OpenedKeepsInv(Nothing(), e, true);
    OverwritingLoses(Opened(Nothing(), e, true), e);
  }

  /** A network that is neither tcp nor udp, requested twice: the second patch closes the listener. */
  lemma OtherNetworkRun(p: Patch, e: Element)
    requires p.requested == [e] && p.ok(0) && OtherNetwork(e)
    ensures After([p, p]).Some? && 0 in After([p, p]).value.closed
  {
    OnePatchOpens(p, e);
    OneOpened(e, p.ok);
    var s := After([p]).value;
    PanicsIff(s, p.requested);
    SlashedKey(e);
    OtherNetworkIsReopened(s, p.requested, p.ok, e);
  }
}
