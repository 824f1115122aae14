/**
 * The configuration made up for a share-link subscription
 * (core/config_subscription_compat.go): a main group, and with several proxies a
 * latency-tested one, under names no proxy has; the groups always pass the group sort.
 *
 * `trim` stands for strings.TrimSpace. Nothing is assumed about it, but for the question when
 * the configuration also parses: there it leaves made-up names, which have no blanks, alone.
 */
module Synthetic {
  import opened Prelude
  import opened Graphs
  import opened GroupSort
  import opened RuleMatch

  // ----- decimal suffixes -----

  function Digit(d: nat): char
    requires d < 10
  {
    "0123456789"[d]
  }

  function Decimal(n: nat): string {
    if n < 10 then [Digit(n)] else Decimal(n / 10) + [Digit(n % 10)]
  }

  /** The number that digits stand for. */
  ghost function ValueOf(s: string): int {
    if s == "" then 0 else 10 * ValueOf(s[..|s| - 1]) + (s[|s| - 1] as int - '0' as int)
  }

  /** Digits only, none to spare, and they stand for the number. */
  lemma {:induction false} DecimalReadsBack(n: nat)
    ensures ValueOf(Decimal(n)) == n && Decimal(n) != ""
    ensures forall i :: 0 <= i < |Decimal(n)| ==> '0' <= Decimal(n)[i] <= '9'
    ensures n > 0 ==> Decimal(n)[0] != '0'
  {
    DigitReadsBack(n % 10);
    if n < 10 {
      assert Decimal(n)[..0] == "";
    } else {
      DecimalReadsBack(n / 10);
      assert Decimal(n)[..|Decimal(n)| - 1] == Decimal(n / 10);
    }
  }

  lemma DigitReadsBack(d: nat)
    requires d < 10
    ensures '0' <= Digit(d) <= '9' && Digit(d) as int - '0' as int == d && (d > 0 ==> Digit(d) != '0')
  {
  }

  lemma DecimalInjective(m: nat, n: nat)
    ensures Decimal(m) == Decimal(n) ==> m == n
  {
    DecimalReadsBack(m);
    DecimalReadsBack(n);
  }

  function Candidate(base: string, i: nat): string {
    base + "-" + Decimal(i)
  }

  lemma CandidateInjective(base: string, i: nat, j: nat)
    requires Candidate(base, i) == Candidate(base, j)
    ensures i == j
  {
    assert Candidate(base, i)[|base| + 1..] == Decimal(i);
    assert Candidate(base, j)[|base| + 1..] == Decimal(j);
    DecimalInjective(i, j);
  }

  lemma CandidateIsNotBase(base: string, i: nat)
    ensures Candidate(base, i) != base
  {
    assert |Candidate(base, i)| > |base|;
  }

  /** If the base and the first candidates are all used, there are at least as many used names. */
  lemma UsedCandidates(base: string, used: set<string>, i: nat)
    requires i >= 2 && base in used && forall j :: 2 <= j < i ==> Candidate(base, j) in used
    ensures i - 1 <= |used|
  {
    var names := [base] + seq(i - 2, j requires 0 <= j < i - 2 => Candidate(base, j + 2));
    forall j, k | 0 <= j < k < |names| ensures names[j] != names[k] {
      CandidateIsNotBase(base, k + 1);
      if j > 0 && names[j] == names[k] {
        CandidateInjective(base, j + 1, k + 1);
      }
    }
    DistinctSize(names);
    forall x | x in Elements(names) ensures x in used {
      var j :| 0 <= j < |names| && names[j] == x;
    }
    SubsetSize(Elements(names), used);
  }

  /** The base if it is free, and otherwise the base with the least free number from 2 on. */
  ghost predicate IsUnique(base: string, used: set<string>, name: string) {
    && name !in used
    && (name == base ||
        exists i :: i >= 2 && name == base + "-" + Decimal(i) && base in used && AllUsed(base, used, i))
  }

  ghost predicate AllUsed(base: string, used: set<string>, i: nat) {
    forall j :: 2 <= j < i ==> base + "-" + Decimal(j) in used
  }

  /** The loop has no bound of its own; it ends because only finitely many names are used. */
  method UniqueSyntheticGroupName(base: string, used: set<string>) returns (name: string)
    ensures name !in used
    ensures name == base ||
      exists i ::
        i >= 2 && name == Candidate(base, i) && base in used && forall j :: 2 <= j < i ==> Candidate(base, j) in used
    ensures IsUnique(base, used, name)
  {
    if base !in used {
      return base;
    }
    var i := 2;
    while true
      invariant i >= 2
      invariant forall j :: 2 <= j < i ==> Candidate(base, j) in used
      decreases |used| + 2 - i
    {
      UsedCandidates(base, used, i);
      var candidate := Candidate(base, i);
      if candidate !in used {
        assert AllUsed(base, used, i) by {
          forall j | 2 <= j < i ensures base + "-" + Decimal(j) in used {
            assert Candidate(base, j) in used;
          }
        }
        return candidate;
      }
      i := i + 1;
    }
  }

  // ----- the groups -----

  datatype Subscription = NoProxies | NoNames | Groups(config: seq<Mapping>, main: string, names: seq<string>)

  /** The trimmed names that are not empty; a proxy may lack a name. */
  function ProxyNames(proxies: seq<Option<string>>, trim: string -> string): seq<string> {
    if proxies == [] then []
    else
      var front := ProxyNames(proxies[..|proxies| - 1], trim);
      match proxies[|proxies| - 1]
      case None => front
      case Some(name) => if trim(name) == "" then front else front + [trim(name)]
  }

  ghost function Trimmed(proxies: seq<Option<string>>, trim: string -> string): (r: seq<string>)
    ensures |r| == |proxies|
    ensures forall i :: 0 <= i < |r| ==> r[i] == if proxies[i].Some? then trim(proxies[i].value) else ""
  {
    seq(|proxies|, i requires 0 <= i < |proxies| => if proxies[i].Some? then trim(proxies[i].value) else "")
  }

  /** The names to list are those that are left of a name after trimming, in order and as often as they come. */
  lemma {:induction false} ProxyNamesAre(proxies: seq<Option<string>>, trim: string -> string)
    ensures IsSubsequence(ProxyNames(proxies, trim), Trimmed(proxies, trim))
    ensures forall n: string ::
      multiset(ProxyNames(proxies, trim))[n] == if n == "" then 0 else multiset(Trimmed(proxies, trim))[n]
  {
    var all := Trimmed(proxies, trim);
    if proxies == [] {
      SubsequenceOfItself<string>([]);
    } else {
      var front := proxies[..|proxies| - 1];
      ProxyNamesAre(front, trim);
      assert all == Trimmed(front, trim) + [all[|all| - 1]];
      SubsequenceSnoc(ProxyNames(front, trim), Trimmed(front, trim), all[|all| - 1]);
    }
  }

  function GroupEntry(raw: string, name: string, proxies: seq<string>): Mapping {
    Mapping(raw, Some(GroupOption(name, proxies)))
  }

  /** A name that UniqueSyntheticGroupName can give to one of the two groups. */
  ghost predicate MadeUp(name: string) {
    MadeFrom("PROXY", name) || MadeFrom("AUTO", name)
  }

  ghost predicate MadeFrom(base: string, name: string) {
    name == base || exists i :: i >= 2 && name == Candidate(base, i)
  }

  ghost predicate ListsOnly(m: Mapping, names: set<string>) {
    m.decoded.Some? && Elements(m.decoded.value.proxies) <= names
  }

  ghost predicate ListsAll(m: Mapping, names: seq<string>) {
    m.decoded.Some? && forall n :: n in names ==> n in m.decoded.value.proxies
  }

  /**
   * The generated groups: well formed, free of loops, with names of their own, listing the proxies and
   * no strangers.
   */
  ghost predicate FitTogether(config: seq<Mapping>, main: string, names: seq<string>) {
    && WellFormed(config) && Acyclic(RefGraph(config))
    && main in GroupNames(config) && main !in names
    && (forall n :: n in GroupNames(config) ==> MadeUp(n) && n !in names)
    && (forall n :: n in names ==> n in Proxies(config, main))
    && (forall m :: m in config ==> ListsOnly(m, GroupNames(config) + {"DIRECT"} + Elements(names)))
    && (exists m :: m in config && ListsAll(m, names))
    && (|config| == if |names| > 1 then 2 else 1)
  }

  /** The names to list, and the same names as a set. */
  method CollectNames(proxies: seq<Option<string>>, trim: string -> string)
    returns (proxyNames: seq<string>, usedNames: set<string>)
    ensures proxyNames == ProxyNames(proxies, trim) && usedNames == Elements(proxyNames)
  {
    proxyNames, usedNames := [], {};
    for i := 0 to |proxies|
      invariant proxyNames == ProxyNames(proxies[..i], trim) && usedNames == Elements(proxyNames)
    {
      PrefixGrows(proxies, i);
      FrontOfSnoc(proxies[..i], proxies[i]);
      if proxies[i].Some? {
        var name := trim(proxies[i].value);
        if name != "" {
          proxyNames := proxyNames + [name];
          usedNames := usedNames + {name};
        }
      }
    }
    WholePrefix(proxies);
  }

  method MakeGroups(main: string, auto: string, proxyNames: seq<string>) returns (config: seq<Mapping>)
    requires proxyNames != [] && MadeFrom("PROXY", main) && MadeFrom("AUTO", auto)
    requires main !in proxyNames && auto !in proxyNames
    ensures FitTogether(config, main, proxyNames)
    ensures config ==
      if |proxyNames| > 1 then
        [Mapping("select", Some(GroupOption(main, [auto, "DIRECT"] + proxyNames))),
         Mapping("url-test", Some(GroupOption(auto, proxyNames)))]
      else [Mapping("select", Some(GroupOption(main, ["DIRECT"] + proxyNames)))]
  {
    var selectProxies := [];
    if |proxyNames| > 1 {
      selectProxies := selectProxies + [auto];
    }
    selectProxies := selectProxies + ["DIRECT"];
    selectProxies := selectProxies + proxyNames;
    config := [];
    config := config + [GroupEntry("select", main, selectProxies)];
    if |proxyNames| > 1 {
      config := config + [GroupEntry("url-test", auto, proxyNames)];
      assert selectProxies == [auto] + ["DIRECT"] + proxyNames == [auto, "DIRECT"] + proxyNames;
      TwoGroupsFit(config, main, auto, proxyNames);
    } else {
      assert selectProxies == ["DIRECT"] + proxyNames;
      OneGroupFits(config, main, auto, proxyNames);
    }
  }

  method ConvertSubscription(proxies: seq<Option<string>>, trim: string -> string) returns (r: Subscription)
    ensures r.NoProxies? <==> proxies == []
    ensures r.NoNames? <==> proxies != [] && ProxyNames(proxies, trim) == []
    ensures r.Groups? ==> r.names == ProxyNames(proxies, trim) && FitTogether(r.config, r.main, r.names)
    ensures r.Groups? ==> IsUnique("PROXY", Elements(r.names), r.main)
    ensures r.Groups? && |r.names| == 1 ==>
      r.config == [Mapping("select", Some(GroupOption(r.main, ["DIRECT"] + r.names)))]
    ensures r.Groups? && |r.names| > 1 ==> exists auto ::
      && IsUnique("AUTO", Elements(r.names) + {r.main}, auto)
      && r.config ==
         [Mapping("select", Some(GroupOption(r.main, [auto, "DIRECT"] + r.names))),
          Mapping("url-test", Some(GroupOption(auto, r.names)))]
  {
    if |proxies| == 0 {
      return NoProxies;
    }
    var proxyNames, usedNames := CollectNames(proxies, trim);
    if |proxyNames| == 0 {
      return NoNames;
    }
    var main := UniqueSyntheticGroupName("PROXY", usedNames);
    var auto := UniqueSyntheticGroupName("AUTO", usedNames + {main});
    var config := MakeGroups(main, auto, proxyNames);
    r := Groups(config, main, proxyNames);
  }

  /** Names made from a base start with its letters. */
  lemma StartsDiffer(name: string, base: string)
    requires base == "PROXY" || base == "AUTO"
    requires MadeFrom(base, name)
    ensures |name| >= 4 && name[0] == base[0] && name[1] == base[1] && name != "DIRECT"
  {
  }

  /** References only lead from main to others, and from auto to names that are no group. */
  lemma StepsDown(config: seq<Mapping>, main: string, auto: string)
    requires forall a, b :: Edge(RefGraph(config), a, b) ==>
      (a == main && b != main) || (a == auto && b != main && b != auto)
    requires main != auto
    ensures Acyclic(RefGraph(config))
  {
    var rank: map<string, int> := map n | n in Vertices(config) :: if n == main then 2 else if n == auto then 1 else 0;
    forall a, b | Edge(RefGraph(config), a, b) ensures a in rank && b in rank && rank[b] < rank[a] {
      EdgeIsListing(config, a, b);
      ProxiesAreVertices(config, a);
      assert b in Elements(Proxies(config, a));
    }
    RankImpliesAcyclic(RefGraph(config), rank);
  }

  lemma OneGroupFits(config: seq<Mapping>, main: string, auto: string, names: seq<string>)
    requires config == [GroupEntry("select", main, ["DIRECT"] + names)] && |names| == 1
    requires MadeFrom("PROXY", main) && MadeFrom("AUTO", auto) && main !in names
    ensures FitTogether(config, main, names)
  {
    StartsDiffer(main, "PROXY");
    StartsDiffer(auto, "AUTO");
    assert config[0].decoded.value.name == main;
    FindAt(config, 0);
    forall a, b | Edge(RefGraph(config), a, b) ensures a == main && b != main {
      EdgeIsListing(config, a, b);
    }
    StepsDown(config, main, auto);
    assert GroupNames(config) == {main};
    assert ListsAll(config[0], names);
  }

  lemma TwoGroupsFit(config: seq<Mapping>, main: string, auto: string, names: seq<string>)
    requires config == [GroupEntry("select", main, [auto] + ["DIRECT"] + names), GroupEntry("url-test", auto, names)]
    requires MadeFrom("PROXY", main) && MadeFrom("AUTO", auto) && main !in names && auto !in names && |names| > 1
    ensures FitTogether(config, main, names)
  {
    StartsDiffer(main, "PROXY");
    StartsDiffer(auto, "AUTO");
    TwoGroupsStepDown(config, main, auto, names);
    assert config[0].decoded.value.name == main && config[1].decoded.value.name == auto;
    FindAt(config, 0);
    assert GroupNames(config) == {main, auto};
    assert ListsAll(config[0], names);
  }

  lemma TwoGroupsStepDown(config: seq<Mapping>, main: string, auto: string, names: seq<string>)
    requires config == [GroupEntry("select", main, [auto] + ["DIRECT"] + names), GroupEntry("url-test", auto, names)]
    requires main !in names && auto !in names && main != auto && main != "DIRECT" && auto != "DIRECT"
    ensures Acyclic(RefGraph(config))
  {
    FindAt(config, 0);
    FindAt(config, 1);
    assert config[0].decoded.value.name == main && config[1].decoded.value.name == auto;
    forall a, b | Edge(RefGraph(config), a, b)
      ensures (a == main && b != main) || (a == auto && b != main && b != auto)
    {
      EdgeIsListing(config, a, b);
    }
    StepsDown(config, main, auto);
  }

  /** What parseProxies does with the generated groups: the sort never refuses them. */
  method SortGenerated(proxies: seq<Option<string>>, trim: string -> string)
    returns (s: Subscription, sorted: seq<Mapping>)
    ensures s.Groups? ==> multiset(sorted) == multiset(s.config) && MembersFirst(sorted)
  {
    s := ConvertSubscription(proxies, trim);
    sorted := [];
    if s.Groups? {
      var groups := new Mapping[|s.config|](i requires 0 <= i < |s.config| => s.config[i]);
      assert groups[..] == s.config;
      var result := ProxyGroupsDagSort(groups);
      assert result.Sorted?;
      sorted := groups[..];
    }
  }

  // ----- and when it parses -----

  const BUILT_IN := {"DIRECT", "REJECT", "REJECT-DROP", "COMPATIBLE", "PASS"}

  /** The names that the proxies are registered under: as they are, not trimmed. */
  ghost function RawNames(proxies: seq<Option<string>>): set<string> {
    set i | 0 <= i < |proxies| && proxies[i].Some? :: proxies[i].value
  }

  ghost predicate TrimsMadeUp(trim: string -> string) {
    forall n :: MadeUp(n) ==> trim(n) == n
  }

  lemma {:induction false} TrimmedIsListed(proxies: seq<Option<string>>, trim: string -> string, x: string)
    requires x in RawNames(proxies) && trim(x) != ""
    ensures trim(x) in ProxyNames(proxies, trim)
  {
    if proxies == [] {
    } else {
      var front, last := proxies[..|proxies| - 1], proxies[|proxies| - 1];
      var i :| 0 <= i < |proxies| && proxies[i].Some? && proxies[i].value == x;
      if i < |front| {
        assert front[i] == proxies[i];
        TrimmedIsListed(front, trim, x);
      }
    }
  }

  lemma MadeUpIsNotBuiltIn(name: string)
    requires MadeUp(name)
    ensures name !in BUILT_IN && name != ""
  {
    if MadeFrom("PROXY", name) {
      StartsDiffer(name, "PROXY");
    } else {
      StartsDiffer(name, "AUTO");
    }
  }

  lemma MadeUpIsNotRaw(proxies: seq<Option<string>>, trim: string -> string, n: string)
    requires TrimsMadeUp(trim) && MadeUp(n) && n !in ProxyNames(proxies, trim)
    ensures n !in BUILT_IN && n !in RawNames(proxies)
  {
    MadeUpIsNotBuiltIn(n);
    if n in RawNames(proxies) {
      TrimmedIsListed(proxies, trim, n);
    }
  }

  lemma FitsIff(leaves: Registry, config: seq<Mapping>, main: string, names: seq<string>)
    requires FitTogether(config, main, names) && leaves.Keys !! GroupNames(config) && "DIRECT" in leaves
    ensures NamesFit(leaves, config) <==> forall n :: n in names ==> n in leaves
  {
    if NamesFit(leaves, config) {
      var m :| m in config && ListsAll(m, names);
      forall n | n in names ensures n in leaves {
        assert n in Elements(m.decoded.value.proxies);
      }
    }
    if forall n :: n in names ==> n in leaves {
      forall m | m in config ensures Elements(m.decoded.value.proxies) <= leaves.Keys + GroupNames(config) {
        assert ListsOnly(m, GroupNames(config) + {"DIRECT"} + Elements(names));
      }
    }
  }

  /**
   * Generating and parsing together. The sort never refuses; with the proxies registered under
   * their raw names the groups are built exactly if every trimmed name is itself the name of
   * a proxy. A name with blanks around it fails here unless another proxy has the bare one.
   */
  method GenerateAndParse(proxies: seq<Option<string>>, trim: string -> string, leaves: Registry)
    returns (s: Subscription, r: Option<ParseResult>)
    requires OnlyLeaves(leaves) && leaves.Keys == BUILT_IN + RawNames(proxies) && TrimsMadeUp(trim)
    ensures r.Some? <==> ProxyNames(proxies, trim) != []
    ensures r.Some? ==> !r.value.SortFailed?
    ensures r.Some? ==> (r.value.Parsed? <==> forall n :: n in ProxyNames(proxies, trim) ==> n in leaves)
  {
    s := ConvertSubscription(proxies, trim);
    r := None;
    if s.Groups? {
      var groups := new Mapping[|s.config|](i requires 0 <= i < |s.config| => s.config[i]);
      assert groups[..] == s.config;
      forall n | n in GroupNames(s.config) ensures n !in leaves {
        MadeUpIsNotRaw(proxies, trim, n);
      }
      FitsIff(leaves, s.config, s.main, s.names);
      var parsed := ParseGroups(leaves, groups);
      r := Some(parsed);
    }
  }

  // ----- a name with a blank behind it -----

  predicate IsBlank(c: char) {
    c == ' ' || c == '\t' || c == '\n' || c == '\r'
  }

  function TrimLeft(s: string): string {
    if s != "" && IsBlank(s[0]) then TrimLeft(s[1..]) else s
  }

  function TrimRight(s: string): string {
    if s != "" && IsBlank(s[|s| - 1]) then TrimRight(s[..|s| - 1]) else s
  }

  function TrimBlanks(s: string): string {
    TrimRight(TrimLeft(s))
  }

  lemma DecimalEnds(n: nat)
    ensures var d := Decimal(n); d != "" && !IsBlank(d[|d| - 1])
  {
  }

  lemma NothingToTrim(s: string)
    requires s != "" && !IsBlank(s[0]) && !IsBlank(s[|s| - 1])
    ensures TrimBlanks(s) == s
  {
  }

  lemma NumberedEnds(base: string, i: nat)
    requires base != "" && !IsBlank(base[0])
    ensures var n := Candidate(base, i); n != "" && !IsBlank(n[0]) && !IsBlank(n[|n| - 1])
  {
    DecimalEnds(i);
    assert Candidate(base, i)[|Candidate(base, i)| - 1] == Decimal(i)[|Decimal(i)| - 1];
  }

  lemma MadeFromIsTrimmed(base: string, n: string)
    requires (base == "PROXY" || base == "AUTO") && MadeFrom(base, n)
    ensures TrimBlanks(n) == n
  {
    if n != base {
      var i :| i >= 2 && n == Candidate(base, i);
      NumberedEnds(base, i);
    }
    NothingToTrim(n);
  }

  lemma MadeUpIsTrimmed()
    ensures TrimsMadeUp(TrimBlanks)
  {
    forall n | MadeUp(n) ensures TrimBlanks(n) == n {
      if MadeFrom("PROXY", n) {
        MadeFromIsTrimmed("PROXY", n);
      } else {
        MadeFromIsTrimmed("AUTO", n);
      }
    }
  }

  /** One proxy whose name ends in a blank: the groups are generated and sorted, and building them fails. */
  method PaddedNameFails() returns (r: Option<ParseResult>)
    ensures r.Some? && !r.value.SortFailed? && !r.value.Parsed?
  {
    var proxies := [Some("a ")];
    var leaves := map n | n in BUILT_IN + {"a "} :: Leaf(n == "PASS");
    MadeUpIsTrimmed();
    PaddedNames();
    assert ["a"][0] == "a" && "a" !in leaves;
    var s;
    s, r := GenerateAndParse(proxies, TrimBlanks, leaves);
  }

  lemma PaddedNames()
    ensures ProxyNames([Some("a ")], TrimBlanks) == ["a"] && RawNames([Some("a ")]) == {"a "}
  {
    var proxies := [Some("a ")];
    assert proxies[..0] == [] && TrimLeft("a ") == "a " && "a "[..1] == "a" && TrimRight("a") == "a";
    assert proxies[0].value == "a ";
  }
}
