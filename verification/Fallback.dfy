/**
 * The fallback group's choice (core/Clash.Meta/adapter/outboundgroup/fallback.go): the step
 * that the nested-group walk of a connection takes through such a group.
 *
 * One call sees one list of members and one answer of their health checks. The list is not
 * empty: GetProxies never returns an empty list to a group that has a provider.
 */
module Fallback {
  import opened Prelude

  datatype Member = Member(name: string, alive: bool)

  /** The first live member from position i on. */
  ghost function FirstAlive(ms: seq<Member>, i: nat): (r: Option<nat>)
    requires i <= |ms|
    ensures r.Some? ==> i <= r.value < |ms| && ms[r.value].alive && forall j :: i <= j < r.value ==> !ms[j].alive
    ensures r.None? ==> forall j :: i <= j < |ms| ==> !ms[j].alive
    decreases |ms| - i
  {
    if i == |ms| then None else if ms[i].alive then Some(i) else FirstAlive(ms, i + 1)
  }

  /** The first member of a name, from position i on. */
  ghost function FirstNamed(ms: seq<Member>, name: string, i: nat): (r: Option<nat>)
    requires i <= |ms|
    ensures r.Some? ==>
      i <= r.value < |ms| && ms[r.value].name == name && forall j :: i <= j < r.value ==> ms[j].name != name
    ensures r.None? ==> forall j :: i <= j < |ms| ==> ms[j].name != name
    decreases |ms| - i
  {
    if i == |ms| then None else if ms[i].name == name then Some(i) else FirstNamed(ms, name, i + 1)
  }

  ghost function OrFirst(r: Option<nat>): nat {
    if r.Some? then r.value else 0
  }

  /** The position chosen and the selection left behind. */
  ghost function Choice(selected: string, ms: seq<Member>): (r: (nat, string))
    requires ms != []
    ensures r.0 < |ms|
  {
    if selected == "" then (OrFirst(FirstAlive(ms, 0)), "")
    else
      var k := FirstNamed(ms, selected, 0);
      if k.None? then (0, selected)
      else if ms[k.value].alive then (k.value, selected)
      else (OrFirst(FirstAlive(ms, k.value)), "")
  }

  class Group {
    var selected: string

    constructor ()
      ensures selected == ""
    {
      selected := "";
    }

    /** One loop that searches for the selection, and from where it is found dead for a live member. */
    method FindAliveProxy(ms: seq<Member>) returns (chosen: nat)
      requires ms != []
      modifies this
      ensures chosen == Choice(old(selected), ms).0
      ensures selected == Choice(old(selected), ms).1
    {
      for i := 0 to |ms|
        invariant old(selected) == "" ==> selected == "" && FirstAlive(ms, 0) == FirstAlive(ms, i)
        invariant old(selected) != "" && selected != "" ==>
          selected == old(selected) && FirstNamed(ms, selected, 0) == FirstNamed(ms, selected, i)
        invariant old(selected) != "" && selected == "" ==>
          && FirstNamed(ms, old(selected), 0).Some?
          && FirstNamed(ms, old(selected), 0).value < i
          && !ms[FirstNamed(ms, old(selected), 0).value].alive
          && FirstAlive(ms, FirstNamed(ms, old(selected), 0).value) == FirstAlive(ms, i)
      {
        if |selected| == 0 {
          if ms[i].alive {
            return i;
          }
        } else {
          if ms[i].name == selected {
            if ms[i].alive {
              return i;
            } else {
              selected := "";
            }
          }
        }
      }
      return 0;
    }

    /** Selecting fails for a name that no member has; the health check of a dead choice is left out. */
    method Set(ms: seq<Member>, name: string) returns (found: bool)
      modifies this
      ensures found <==> exists k :: 0 <= k < |ms| && ms[k].name == name
      ensures selected == if found then name else old(selected)
    {
      for i := 0 to |ms|
        invariant selected == old(selected)
        invariant forall j :: 0 <= j < i ==> ms[j].name != name
      {
        if ms[i].name == name {
          selected := name;
          return true;
        }
      }
      return false;
    }

    method ForceSet(name: string)
      modifies this
      ensures selected == name
    {
      selected := name;
    }
  }

  /** The first member of the name. */
  ghost predicate Bears(ms: seq<Member>, name: string, k: nat) {
    k < |ms| && ms[k].name == name && forall j :: 0 <= j < k ==> ms[j].name != name
  }

  /** What is chosen, and what becomes of the selection, case by case. */
  lemma ChoiceTells(selected: string, ms: seq<Member>)
    requires ms != []
    ensures var (k, left) := Choice(selected, ms);
      && k < |ms|
      && (selected == "" ==> left == "" && FirstLiveFrom(ms, 0, k))
      && (selected != "" && (forall j :: 0 <= j < |ms| ==> ms[j].name != selected) ==> k == 0 && left == selected)
      && (forall b: nat :: selected != "" && Bears(ms, selected, b) && ms[b].alive ==> k == b && left == selected)
      && (forall b: nat :: selected != "" && Bears(ms, selected, b) && !ms[b].alive ==>
        left == "" && FirstLiveFrom(ms, b, k))
  {
    forall b: nat | selected != "" && Bears(ms, selected, b) ensures FirstNamed(ms, selected, 0) == Some(b) {
    }
  }

  /** k is the first live member from position b on, or the very first if there is none. */
  ghost predicate FirstLiveFrom(ms: seq<Member>, b: nat, k: nat) {
    || (b <= k < |ms| && ms[k].alive && forall j :: b <= j < k ==> !ms[j].alive)
    || (k == 0 && forall j :: b <= j < |ms| ==> !ms[j].alive)
  }

  ghost predicate SomeAlive(ms: seq<Member>) {
    exists j :: 0 <= j < |ms| && ms[j].alive
  }

  /** No member from the selected one on is alive (or none is selected), and the first one is dead too. */
  ghost predicate Overlooks(selected: string, ms: seq<Member>)
    requires ms != []
  {
    && selected != ""
    && !ms[0].alive
    && forall i, j :: 0 <= i <= j < |ms| && ms[i].name == selected ==> !ms[j].alive
  }

  /** With a live member in the group, the choice is dead exactly when the search overlooks it. */
  lemma DeadChoiceIff(selected: string, ms: seq<Member>)
    requires ms != [] && SomeAlive(ms)
    ensures !ms[Choice(selected, ms).0].alive <==> Overlooks(selected, ms)
  {
  }

  lemma Overlooked()
    ensures var ms := [Member("a", false), Member("b", true), Member("c", false)];
      SomeAlive(ms) && Choice("c", ms) == (0, "") && !ms[0].alive
  {
    var ms := [Member("a", false), Member("b", true), Member("c", false)];
    assert ms[1].alive;
    assert FirstNamed(ms, "c", 2) == Some(2);
    assert FirstNamed(ms, "c", 1) == Some(2);
    assert FirstAlive(ms, 3) == None;
  }

  /** The selection found dead is dropped, and the next call takes the first live member. */
  lemma NextCallRecovers(selected: string, ms: seq<Member>)
    requires ms != [] && SomeAlive(ms) && Overlooks(selected, ms)
    requires exists k :: 0 <= k < |ms| && ms[k].name == selected
    ensures Choice(selected, ms).1 == ""
    ensures ms[Choice(Choice(selected, ms).1, ms).0].alive
  {
  }

  /** What a run of calls leaves selected. */
  ghost function AfterCalls(selected: string, snapshots: seq<seq<Member>>): string
    requires forall i :: 0 <= i < |snapshots| ==> snapshots[i] != []
  {
    if snapshots == [] then selected
    else Choice(AfterCalls(selected, snapshots[..|snapshots| - 1]), snapshots[|snapshots| - 1]).1
  }

  /** The first member that bears a name is alive, if there is one. */
  ghost predicate Spares(name: string, ms: seq<Member>) {
    forall k :: 0 <= k < |ms| && ms[k].name == name && (forall j :: 0 <= j < k ==> ms[j].name != name) ==> ms[k].alive
  }

  ghost predicate AllSpare(name: string, snapshots: seq<seq<Member>>) {
    forall i :: 0 <= i < |snapshots| ==> Spares(name, snapshots[i])
  }

  /**
   * Over any run of calls, with the group changing as it may, a selection survives exactly if
   * no call found the first bearer of its name dead; until then every call that finds a bearer
   * chooses it. A selection once dropped is never taken up again.
   */
  lemma {:induction false} SelectionIsKept(selected: string, snapshots: seq<seq<Member>>)
    requires selected != "" && forall i :: 0 <= i < |snapshots| ==> snapshots[i] != []
    ensures AfterCalls(selected, snapshots) == if AllSpare(selected, snapshots) then selected else ""
    ensures AllSpare(selected, snapshots) ==>
      forall ms: seq<Member>, k: nat :: ms != [] && FirstNamed(ms, selected, 0) == Some(k) && ms[k].alive ==>
        Choice(AfterCalls(selected, snapshots), ms).0 == k
  {
    if snapshots == [] {
    } else {
      var front, last := snapshots[..|snapshots| - 1], snapshots[|snapshots| - 1];
      SelectionIsKept(selected, front);
      assert AllSpare(selected, snapshots) <==> AllSpare(selected, front) && Spares(selected, last) by {
        assert snapshots == front + [last];
      }
      var k := FirstNamed(last, selected, 0);
      assert Spares(selected, last) <==> k.None? || last[k.value].alive;
    }
  }

  /** As long as the group does not change, only the first call can hand out a dead member for no need. */
  lemma {:induction false} OnlyFirstCallIsDead(selected: string, ms: seq<Member>, calls: seq<seq<Member>>)
    requires ms != [] && SomeAlive(ms) && calls != [] && forall i :: 0 <= i < |calls| ==> calls[i] == ms
    requires selected == "" || exists k :: 0 <= k < |ms| && ms[k].name == selected
    ensures ms[Choice(AfterCalls(selected, calls), ms).0].alive
    ensures AfterCalls(selected, calls) == Choice(selected, ms).1
  {
    var front := calls[..|calls| - 1];
    if front == [] {
      assert AfterCalls(selected, front) == selected;
      if selected != "" {
        var k :| 0 <= k < |ms| && ms[k].name == selected;
        assert FirstNamed(ms, selected, 0).Some?;
      }
    } else {
      OnlyFirstCallIsDead(selected, ms, front);
    }
  }

  /** A selection no member bears is never dropped: the group is stuck on its first member, dead or alive. */
  lemma {:induction false} UnknownSelectionSticks(selected: string, snapshots: seq<seq<Member>>)
    requires selected != "" && snapshots != [] && forall i :: 0 <= i < |snapshots| ==> snapshots[i] != []
    requires forall i, j :: 0 <= i < |snapshots| && 0 <= j < |snapshots[i]| ==> snapshots[i][j].name != selected
    ensures AfterCalls(selected, snapshots) == selected
    ensures Choice(AfterCalls(selected, snapshots[..|snapshots| - 1]), snapshots[|snapshots| - 1]).0 == 0
  {
    var front, last := snapshots[..|snapshots| - 1], snapshots[|snapshots| - 1];
    if front == [] {
    } else {
      UnknownSelectionSticks(selected, front);
    }
    assert AfterCalls(selected, front) == selected;
    assert FirstNamed(last, selected, 0).None?;
  }
}
