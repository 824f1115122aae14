/**
 * The system resolver's nameservers (core/Clash.Meta/dns/system_common.go, system.go): a table
 * of clients that is brought up to date with the system's list and keeps servers for a while
 * that are no longer listed.
 *
 * Reading the system's list is an outcome given from outside; times are nanoseconds. The
 * blacklist is fixed. A table maps a server to its `disableTimes`.
 */
module SystemDns {
  import opened Prelude

  const FLUSH_TIME := 300_000_000_000
  const DELETE_TIMES := 12

  type Table = map<string, nat>

  ghost predicate Dropped(t: Table, listed: seq<string>, k: string) {
    k in t && k !in listed && t[k] > DELETE_TIMES
  }

  ghost function Known(t: Table, listed: seq<string>, blacklist: set<string>): set<string> {
    t.Keys + (Elements(listed) - blacklist)
  }

  /** The table after a read of the system's list. */
  ghost function Refreshed(t: Table, listed: seq<string>, blacklist: set<string>): Table {
    map k | k in Known(t, listed, blacklist) && !Dropped(t, listed, k) :: if k in listed then 0 else t[k] + 1
  }

  ghost function Usable(t: Table): set<string> {
    set k | k in t && t[k] == 0
  }

  /** A server was usable at the read, so that the next read waits. */
  ghost predicate SomeAvailable(t: Table, listed: seq<string>, blacklist: set<string>) {
    exists k :: k in Known(t, listed, blacklist) && k in listed
  }

  datatype State = State(table: Table, lastFlush: Option<nat>)

  ghost predicate Due(s: State, now: nat) {
    s.lastFlush.None? || now > s.lastFlush.value + FLUSH_TIME
  }

  /** One call at time `now`; `list` is what the system says, if it can be read. */
  ghost function Called(s: State, now: nat, list: Option<seq<string>>, blacklist: set<string>): State {
    if !Due(s, now) || list.None? then s
    else State(Refreshed(s.table, list.value, blacklist),
      if SomeAvailable(s.table, list.value, blacklist) then Some(now) else s.lastFlush)
  }

  class SystemClient {
    const blacklist: set<string>
    var dnsClients: Table
    var lastFlush: Option<nat>

    constructor (blacklist: set<string>)
      ensures this.blacklist == blacklist && Abstract() == State(map[], None)
    {
      this.blacklist := blacklist;
      dnsClients, lastFlush := map[], None;
    }

    ghost function Abstract(): State
      reads this
    {
      State(dnsClients, lastFlush)
    }

    /** New servers come in with a count of 0. */
    method AddListed(listed: seq<string>)
      modifies this`dnsClients
      ensures dnsClients.Keys == Known(old(dnsClients), listed, blacklist)
      ensures forall k :: k in dnsClients ==> dnsClients[k] == if k in old(dnsClients) then old(dnsClients[k]) else 0
    {
      for i := 0 to |listed|
        invariant dnsClients.Keys == Known(old(dnsClients), listed[..i], blacklist)
        invariant forall k :: k in dnsClients ==>
          dnsClients[k] == if k in old(dnsClients) then old(dnsClients[k]) else 0
      {
        var addr := listed[i];
        PrefixGrows(listed, i);
        assert Elements(listed[..i + 1]) == Elements(listed[..i]) + {addr};
        if addr !in blacklist && addr !in dnsClients {
          dnsClients := dnsClients[addr := 0];
        }
      }
      WholePrefix(listed);
    }

    /** The walk over the table, in any order; entries may go while it runs. */
    method AgeAll(listed: seq<string>) returns (available: nat)
      modifies this`dnsClients
      requires forall k :: k in listed && k !in blacklist ==> k in dnsClients
      ensures dnsClients == Refreshed(old(dnsClients), listed, blacklist)
      ensures available > 0 <==> exists k :: k in old(dnsClients) && k in listed
    {
      var toDo := dnsClients.Keys;
      available := 0;
      while toDo != {}
        invariant toDo <= old(dnsClients).Keys
        invariant forall k :: k in toDo ==> k in dnsClients && dnsClients[k] == old(dnsClients[k])
        invariant forall k :: k in old(dnsClients) && k !in toDo ==>
          (k in dnsClients <==> !Dropped(old(dnsClients), listed, k))
        invariant dnsClients.Keys <= old(dnsClients).Keys
        invariant forall k :: k in dnsClients && k !in toDo ==>
          dnsClients[k] == if k in listed then 0 else old(dnsClients[k]) + 1
        invariant available > 0 <==> exists k :: k in old(dnsClients) && k !in toDo && k in listed
        decreases |toDo|
      {
        var k :| k in toDo;
        toDo := toDo - {k};
        if k in listed {
          dnsClients := dnsClients[k := 0];
          available := available + 1;
        } else if dnsClients[k] > DELETE_TIMES {
          dnsClients := dnsClients - {k};
        } else {
          dnsClients := dnsClients[k := dnsClients[k] + 1];
        }
      }
    }

    method Refresh(now: nat, listed: seq<string>)
      modifies this
      ensures Abstract() == State(Refreshed(old(dnsClients), listed, blacklist),
        if SomeAvailable(old(dnsClients), listed, blacklist) then Some(now) else old(lastFlush))
    {
      AddListed(listed);
      var available := AgeAll(listed);
      if available > 0 {
        lastFlush := Some(now);
      }
    }

    /** The clients handed out are those of the usable servers, each once, in any order. */
    method GetDnsClients(now: nat, list: Option<seq<string>>) returns (clients: seq<string>, failed: bool)
      modifies this
      ensures Abstract() == Called(old(Abstract()), now, list, blacklist)
      ensures Elements(clients) == Usable(dnsClients) && Distinct(clients)
      ensures failed <==> clients == [] && list.None? && Due(old(Abstract()), now)
    {
      var err := false;
      if lastFlush.None? || now > lastFlush.value + FLUSH_TIME {
        match list
        case None => err := true;
        case Some(listed) => Refresh(now, listed);
      }
      clients := UsableClients();
      failed := clients == [] && err;
    }

    method UsableClients() returns (clients: seq<string>)
      ensures Elements(clients) == Usable(dnsClients) && Distinct(clients)
    {
      clients := [];
      var toDo := dnsClients.Keys;
      while toDo != {}
        invariant toDo <= dnsClients.Keys
        invariant Distinct(clients)
        invariant forall k :: k in clients <==> k in dnsClients && k !in toDo && dnsClients[k] == 0
        decreases |toDo|
      {
        var k :| k in toDo;
        toDo := toDo - {k};
        if dnsClients[k] == 0 {
          clients := clients + [k];
        }
      }
    }
  }

  // ----- the table as a function of what was read -----

  ghost function AfterReads(lists: seq<seq<string>>, blacklist: set<string>): Table {
    if lists == [] then map[]
    else Refreshed(AfterReads(lists[..|lists| - 1], blacklist), lists[|lists| - 1], blacklist)
  }

  /** The last read that listed a server. */
  ghost function LastListed(lists: seq<seq<string>>, k: string): (r: Option<nat>)
    ensures r.Some? ==> r.value < |lists| && k in lists[r.value] && forall j :: r.value < j < |lists| ==> k !in lists[j]
    ensures r.None? ==> forall j :: 0 <= j < |lists| ==> k !in lists[j]
  {
    if lists == [] then None
    else if k in lists[|lists| - 1] then Some(|lists| - 1)
    else LastListed(lists[..|lists| - 1], k)
  }

  /** Reads since a server was last listed. */
  ghost function Missed(lists: seq<seq<string>>, k: string): nat
    requires LastListed(lists, k).Some?
  {
    |lists| - 1 - LastListed(lists, k).value
  }

  /**
   * After any reads, a server is in the table exactly if it is not blacklisted and was listed
   * in one of the last 14 reads, and its count is the number of reads since; it goes at the
   * fourteenth read in a row that misses it.
   */
  lemma {:induction false} TableTellsHistory(lists: seq<seq<string>>, blacklist: set<string>, k: string)
    ensures var t := AfterReads(lists, blacklist);
      && (k in t <==> k !in blacklist && LastListed(lists, k).Some? && Missed(lists, k) <= 13)
      && (k in t ==> t[k] == Missed(lists, k))
  {
    if lists == [] {
    } else {
      TableTellsHistory(lists[..|lists| - 1], blacklist, k);
    }
  }

  /** The usable servers are the last read's, without the blacklisted ones. */
  lemma UsableIsLastRead(lists: seq<seq<string>>, blacklist: set<string>)
    requires lists != []
    ensures Usable(AfterReads(lists, blacklist)) == Elements(lists[|lists| - 1]) - blacklist
  {
    forall k ensures k in Usable(AfterReads(lists, blacklist)) <==> k in lists[|lists| - 1] && k !in blacklist {
      TableTellsHistory(lists, blacklist, k);
    }
  }

  // ----- calls and reads -----

  datatype Call = Call(now: nat, list: Option<seq<string>>)

  ghost function AfterCalls(calls: seq<Call>, blacklist: set<string>): State {
    if calls == [] then State(map[], None)
    else
      var last := calls[|calls| - 1];
      Called(AfterCalls(calls[..|calls| - 1], blacklist), last.now, last.list, blacklist)
  }

  /** What the calls really read. */
  ghost function ReadsOf(calls: seq<Call>, blacklist: set<string>): seq<seq<string>> {
    if calls == [] then []
    else
      var front, last := calls[..|calls| - 1], calls[|calls| - 1];
      if Due(AfterCalls(front, blacklist), last.now) && last.list.Some? then
        ReadsOf(front, blacklist) + [last.list.value]
      else
        ReadsOf(front, blacklist)
  }

  /** Over any run of calls the table is the one that the reads alone determine. */
  lemma {:induction false} CallsAreReads(calls: seq<Call>, blacklist: set<string>)
    ensures AfterCalls(calls, blacklist).table == AfterReads(ReadsOf(calls, blacklist), blacklist)
  {
    if calls == [] {
    } else {
      var front, last := calls[..|calls| - 1], calls[|calls| - 1];
      CallsAreReads(front, blacklist);
      if Due(AfterCalls(front, blacklist), last.now) && last.list.Some? {
        FrontOfSnoc(ReadsOf(front, blacklist), last.list.value);
      }
    }
  }

  /** After a read the next one waits five minutes exactly if a server was usable; otherwise every call reads. */
  lemma NextReadIff(s: State, now: nat, listed: seq<string>, blacklist: set<string>, later: nat)
    requires Due(s, now) && now <= later && s.table.Keys !! blacklist
    ensures Due(Called(s, now, Some(listed), blacklist), later) <==>
      later > now + 300_000_000_000 || Elements(listed) <= blacklist
  {
    assert forall k :: k in listed <==> k in Elements(listed);
    if Elements(listed) <= blacklist {
      assert !SomeAvailable(s.table, listed, blacklist);
    } else {
      var k :| k in Elements(listed) && k !in blacklist;
      assert k in Known(s.table, listed, blacklist) && k in listed;
    }
  }

  /**
   * So the count is one of reads, not of five-minute spans: without any listed server,
   * fourteen calls in the same instant are enough to drop everything.
   */
  lemma {:induction false} FourteenCallsEmptyTheTable(s: State, now: nat, n: nat, blacklist: set<string>,
                                                      calls: seq<State>)
    requires Due(s, now) && (forall k :: k in s.table ==> s.table[k] <= DELETE_TIMES + 1)
    requires |calls| == n + 1 && calls[0] == s
    requires forall i :: 0 <= i < n ==> calls[i + 1] == Called(calls[i], now, Some([]), blacklist)
    ensures Due(calls[n], now)
    ensures forall k :: k in calls[n].table <==> k in s.table && s.table[k] + n <= DELETE_TIMES + 1
    ensures forall k :: k in calls[n].table ==> calls[n].table[k] == s.table[k] + n
    ensures n >= 14 ==> calls[n].table == map[]
  {
    if n == 0 {
    } else {
      FourteenCallsEmptyTheTable(s, now, n - 1, blacklist, calls[..n]);
      assert calls[n] == Called(calls[n - 1], now, Some([]), blacklist);
    }
  }

  // ----- how long a server is kept -----

  /** The hour that fourteen reads are meant to take. */
  const HOUR := 3_600_000_000_000

  ghost predicate FoundUsable(listed: seq<string>, blacklist: set<string>) {
    exists k :: k in listed && k !in blacklist
  }

  ghost predicate ClockRuns(calls: seq<Call>) {
    forall i, j :: 0 <= i < j < |calls| ==> calls[i].now <= calls[j].now
  }

  /** When the calls really read. */
  ghost function TimesOf(calls: seq<Call>, blacklist: set<string>): (times: seq<nat>)
    ensures |times| == |ReadsOf(calls, blacklist)|
  {
    if calls == [] then []
    else
      var front, last := calls[..|calls| - 1], calls[|calls| - 1];
      if Due(AfterCalls(front, blacklist), last.now) && last.list.Some? then
        TimesOf(front, blacklist) + [last.now]
      else
        TimesOf(front, blacklist)
  }

  /** How many of the reads from m up to n found a usable server. */
  ghost function UsableReads(lists: seq<seq<string>>, blacklist: set<string>, m: nat, n: nat): nat
    requires n <= |lists|
  {
    if n <= m then 0
    else UsableReads(lists, blacklist, m, n - 1) + (if FoundUsable(lists[n - 1], blacklist) then 1 else 0)
  }

  /** The clock does not go back from read to read, and after a usable server the next read waits. */
  ghost predicate Spaced(lists: seq<seq<string>>, times: seq<nat>, blacklist: set<string>) {
    && |times| == |lists|
    && forall i :: 0 < i < |lists| ==>
      times[i] >= times[i - 1] + if FoundUsable(lists[i - 1], blacklist) then FLUSH_TIME + 1 else 0
  }

  lemma AvailableIff(calls: seq<Call>, listed: seq<string>, blacklist: set<string>)
    ensures SomeAvailable(AfterCalls(calls, blacklist).table, listed, blacklist) <==> FoundUsable(listed, blacklist)
  {
    var t := AfterCalls(calls, blacklist).table;
    CallsAreReads(calls, blacklist);
    forall k | k in t ensures k !in blacklist {
      TableTellsHistory(ReadsOf(calls, blacklist), blacklist, k);
    }
    if k :| k in listed && k !in blacklist {
      assert k in Known(t, listed, blacklist);
    }
  }

  /** The last read was at the last flush, if it found a usable server. */
  ghost predicate FlushTells(s: State, lists: seq<seq<string>>, times: seq<nat>, blacklist: set<string>)
    requires |times| == |lists|
  {
    lists != [] && FoundUsable(lists[|lists| - 1], blacklist) ==> s.lastFlush == Some(times[|times| - 1])
  }

  lemma {:induction false} CallsAreSpaced(calls: seq<Call>, blacklist: set<string>)
    requires ClockRuns(calls)
    ensures var lists, times := ReadsOf(calls, blacklist), TimesOf(calls, blacklist);
      && Spaced(lists, times, blacklist)
      && FlushTells(AfterCalls(calls, blacklist), lists, times, blacklist)
      && forall i :: 0 <= i < |times| ==> times[i] <= calls[|calls| - 1].now
  {
    if calls == [] {
    } else {
      var front, last := calls[..|calls| - 1], calls[|calls| - 1];
      CallsAreSpaced(front, blacklist);
      if last.list.Some? && Due(AfterCalls(front, blacklist), last.now) {
        AvailableIff(front, last.list.value, blacklist);
        SpacedNext(ReadsOf(front, blacklist), TimesOf(front, blacklist), blacklist, last.list.value, last.now);
      }
    }
  }

  lemma SpacedNext(lists: seq<seq<string>>, times: seq<nat>, blacklist: set<string>, listed: seq<string>, now: nat)
    requires Spaced(lists, times, blacklist)
    requires lists != [] ==>
      now >= times[|times| - 1] + if FoundUsable(lists[|lists| - 1], blacklist) then FLUSH_TIME + 1 else 0
    ensures Spaced(lists + [listed], times + [now], blacklist)
  {
  }

  lemma {:induction false} SpacesAdd(lists: seq<seq<string>>, times: seq<nat>, blacklist: set<string>, m: nat, n: nat)
    requires Spaced(lists, times, blacklist) && m <= n < |lists|
    ensures times[n] >= times[m] + (FLUSH_TIME + 1) * UsableReads(lists, blacklist, m, n)
  {
    if m == n {
    } else {
      SpacesAdd(lists, times, blacklist, m, n - 1);
    }
  }

  lemma {:induction false} UsableReadsSplit(lists: seq<seq<string>>, blacklist: set<string>, m: nat, n: nat)
    requires m <= n <= |lists|
    ensures UsableReads(lists, blacklist, 0, n) ==
      UsableReads(lists, blacklist, 0, m) + UsableReads(lists, blacklist, m, n)
  {
    if m == n {
    } else {
      UsableReadsSplit(lists, blacklist, m, n - 1);
    }
  }

  /** The last read drops k. */
  ghost predicate Drops(lists: seq<seq<string>>, blacklist: set<string>, k: string) {
    lists != [] && k in AfterReads(lists[..|lists| - 1], blacklist) && k !in AfterReads(lists, blacklist)
  }

  /** A server is dropped by the fourteenth read after the one that listed it last. */
  lemma DropsIff(lists: seq<seq<string>>, blacklist: set<string>, k: string)
    ensures Drops(lists, blacklist, k) <==>
      k !in blacklist && |lists| >= 15 && LastListed(lists, k) == Some(|lists| - 15)
  {
    if lists != [] {
      InTableIff(lists[..|lists| - 1], blacklist, k);
      InTableIff(lists, blacklist, k);
      NoLongerLately(lists, k);
    }
  }

  lemma NoLongerLately(lists: seq<seq<string>>, k: string)
    requires lists != []
    ensures ListedLately(lists[..|lists| - 1], k) && !ListedLately(lists, k) <==>
      |lists| >= 15 && LastListed(lists, k) == Some(|lists| - 15)
  {
    MissesOne(lists, k);
  }

  ghost predicate ListedLately(lists: seq<seq<string>>, k: string) {
    LastListed(lists, k).Some? && |lists| - LastListed(lists, k).value <= 14
  }

  lemma InTableIff(lists: seq<seq<string>>, blacklist: set<string>, k: string)
    ensures k in AfterReads(lists, blacklist) <==> k !in blacklist && ListedLately(lists, k)
  {
    TableTellsHistory(lists, blacklist, k);
  }

  lemma MissesOne(lists: seq<seq<string>>, k: string)
    requires lists != []
    ensures LastListed(lists, k) ==
      if k in lists[|lists| - 1] then Some(|lists| - 1) else LastListed(lists[..|lists| - 1], k)
  {
  }

  /** From the read that lists k last to the last read it takes more than an hour. */
  ghost predicate KeptAnHour(calls: seq<Call>, blacklist: set<string>, k: string) {
    var lists, times := ReadsOf(calls, blacklist), TimesOf(calls, blacklist);
    match LastListed(lists, k)
    case None => false
    case Some(m) => times[|times| - 1] > times[m] + HOUR
  }

  /** The calls that make the first n reads as early as they can be made. */
  ghost function Early(lists: seq<seq<string>>, blacklist: set<string>, n: nat): (calls: seq<Call>)
    requires n <= |lists|
    ensures |calls| == n
  {
    if n == 0 then []
    else
      Early(lists, blacklist, n - 1)
      + [Call(EarlyTime(lists, blacklist, n - 1), Some(lists[n - 1]))]
  }

  /** One more call that reads. */
  lemma ReadNow(calls: seq<Call>, blacklist: set<string>, now: nat, listed: seq<string>)
    requires Due(AfterCalls(calls, blacklist), now)
    ensures var all := calls + [Call(now, Some(listed))];
      && ReadsOf(all, blacklist) == ReadsOf(calls, blacklist) + [listed]
      && TimesOf(all, blacklist) == TimesOf(calls, blacklist) + [now]
      && AfterCalls(all, blacklist) == Called(AfterCalls(calls, blacklist), now, Some(listed), blacklist)
  {
    FrontOfSnoc(calls, Call(now, Some(listed)));
  }

  ghost function EarlyTime(lists: seq<seq<string>>, blacklist: set<string>, n: nat): nat
    requires n <= |lists|
  {
    (FLUSH_TIME + 1) * UsableReads(lists, blacklist, 0, n)
  }

  ghost function EarlyTimes(lists: seq<seq<string>>, blacklist: set<string>, n: nat): seq<nat>
    requires n <= |lists|
  {
    seq(n, i requires 0 <= i < n => EarlyTime(lists, blacklist, i))
  }

  lemma EarlyTimesGrow(lists: seq<seq<string>>, blacklist: set<string>, n: nat)
    requires 0 < n <= |lists|
    ensures EarlyTimes(lists, blacklist, n) ==
      EarlyTimes(lists, blacklist, n - 1) + [EarlyTime(lists, blacklist, n - 1)]
  {
  }

  /** The calls make the first n reads as early as they can be made, and the next is due. */
  ghost predicate ReadsEarly(lists: seq<seq<string>>, blacklist: set<string>, n: nat, calls: seq<Call>)
    requires n <= |lists|
  {
    && ReadsOf(calls, blacklist) == lists[..n]
    && TimesOf(calls, blacklist) == EarlyTimes(lists, blacklist, n)
    && Due(AfterCalls(calls, blacklist), EarlyTime(lists, blacklist, n))
  }

  lemma ReadsEarlyNext(lists: seq<seq<string>>, blacklist: set<string>, n: nat, calls: seq<Call>)
    requires n < |lists| && ReadsEarly(lists, blacklist, n, calls)
    ensures ReadsEarly(lists, blacklist, n + 1, calls + [Call(EarlyTime(lists, blacklist, n), Some(lists[n]))])
  {
    ReadNow(calls, blacklist, EarlyTime(lists, blacklist, n), lists[n]);
    PrefixGrows(lists, n);
    EarlyTimesGrow(lists, blacklist, n + 1);
    AvailableIff(calls, lists[n], blacklist);
    EarlyNextDue(lists, blacklist, n, AfterCalls(calls, blacklist));
  }

  lemma {:induction false} EarlyReads(lists: seq<seq<string>>, blacklist: set<string>, n: nat)
    requires n <= |lists|
    ensures ReadsEarly(lists, blacklist, n, Early(lists, blacklist, n))
  {
    if n == 0 {
    } else {
      EarlyReads(lists, blacklist, n - 1);
      ReadsEarlyNext(lists, blacklist, n - 1, Early(lists, blacklist, n - 1));
    }
  }

  lemma EarlyNextDue(lists: seq<seq<string>>, blacklist: set<string>, n: nat, s: State)
    requires n < |lists| && Due(s, EarlyTime(lists, blacklist, n))
    requires SomeAvailable(s.table, lists[n], blacklist) <==> FoundUsable(lists[n], blacklist)
    ensures var t := Called(s, EarlyTime(lists, blacklist, n), Some(lists[n]), blacklist);
      Due(t, EarlyTime(lists, blacklist, n + 1))
  {
  }

  lemma {:induction false} EarlyClockRuns(lists: seq<seq<string>>, blacklist: set<string>, n: nat)
    requires n <= |lists|
    ensures ClockRuns(Early(lists, blacklist, n))
    ensures forall i :: 0 <= i < n ==> Early(lists, blacklist, n)[i].now <= EarlyTime(lists, blacklist, n)
  {
    if n == 0 {
    } else {
      EarlyClockRuns(lists, blacklist, n - 1);
    }
  }

  /**
   * The hour that the comment on the constant promises. However calls come, a server that the
   * last read drops was last listed more than an hour before, exactly if at least twelve of
   * the fourteen reads from that listing on found a usable server.
   */
  lemma KeptAnHourIff(lists: seq<seq<string>>, blacklist: set<string>, k: string)
    requires Drops(lists, blacklist, k)
    ensures |lists| >= 15
    ensures (forall calls :: ClockRuns(calls) && ReadsOf(calls, blacklist) == lists ==> KeptAnHour(calls, blacklist, k))
      <==> UsableReads(lists, blacklist, |lists| - 15, |lists| - 1) >= 12
  {
    DropsIff(lists, blacklist, k);
    var m, n := |lists| - 15, |lists| - 1;
    if UsableReads(lists, blacklist, m, n) >= DELETE_TIMES {
      forall calls | ClockRuns(calls) && ReadsOf(calls, blacklist) == lists ensures KeptAnHour(calls, blacklist, k) {
        CallsAreSpaced(calls, blacklist);
        SpacesAdd(lists, TimesOf(calls, blacklist), blacklist, m, n);
      }
    } else {
      EarlyDropsSoon(lists, blacklist, k);
    }
  }

  /** With fewer the calls that read as early as they can drop it within the hour. */
  lemma EarlyDropsSoon(lists: seq<seq<string>>, blacklist: set<string>, k: string)
    requires Drops(lists, blacklist, k)
    requires |lists| >= 15 && UsableReads(lists, blacklist, |lists| - 15, |lists| - 1) < DELETE_TIMES
    ensures var calls := Early(lists, blacklist, |lists|);
      ClockRuns(calls) && ReadsOf(calls, blacklist) == lists && !KeptAnHour(calls, blacklist, k)
  {
    DropsIff(lists, blacklist, k);
    var calls, m, n := Early(lists, blacklist, |lists|), |lists| - 15, |lists| - 1;
    EarlyReads(lists, blacklist, |lists|);
    EarlyClockRuns(lists, blacklist, |lists|);
    WholePrefix(lists);
    var times := TimesOf(calls, blacklist);
    assert times[m] == EarlyTime(lists, blacklist, m) && times[n] == EarlyTime(lists, blacklist, n);
    UsableReadsSplit(lists, blacklist, m, n);
  }
}
