/**
 * The DHCP resolver (core/Clash.Meta/dns/dhcp.go): callers share one lookup in flight and
 * wait for it while there is neither an answer nor an error yet.
 *
 * The code under the lock is a class; the interleavings of callers and lookups are a state
 * machine over the values of its fields. Interface queries and DHCP exchanges are outcomes
 * given from outside; times are nanoseconds of a clock that does not go back.
 */
module Dhcp {
  import opened Prelude

  const SECOND := 1_000_000_000
  const IFACE_TTL := 20 * SECOND
  const DHCP_TTL := 3600 * SECOND

  type Address = nat
  type Server = nat
  type Failure = nat

  /** What the interface query says, and the four clock readings around it. */
  datatype Query = Query(asked: nat, marked: nat, compared: nat, renewed: nat, iface: Iface)
  datatype Iface = Up(addr: Address) | Down(failure: Failure)

  ghost predicate InOrder(q: Query) {
    q.asked <= q.marked <= q.compared <= q.renewed
  }

  /** A lookup's end; the servers of an answer are never nil. */
  datatype Outcome = Answer(servers: seq<Server>) | Failed(failure: Failure)

  /** The fields; `done` names the lookup whose channel it is. */
  datatype Fields = Fields(ifaceInvalidate: nat, dnsInvalidate: nat, ifaceAddr: Option<Address>,
    done: Option<nat>, clients: Option<seq<Server>>, err: Option<Failure>)

  ghost predicate Settled(f: Fields) {
    f.clients.Some? || f.err.Some?
  }

  ghost predicate Asks(f: Fields, q: Query) {
    q.asked >= f.ifaceInvalidate
  }

  ghost predicate Renews(f: Fields, q: Query) {
    Asks(f, q) && q.iface.Up? && !(q.compared < f.dnsInvalidate && f.ifaceAddr == Some(q.iface.addr))
  }

  ghost predicate Launches(f: Fields, q: Query) {
    Renews(f, q) && f.done.None?
  }

  ghost function Invalidated(f: Fields, q: Query): Fields {
    var asked := if Asks(f, q) then f.(ifaceInvalidate := q.marked + IFACE_TTL) else f;
    if Renews(f, q) then asked.(dnsInvalidate := q.renewed + DHCP_TTL, ifaceAddr := Some(q.iface.addr)) else asked
  }

  /** A caller's first critical section; a lookup that it launches is named `id`. */
  ghost function Entered(f: Fields, q: Query, id: nat): Fields {
    var g := Invalidated(f, q);
    if Asks(f, q) && q.iface.Down? then g.(err := Some(q.iface.failure))
    else if Launches(f, q) then g.(done := Some(id))
    else g
  }

  ghost function Committed(f: Fields, o: Outcome): Fields {
    f.(done := None,
      clients := if o.Answer? then Some(o.servers) else None,
      err := if o.Answer? then None else Some(o.failure))
  }

  class DhcpClient {
    var ifaceInvalidate: nat
    var dnsInvalidate: nat
    var ifaceAddr: Option<Address>
    var done: Option<nat>
    var clients: Option<seq<Server>>
    var err: Option<Failure>

    ghost function State(): Fields
      reads this
    {
      Fields(ifaceInvalidate, dnsInvalidate, ifaceAddr, done, clients, err)
    }

    constructor ()
      ensures State() == Initial()
    {
      ifaceInvalidate, dnsInvalidate, ifaceAddr := 0, 0, None;
      done, clients, err := None, None, None;
    }

    method Invalidate(q: Query) returns (invalidated: bool, failure: Option<Failure>)
      modifies this
      ensures State() == Invalidated(old(State()), q)
      ensures done == old(done) && clients == old(clients) && err == old(err)
      ensures q.asked < old(ifaceInvalidate) ==>
        !invalidated && failure.None? && ifaceInvalidate == old(ifaceInvalidate)
        && dnsInvalidate == old(dnsInvalidate) && ifaceAddr == old(ifaceAddr)
      ensures q.asked >= old(ifaceInvalidate) ==> ifaceInvalidate == q.marked + 20_000_000_000
      ensures q.asked >= old(ifaceInvalidate) && q.iface.Down? ==>
        !invalidated && failure == Some(q.iface.failure)
        && dnsInvalidate == old(dnsInvalidate) && ifaceAddr == old(ifaceAddr)
      ensures q.asked >= old(ifaceInvalidate) && q.iface.Up? ==>
        var stale := q.compared >= old(dnsInvalidate) || old(ifaceAddr) != Some(q.iface.addr);
        && failure.None? && ifaceAddr == Some(q.iface.addr)
        && dnsInvalidate == (if stale then q.renewed + 3_600_000_000_000 else old(dnsInvalidate))
        && (invalidated <==> stale && old(done).None?)
      ensures failure == if Asks(old(State()), q) && q.iface.Down? then Some(q.iface.failure) else None
      ensures invalidated <==> Launches(old(State()), q)
    {
      if q.asked < ifaceInvalidate {
        return false, None;
      }
      ifaceInvalidate := q.marked + IFACE_TTL;
      if q.iface.Down? {
        return false, Some(q.iface.failure);
      }
      if q.compared < dnsInvalidate && ifaceAddr == Some(q.iface.addr) {
        return false, None;
      }
      dnsInvalidate := q.renewed + DHCP_TTL;
      ifaceAddr := Some(q.iface.addr);
      return done == None, None;
    }

    method Enter(q: Query, id: nat) returns (launched: bool)
      modifies this
      ensures State() == Entered(old(State()), q, id)
      ensures launched <==> Launches(old(State()), q)
      ensures clients == old(clients)
      ensures launched <==>
        && old(done).None? && q.asked >= old(ifaceInvalidate) && q.iface.Up?
        && (q.compared >= old(dnsInvalidate) || old(ifaceAddr) != Some(q.iface.addr))
      ensures done == if launched then Some(id) else old(done)
      ensures err == if q.asked >= old(ifaceInvalidate) && q.iface.Down? then Some(q.iface.failure) else old(err)
    {
      var failure;
      launched, failure := Invalidate(q);
      if failure.Some? {
        err := failure;
      } else if launched {
        done := Some(id);
      }
    }

    method Commit(o: Outcome)
      modifies this
      ensures State() == Committed(old(State()), o)
      ensures done.None? && ifaceInvalidate == old(ifaceInvalidate)
      ensures dnsInvalidate == old(dnsInvalidate) && ifaceAddr == old(ifaceAddr)
      ensures match o
        case Answer(servers) => clients == Some(servers) && err.None?
        case Failed(failure) => clients.None? && err == Some(failure)
    {
      done := None;
      match o
      case Answer(servers) => clients, err := Some(servers), None;
      case Failed(failure) => clients, err := None, Some(failure);
    }
  }

  ghost function Initial(): Fields {
    Fields(0, 0, None, None, None, None)
  }

  // ----- callers and lookups side by side -----

  /** A caller inside resolve; `waits` counts the completions it has waited for. */
  datatype Caller =
    | Reading(waits: nat)
    | Waiting(on: Option<nat>, waits: nat)
    | Returned(clients: Option<seq<Server>>, err: Option<Failure>)
    | Cancelled

  /**
   * `running` are the lookups on their way; `closing` is one that holds the lock, has closed
   * its channel and has yet to write its outcome. `queries` are the times of the interface
   * queries so far.
   */
  datatype World = World(fields: Fields, running: set<nat>, closing: Option<(nat, Outcome)>, closed: set<nat>,
    next: nat, callers: map<nat, Caller>, queries: seq<nat>, clock: nat)

  datatype Action = Enter(c: nat, q: Query) | Read(c: nat) | Wake(c: nat) | Cancel(c: nat)
    | Close(id: nat, o: Outcome) | Commit

  ghost function Start(): World {
    World(Initial(), {}, None, {}, 0, map[], [], 0)
  }

  ghost predicate Enabled(w: World, a: Action) {
    match a
    case Enter(c, q) => w.closing.None? && c !in w.callers && InOrder(q) && w.clock <= q.asked
    case Read(c) => w.closing.None? && c in w.callers && w.callers[c].Reading?
    case Wake(c) => c in w.callers && w.callers[c].Waiting? && w.callers[c].on.Some?
      && w.callers[c].on.value in w.closed
    case Cancel(c) => c in w.callers && w.callers[c].Waiting?
    case Close(id, o) => w.closing.None? && id in w.running
    case Commit => w.closing.Some?
  }

  ghost function Step(w: World, a: Action): World
    requires Enabled(w, a)
  {
    match a
    case Enter(c, q) =>
      var launched := Launches(w.fields, q);
      w.(fields := Entered(w.fields, q, w.next),
         running := if launched then w.running + {w.next} else w.running,
         next := if launched then w.next + 1 else w.next,
         callers := w.callers[c := Reading(0)],
         queries := if Asks(w.fields, q) then w.queries + [q.marked] else w.queries,
         clock := q.renewed)
    case Read(c) =>
      w.(callers := w.callers[c :=
        if Settled(w.fields) then Returned(w.fields.clients, w.fields.err)
        else Waiting(w.fields.done, w.callers[c].waits)])
    case Wake(c) => w.(callers := w.callers[c := Reading(w.callers[c].waits + 1)])
    case Cancel(c) => w.(callers := w.callers[c := Cancelled])
    case Close(id, o) => w.(running := w.running - {id}, closing := Some((id, o)), closed := w.closed + {id})
    case Commit => w.(fields := Committed(w.fields, w.closing.value.1), closing := None)
  }

  /** The lookups that have been launched and have not written their outcome. */
  ghost function InFlight(w: World): set<nat> {
    w.running + (if w.closing.Some? then {w.closing.value.0} else {})
  }

  /** A caller waits for a lookup that exists, once at most. */
  ghost predicate CallerOk(w: World, x: Caller) {
    match x
    case Reading(n) => n <= 1 && (n == 1 ==> Settled(w.fields) || w.closing.Some?)
    case Waiting(on, n) => n == 0 && on.Some? && (on.value in w.closed || on == w.fields.done)
    case Returned(clients, err) => clients.Some? || err.Some?
    case Cancelled => true
  }

  ghost predicate Inv(w: World) {
    && InFlight(w) == (if w.fields.done.Some? then {w.fields.done.value} else {})
    && (forall id :: id in w.closed || id in InFlight(w) ==> id < w.next)
    && w.running !! w.closed
    && (w.closing.Some? ==> w.closing.value.0 in w.closed)
    && (w.closed != {} ==> Settled(w.fields) || w.closing.Some?)
    && (w.callers != map[] ==> Settled(w.fields) || w.fields.done.Some?)
    && (Settled(w.fields) || w.closed != {} || w.fields.done.Some? || w.fields == Initial())
    && (forall c :: c in w.callers ==> CallerOk(w, w.callers[c]))
  }

  /** A caller's first critical section leaves an answer, an error or a lookup to wait for. */
  lemma EnterLeavesSomething(f: Fields, q: Query, id: nat)
    requires Settled(f) || f.done.Some? || f == Initial()
    ensures Settled(Entered(f, q, id)) || Entered(f, q, id).done.Some?
    ensures Settled(f) ==> Settled(Entered(f, q, id))
  {
  }

  lemma CallersKept(w: World, a: Action)
    requires Inv(w) && Enabled(w, a)
    ensures forall c :: c in Step(w, a).callers ==> CallerOk(Step(w, a), Step(w, a).callers[c])
  {
    var v := Step(w, a);
    forall c | c in v.callers ensures CallerOk(v, v.callers[c]) {
      if c in w.callers {
        assert CallerOk(w, w.callers[c]);
      }
    }
  }

  lemma InvKept(w: World, a: Action)
    requires Inv(w) && Enabled(w, a)
    ensures Inv(Step(w, a))
  {
    CallersKept(w, a);
    var v := Step(w, a);
    match a {
      case Enter(c, q) =>
        EnterLeavesSomething(w.fields, q, w.next);
      case Read(c) =>
      case Wake(c) =>
      case Cancel(c) =>
      case Close(id, o) =>
        assert InFlight(v) == InFlight(w);
      case Commit =>
        assert InFlight(v) == {};
    }
  }

  // ----- runs -----

  /** The world after a run; nothing if some action of it was not enabled. */
  ghost function After(w: World, run: seq<Action>): Option<World> {
    if run == [] then Some(w)
    else
      match After(w, run[..|run| - 1])
      case None => None
      case Some(v) => if Enabled(v, run[|run| - 1]) then Some(Step(v, run[|run| - 1])) else None
  }

  lemma {:induction false} InvKeptAlong(w: World, run: seq<Action>, v: World)
    requires Inv(w) && After(w, run) == Some(v)
    ensures Inv(v)
  {
    if run == [] {
    } else {
      var u := After(w, run[..|run| - 1]).value;
      InvKeptAlong(w, run[..|run| - 1], u);
      InvKept(u, run[|run| - 1]);
    }
  }

  lemma InvAlongRun(run: seq<Action>)
    requires After(Start(), run).Some?
    ensures Inv(After(Start(), run).value)
  {
    InvKeptAlong(Start(), run, After(Start(), run).value);
  }

  /**
   * At most one lookup is in flight, and the channel field is set exactly while one is. Once a
   * caller has come there is an answer, an error or a lookup.
   */
  lemma SingleFlight(run: seq<Action>, w: World)
    requires After(Start(), run) == Some(w)
    ensures |InFlight(w)| <= 1 && (w.fields.done.Some? <==> InFlight(w) != {})
    ensures w.callers != map[] ==> Settled(w.fields) || w.fields.done.Some?
  {
    InvAlongRun(run);
  }

  /** Nobody waits on a nil channel, for a lookup that is over and forgotten, or a second time. */
  lemma WaitersWaitOnceForSomething(run: seq<Action>, w: World, c: nat)
    requires After(Start(), run) == Some(w) && c in w.callers
    ensures match w.callers[c]
      case Waiting(on, n) => n == 0 && on.Some? && (on.value in InFlight(w) || Enabled(w, Wake(c)))
      case Reading(n) => n <= 1 && (n == 1 && w.closing.None? ==> Step(w, Read(c)).callers[c].Returned?)
      case Returned(clients, err) => clients.Some? || err.Some?
      case Cancelled => true
  {
    InvAlongRun(run);
    assert CallerOk(w, w.callers[c]);
  }

  /**
   * A lookup that has closed its channel writes its outcome; until then nobody gets the lock.
   * Otherwise a lookup in flight can end in any way, a caller can look, and another can come.
   */
  lemma NobodyIsStuck(run: seq<Action>, w: World)
    requires After(Start(), run) == Some(w)
    ensures w.closing.Some? ==> Enabled(w, Commit)
    ensures w.closing.None? ==>
      && (forall id, o :: id in InFlight(w) ==> Enabled(w, Close(id, o)))
      && (forall c :: c in w.callers && w.callers[c].Reading? ==> Enabled(w, Read(c)))
      && (forall c, q: Query ::
        c !in w.callers && w.clock <= q.asked <= q.marked <= q.compared <= q.renewed ==> Enabled(w, Enter(c, q)))
  {
    InvAlongRun(run);
  }

  /** Once there is an answer or an error, no step leads back to the initial waiting. */
  lemma {:induction false} SettledForGood(w: World, run: seq<Action>)
    requires Settled(w.fields) && After(w, run).Some?
    ensures Settled(After(w, run).value.fields)
  {
    if run == [] {
    } else {
      SettledForGood(w, run[..|run| - 1]);
    }
  }

  // ----- how often the interface is asked -----

  ghost predicate Spaced(w: World) {
    && (forall i :: 0 <= i < |w.queries| - 1 ==> w.queries[i] + 20_000_000_000 <= w.queries[i + 1])
    && (w.queries != [] ==> w.queries[|w.queries| - 1] + 20_000_000_000 == w.fields.ifaceInvalidate)
    && (w.queries == [] ==> w.fields.ifaceInvalidate == 0)
  }

  /** The interface is not asked again within 20 seconds, however many callers come. */
  lemma {:induction false} QueriesAreSpaced(run: seq<Action>)
    requires After(Start(), run).Some?
    ensures Spaced(After(Start(), run).value)
  {
    if run == [] {
    } else {
      QueriesAreSpaced(run[..|run| - 1]);
    }
  }

  /** And it is asked by the first caller who comes 20 seconds after the last query, or later. */
  lemma CallerAsksIff(run: seq<Action>, w: World, c: nat, q: Query)
    requires After(Start(), run) == Some(w) && Enabled(w, Enter(c, q))
    ensures Step(w, Enter(c, q)).queries ==
      if w.queries == [] || q.asked >= w.queries[|w.queries| - 1] + 20_000_000_000
      then w.queries + [q.marked] else w.queries
  {
    QueriesAreSpaced(run);
  }

  // ----- when a lookup is made -----

  /**
   * A caller who finds the interface up launches a lookup exactly if none is in flight and the
   * lease has run out or is one of another address; then the lease starts anew, for an hour.
   */
  lemma LaunchesIff(w: World, c: nat, q: Query, addr: Address)
    requires Enabled(w, Enter(c, q)) && q.asked >= w.fields.ifaceInvalidate && q.iface == Up(addr)
    ensures var v := Step(w, Enter(c, q));
      var stale := q.compared >= w.fields.dnsInvalidate || w.fields.ifaceAddr != Some(addr);
      && (v.next == w.next + 1 <==> w.fields.done.None? && stale)
      && (v.next == w.next <==> !(w.fields.done.None? && stale))
      && (v.next == w.next + 1 ==> v.running == w.running + {w.next} && v.fields.done == Some(w.next))
      && (v.next == w.next ==> v.running == w.running && v.fields.done == w.fields.done)
      && v.fields.ifaceAddr == Some(addr)
      && v.fields.dnsInvalidate == (if stale then q.renewed + 3_600_000_000_000 else w.fields.dnsInvalidate)
      && v.fields.clients == w.fields.clients && v.fields.err == w.fields.err
  {
  }

  /** Who does not find the interface up launches nothing; who asks it and finds it down leaves its error. */
  lemma NoLaunchOtherwise(w: World, c: nat, q: Query)
    requires Enabled(w, Enter(c, q)) && (q.asked < w.fields.ifaceInvalidate || q.iface.Down?)
    ensures var v := Step(w, Enter(c, q));
      && v.next == w.next && v.running == w.running && v.fields.done == w.fields.done
      && v.fields.ifaceAddr == w.fields.ifaceAddr && v.fields.dnsInvalidate == w.fields.dnsInvalidate
      && v.fields.clients == w.fields.clients
      && v.fields.err == if q.asked < w.fields.ifaceInvalidate then w.fields.err else Some(q.iface.failure)
  {
  }

  lemma {:induction false} OnLeaseKeepsIface(w: World, run: seq<Action>, v: World, addr: Address, end: nat)
    requires After(w, run) == Some(v) && OnLease(run, addr, end) && w.fields.dnsInvalidate == end
    requires w.fields.ifaceAddr == Some(addr)
    ensures v.fields.dnsInvalidate == end && v.fields.ifaceAddr == Some(addr)
  {
    if run == [] {
    } else {
      OnLeaseKeepsIface(w, run[..|run| - 1], After(w, run[..|run| - 1]).value, addr, end);
    }
  }

  /**
   * A lease runs out: after it was renewed at some time, and a run of callers on that lease, the
   * first query an hour after the renewal or later launches a lookup, unless one is in flight.
   */
  lemma LeaseRunsOut(w: World, c0: nat, q0: Query, addr0: Address, run: seq<Action>, v: World, c: nat, q: Query,
                     addr: Address)
    requires Enabled(w, Enter(c0, q0)) && q0.asked >= w.fields.ifaceInvalidate && q0.iface == Up(addr0)
    requires q0.compared >= w.fields.dnsInvalidate || w.fields.ifaceAddr != Some(addr0)
    requires After(Step(w, Enter(c0, q0)), run) == Some(v)
    requires OnLease(run, addr0, q0.renewed + 3_600_000_000_000)
    requires Enabled(v, Enter(c, q)) && q.asked >= v.fields.ifaceInvalidate && q.iface == Up(addr)
    requires q.compared >= q0.renewed + 3_600_000_000_000
    ensures Step(v, Enter(c, q)).next == v.next + if v.fields.done.None? then 1 else 0
    ensures Step(v, Enter(c, q)).fields.dnsInvalidate == q.renewed + 3_600_000_000_000
  {
    LaunchesIff(w, c0, q0, addr0);
    OnLeaseKeepsIface(Step(w, Enter(c0, q0)), run, v, addr0, q0.renewed + 3_600_000_000_000);
    LaunchesIff(v, c, q, addr);
  }

  // ----- an interface that was down -----

  /** The action at position i asks an interface that is down. */
  ghost predicate DownAt(w: World, run: seq<Action>, i: nat) {
    && i < |run| && run[i].Enter? && run[i].q.iface.Down?
    && After(w, run[..i]).Some? && Asks(After(w, run[..i]).value.fields, run[i].q)
  }

  /** The action at position i writes the outcome of a lookup. */
  ghost predicate CommitAt(w: World, run: seq<Action>, i: nat, o: Outcome) {
    && i < |run| && run[i].Commit?
    && After(w, run[..i]).Some? && After(w, run[..i]).value.closing.Some?
    && After(w, run[..i]).value.closing.value.1 == o
  }

  ghost predicate Decided(w: World, run: seq<Action>, i: nat) {
    DownAt(w, run, i) || exists o :: CommitAt(w, run, i, o)
  }

  ghost predicate BringsError(w: World, run: seq<Action>, i: nat) {
    DownAt(w, run, i) || exists o :: CommitAt(w, run, i, o) && o.Failed?
  }

  lemma FrontDecides(w: World, run: seq<Action>, i: nat, o: Outcome)
    requires i + 1 < |run|
    ensures DownAt(w, run[..|run| - 1], i) <==> DownAt(w, run, i)
    ensures CommitAt(w, run[..|run| - 1], i, o) <==> CommitAt(w, run, i, o)
  {
    assert run[..|run| - 1][..i] == run[..i];
  }

  /** Decisions do not depend on what comes after them. */
  lemma FrontDecisions(w: World, run: seq<Action>, i: nat)
    requires i + 1 < |run|
    ensures Decided(w, run[..|run| - 1], i) <==> Decided(w, run, i)
    ensures BringsError(w, run[..|run| - 1], i) <==> BringsError(w, run, i)
  {
    var front := run[..|run| - 1];
    FrontDecides(w, run, i, Failed(0));
    if o :| CommitAt(w, front, i, o) {
      FrontDecides(w, run, i, o);
    }
    if o :| CommitAt(w, run, i, o) {
      FrontDecides(w, run, i, o);
    }
  }

  /** The last action of a run that has a say in the error. */
  ghost function LastDecision(w: World, run: seq<Action>): Option<nat> {
    if run == [] then None
    else if Decided(w, run, |run| - 1) then Some(|run| - 1)
    else LastDecision(w, run[..|run| - 1])
  }

  lemma {:induction false} LastDecisionIsLast(w: World, run: seq<Action>)
    ensures match LastDecision(w, run)
      case None => forall j :: !Decided(w, run, j)
      case Some(i) => Decided(w, run, i) && forall j :: i < j ==> !Decided(w, run, j)
  {
    if run == [] {
    } else if !Decided(w, run, |run| - 1) {
      LastDecisionIsLast(w, run[..|run| - 1]);
      forall j: nat ensures Decided(w, run, j) <==> Decided(w, run[..|run| - 1], j) {
        if j + 1 < |run| {
          FrontDecisions(w, run, j);
        }
      }
    }
  }

  /**
   * Over any run there is an error exactly if the last query of a downed interface or
   * completion of a lookup is such a query or a failure, or if there is none and there was
   * an error before.
   */
  lemma {:induction false} ErrorIff(w: World, run: seq<Action>, v: World)
    requires After(w, run) == Some(v)
    ensures v.fields.err.Some? <==>
      match LastDecision(w, run)
      case None => w.fields.err.Some?
      case Some(i) => BringsError(w, run, i)
  {
    if run == [] {
    } else {
      var front := run[..|run| - 1];
      var u := After(w, front).value;
      ErrorIff(w, front, u);
      assert run[..|run| - 1] == front;
      if run[|run| - 1].Commit? {
        assert CommitAt(w, run, |run| - 1, u.closing.value.1);
      }
      LastDecisionIsLast(w, front);
      if LastDecision(w, front).Some? {
        FrontDecisions(w, run, LastDecision(w, front).value);
      }
    }
  }

  /** And it is the failure of that query or of that lookup. */
  lemma {:induction false} ErrorIs(w: World, run: seq<Action>, v: World)
    requires After(w, run) == Some(v)
    ensures match LastDecision(w, run)
      case None => v.fields.err == w.fields.err
      case Some(i) =>
        && (DownAt(w, run, i) ==> v.fields.err == Some(run[i].q.iface.failure))
        && forall failure: Failure :: CommitAt(w, run, i, Failed(failure)) ==> v.fields.err == Some(failure)
  {
    if run == [] {
    } else {
      var front := run[..|run| - 1];
      var u := After(w, front).value;
      ErrorIs(w, front, u);
      if run[|run| - 1].Commit? {
        assert CommitAt(w, run, |run| - 1, u.closing.value.1);
      } else if LastDecision(w, front).Some? && !Decided(w, run, |run| - 1) {
        var i := LastDecision(w, front).value;
        LastDecisionIsLast(w, front);
        DecisionInside(w, front, i);
        forall failure: Failure
          ensures CommitAt(w, front, i, Failed(failure)) <==> CommitAt(w, run, i, Failed(failure))
        {
          FrontDecides(w, run, i, Failed(failure));
        }
        FrontDecides(w, run, i, Failed(0));
      }
    }
  }

  lemma DecisionInside(w: World, run: seq<Action>, i: nat)
    requires Decided(w, run, i)
    ensures i < |run|
  {
  }

  /** The last completion of a lookup in a run. */
  ghost function LastCommit(w: World, run: seq<Action>): Option<nat> {
    if run == [] then None
    else if run[|run| - 1].Commit? then Some(|run| - 1)
    else LastCommit(w, run[..|run| - 1])
  }

  lemma {:induction false} LastCommitIsLast(w: World, run: seq<Action>)
    ensures match LastCommit(w, run)
      case None => forall j :: 0 <= j < |run| ==> !run[j].Commit?
      case Some(i) => i < |run| && run[i].Commit? && forall j :: i < j < |run| ==> !run[j].Commit?
  {
    if run == [] {
    } else {
      LastCommitIsLast(w, run[..|run| - 1]);
    }
  }

  /** The clients are those of the last completion, if that was an answer. */
  lemma {:induction false} ClientsIff(w: World, run: seq<Action>, v: World)
    requires After(w, run) == Some(v)
    ensures v.fields.clients.Some? <==>
      match LastCommit(w, run)
      case None => w.fields.clients.Some?
      case Some(i) => exists o :: CommitAt(w, run, i, o) && o.Answer?
    ensures match LastCommit(w, run)
      case None => v.fields.clients == w.fields.clients
      case Some(i) => forall o :: CommitAt(w, run, i, o) ==>
        match o
        case Answer(servers) => v.fields.clients == Some(servers)
        case Failed(_) => v.fields.clients.None?
  {
    if run == [] {
    } else {
      var front := run[..|run| - 1];
      var u := After(w, front).value;
      ClientsIff(w, front, u);
      LastCommitIsLast(w, front);
      if run[|run| - 1].Commit? {
        assert CommitAt(w, run, |run| - 1, u.closing.value.1);
      } else if LastCommit(w, front).Some? {
        var i := LastCommit(w, front).value;
        forall o ensures CommitAt(w, front, i, o) <==> CommitAt(w, run, i, o) {
          FrontDecides(w, run, i, o);
        }
      }
    }
  }

  /** An answer, no completion since, and since then a query that found the interface down. */
  ghost predicate DownSinceAnswer(run: seq<Action>, i: nat, j: nat, servers: seq<Server>) {
    && i < j && CommitAt(Start(), run, i, Answer(servers)) && DownAt(Start(), run, j)
    && forall k :: i < k < |run| ==> !run[k].Commit?
  }

  /**
   * The client has an answer and yet an error exactly if since the last lookup, which brought
   * the answer, a query has found the interface down. Nothing else hides an answer, and
   * nothing but the next completion shows it again.
   */
  lemma AnswerWithheldIff(run: seq<Action>, v: World)
    requires After(Start(), run) == Some(v)
    ensures v.fields.clients.Some? && v.fields.err.Some? <==>
      exists i: nat, j: nat, servers :: DownSinceAnswer(run, i, j, servers)
  {
    ErrorIff(Start(), run, v);
    ClientsIff(Start(), run, v);
    LastDecisionIsLast(Start(), run);
    LastCommitIsLast(Start(), run);
    if v.fields.clients.Some? && v.fields.err.Some? {
      var i := LastCommit(Start(), run).value;
      var o :| CommitAt(Start(), run, i, o) && o.Answer?;
      assert Decided(Start(), run, i);
      var j := LastDecision(Start(), run).value;
      SameCommit(run, i, o, j);
      assert DownSinceAnswer(run, i, j, o.servers);
    }
    if i: nat, j: nat, servers :| DownSinceAnswer(run, i, j, servers) {
      assert LastCommit(Start(), run) == Some(i) && Answer(servers).Answer?;
      assert Decided(Start(), run, j);
      var k := LastDecision(Start(), run).value;
      assert k >= j;
    }
  }

  /** The last decision after an answer that is no later completion is a query of a downed interface. */
  lemma SameCommit(run: seq<Action>, i: nat, o: Outcome, j: nat)
    requires CommitAt(Start(), run, i, o) && o.Answer? && (forall k :: i < k < |run| ==> !run[k].Commit?)
    requires j >= i && BringsError(Start(), run, j)
    ensures i < j && DownAt(Start(), run, j)
  {
  }

  /** Whoever comes back brings what the fields held at some moment of the run, an answer or an error or both. */
  lemma {:induction false} ReturnsWhatWasThere(run: seq<Action>, w: World, c: nat)
    requires After(Start(), run) == Some(w) && c in w.callers && w.callers[c].Returned?
    ensures exists i ::
      && 0 <= i < |run| && After(Start(), run[..i]).Some? && run[i] == Read(c)
      && var f := After(Start(), run[..i]).value.fields;
        w.callers[c] == Returned(f.clients, f.err) && (f.clients.Some? || f.err.Some?)
  {
    assert run != [];
    var front, last := run[..|run| - 1], run[|run| - 1];
    var u := After(Start(), front).value;
    if c in u.callers && u.callers[c].Returned? {
      ReturnsWhatWasThere(front, u, c);
      var i :| 0 <= i < |front| && After(Start(), front[..i]).Some? && front[i] == Read(c)
               && var f := After(Start(), front[..i]).value.fields;
                  u.callers[c] == Returned(f.clients, f.err) && (f.clients.Some? || f.err.Some?);
      assert front[..i] == run[..i];
    } else {
      assert last == Read(c) && run[..|run| - 1] == front;
    }
  }

  ghost predicate NoCommit(run: seq<Action>) {
    forall i :: 0 <= i < |run| ==> !run[i].Commit?
  }

  ghost predicate CameBack(w: World, c: nat) {
    c in w.callers && w.callers[c].Returned?
  }

  /** So only a completed lookup clears an error: up to then every caller that comes back brings an error. */
  lemma {:induction false} ErrorStaysUntilLookup(w: World, run: seq<Action>, v: World)
    requires w.fields.err.Some? && After(w, run) == Some(v) && NoCommit(run)
    ensures v.fields.err.Some?
    ensures forall c :: CameBack(v, c) && !CameBack(w, c) ==> v.callers[c].err.Some?
  {
    ErrorIff(w, run, v);
    LastDecisionIsLast(w, run);
    if run == [] {
    } else {
      var u := After(w, run[..|run| - 1]).value;
      ErrorStaysUntilLookup(w, run[..|run| - 1], u);
      forall c | CameBack(v, c) && !CameBack(w, c) ensures v.callers[c].err.Some? {
        assert CameBack(u, c) || run[|run| - 1] == Read(c);
      }
    }
  }

  // ----- a lease -----

  /** Every caller of the run finds the interface up with the given address, before the lease ends. */
  ghost predicate OnLease(run: seq<Action>, addr: Address, end: nat) {
    forall i :: 0 <= i < |run| && run[i].Enter? ==> run[i].q.iface == Up(addr) && run[i].q.compared < end
  }

  /** While the lease lasts and the address stays, no number of callers launches a lookup or prolongs the lease. */
  lemma {:induction false} LeaseLaunchesNothing(w: World, run: seq<Action>, v: World, addr: Address)
    requires After(w, run) == Some(v) && w.fields.ifaceAddr == Some(addr)
    requires OnLease(run, addr, w.fields.dnsInvalidate)
    ensures v.next == w.next && v.fields.ifaceAddr == Some(addr) && v.fields.dnsInvalidate == w.fields.dnsInvalidate
  {
    if run == [] {
    } else {
      LeaseLaunchesNothing(w, run[..|run| - 1], After(w, run[..|run| - 1]).value, addr);
    }
  }

  /**
   * A new address, or a lease that has run out, is looked up exactly if no lookup was in
   * flight when a caller saw it. Otherwise none is launched for as long as the new lease
   * lasts, and every outcome written by then is that of an earlier lookup.
   */
  lemma AddressChangeInFlight(w: World, c: nat, q: Query, run: seq<Action>, v: World)
    requires Inv(w) && Enabled(w, Enter(c, q)) && q.asked >= w.fields.ifaceInvalidate && q.iface.Up?
    requires q.compared >= w.fields.dnsInvalidate || w.fields.ifaceAddr != Some(q.iface.addr)
    requires After(Step(w, Enter(c, q)), run) == Some(v)
    requires OnLease(run, q.iface.addr, q.renewed + 3_600_000_000_000)
    ensures v.next > w.next <==> w.fields.done.None?
    ensures w.fields.done.Some? ==> forall id :: id in v.closed || id in InFlight(v) ==> id < w.next
  {
    var u := Step(w, Enter(c, q));
    InvKept(w, Enter(c, q));
    InvKeptAlong(u, run, v);
    LeaseLaunchesNothing(u, run, v, q.iface.addr);
  }

  lemma Extend(w: World, run: seq<Action>, v: World, a: Action) returns (u: World)
    requires After(w, run) == Some(v) && Enabled(v, a)
    ensures u == Step(v, a) && After(w, run + [a]) == Some(u)
  {
    FrontOfSnoc(run, a);
    u := Step(v, a);
  }

  /** A DHCP answer, a moment without the interface, and 40 seconds later an error beside a good answer. */
  lemma InterfaceErrorSticks() returns (run: seq<Action>)
    ensures After(Start(), run).Some? && |run| == 6
    ensures run[1] == Close(0, Answer([53])) && run[5] == Read(2)
    ensures forall i :: 0 <= i < |run| && run[i].Enter? && run[i].c != 1 ==> run[i].q.iface == Up(7)
    ensures After(Start(), run).value.callers[2] == Returned(Some([53]), Some(1))
  {
    var t0, t1, t2 := 0, 20 * SECOND, 60 * SECOND;
    var q0, q1, q2 := Query(t0, t0, t0, t0, Up(7)), Query(t1, t1, t1, t1, Down(1)), Query(t2, t2, t2, t2, Up(7));
    var w := Start();
    w := Extend(Start(), [], w, Enter(0, q0));
    w := Extend(Start(), [Enter(0, q0)], w, Close(0, Answer([53])));
    run := [Enter(0, q0), Close(0, Answer([53]))];
    w := Extend(Start(), run, w, Commit);
    run := run + [Commit];
    w := Extend(Start(), run, w, Enter(1, q1));
    run := run + [Enter(1, q1)];
    w := Extend(Start(), run, w, Enter(2, q2));
    run := run + [Enter(2, q2)];
    w := Extend(Start(), run, w, Read(2));
    run := run + [Read(2)];
  }

  /**
   * An address that changes while the first lookup is on its way: the answer that was asked
   * for under the old address is given out half an hour later, and there has been one lookup.
   */
  lemma AddressChangeIsMissed() returns (run: seq<Action>)
    ensures After(Start(), run).Some? && |run| == 6
    ensures forall i :: 0 <= i < |run| && run[i].Enter? ==> run[i].q.iface == Up(if i == 0 then 7 else 8)
    ensures run[2] == Close(0, Answer([53])) && run[4].Enter? && run[4].q.asked == 1800 * SECOND && run[5] == Read(2)
    ensures After(Start(), run).value.callers[2] == Returned(Some([53]), None)
    ensures After(Start(), run).value.next == 1
  {
    var t0, t1, t2 := 0, 20 * SECOND, 1800 * SECOND;
    var q0, q1, q2 := Query(t0, t0, t0, t0, Up(7)), Query(t1, t1, t1, t1, Up(8)), Query(t2, t2, t2, t2, Up(8));
    var w := Start();
    w := Extend(Start(), [], w, Enter(0, q0));
    w := Extend(Start(), [Enter(0, q0)], w, Enter(1, q1));
    run := [Enter(0, q0), Enter(1, q1)];
    w := Extend(Start(), run, w, Close(0, Answer([53])));
    run := run + [Close(0, Answer([53]))];
    w := Extend(Start(), run, w, Commit);
    run := run + [Commit];
    w := Extend(Start(), run, w, Enter(2, q2));
    run := run + [Enter(2, q2)];
    w := Extend(Start(), run, w, Read(2));
    run := run + [Read(2)];
  }
}
