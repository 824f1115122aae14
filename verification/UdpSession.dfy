/**
 * The UDP session protocol (core/Clash.Meta/tunnel/tunnel.go and connection.go) as a state
 * machine over the atomic steps of its goroutines: the receivers, the queue workers, and
 * for each session a dial/process goroutine and a reader goroutine.
 *
 * The NAT table's GetOrCreate and Delete are single steps. A channel receive, a channel
 * send, a look at a context and each step of a teardown are single steps, interleaved in
 * any order. `select` chooses among its ready cases in any way. Dialling and reading fail
 * at will. Sniffing is off, so the sender is the plain packetSender.
 */
module UdpSession {
  import opened Prelude

  const QUEUE_CAPACITY := 64
  const SENDER_CAPACITY := 128

  /** id is the position among all packets received; key is the SNAT key. */
  datatype Packet = Packet(id: nat, key: string)

  /** What a worker is doing: handleUDPConn up to, and inside, Send. */
  datatype Hand =
    | Idle
    | Checking(packet: Packet)
    | Sending(packet: Packet, sid: nat)
    | Putting(packet: Packet, sid: nat)

  datatype Worker = Worker(queue: seq<Packet>, hand: Hand)

  /** The goroutine that dials and then runs Process; the Fail states are its teardown. */
  datatype Dialer = Dialing | Processing | Busy(packet: Packet) | Left | FailClose | FailDrain | FailDelete | FailDone

  /** The goroutine handleUDPToLocal; the Exit states are its deferred teardown. */
  datatype Reader = NoReader | Reading | ExitClose | ExitDrain | ExitPc | ExitDelete | ExitDone

  /** `closed` is the sender's cancelled context; `taken` lists the packets Process has taken. */
  datatype Session = Session(key: string, closed: bool, queue: seq<Packet>, dialer: Dialer, reader: Reader,
    taken: seq<Packet>)

  /** One execution of natTable.Delete: who called it, and which session it removed. */
  datatype Deletion = Deletion(caller: nat, removed: Option<nat>)

  datatype State = State(
    workers: seq<Worker>,
    table: map<string, nat>,
    sessions: seq<Session>,
    received: seq<Packet>,
    accepted: seq<Packet>,
    dropped: seq<Packet>,
    deletions: seq<Deletion>)

  datatype Action =
    | Receive(key: string)
    | Pick(w: nat)
    | Reject(w: nat)
    | Lookup(w: nat)
    | SendSeesClosed(w: nat)
    | SendSeesOpen(w: nat)
    | Put(w: nat)
    | PutSeesClosed(w: nat)
    | PutSeesFull(w: nat)
    | DialOk(i: nat)
    | DialFails(i: nat)
    | FailCloses(i: nat)
    | FailDrains(i: nat)
    | FailDrained(i: nat)
    | FailDeletes(i: nat)
    | Take(i: nat)
    | Finish(i: nat)
    | Leave(i: nat)
    | ReaderStops(i: nat)
    | ReaderCloses(i: nat)
    | ReaderDrains(i: nat)
    | ReaderDrained(i: nat)
    | ReaderClosesPc(i: nat)
    | ReaderDeletes(i: nat)

  ghost predicate IsInitial(s: State) {
    && |s.workers| > 0
    && (forall w :: 0 <= w < |s.workers| ==> s.workers[w] == Worker([], Idle))
    && s.table == map[] && s.sessions == [] && s.received == [] && s.accepted == []
    && s.dropped == [] && s.deletions == []
  }

  /** The worker that serves a key. */
  function Route(hash: string -> nat, key: string, n: nat): nat
    requires n > 0
  {
    hash(key) % n
  }

  ghost predicate Enabled(hash: string -> nat, s: State, a: Action) {
    && |s.workers| > 0
    && match a
       case Receive(key) => true
       case Pick(w) => w < |s.workers| && s.workers[w].hand.Idle? && s.workers[w].queue != []
       case Reject(w) => w < |s.workers| && s.workers[w].hand.Checking?
       case Lookup(w) => w < |s.workers| && s.workers[w].hand.Checking?
       case SendSeesClosed(w) =>
         && w < |s.workers| && s.workers[w].hand.Sending? && s.workers[w].hand.sid < |s.sessions|
         && s.sessions[s.workers[w].hand.sid].closed
       case SendSeesOpen(w) =>
         && w < |s.workers| && s.workers[w].hand.Sending? && s.workers[w].hand.sid < |s.sessions|
         && !s.sessions[s.workers[w].hand.sid].closed
       case Put(w) =>
         && w < |s.workers| && s.workers[w].hand.Putting? && s.workers[w].hand.sid < |s.sessions|
         && |s.sessions[s.workers[w].hand.sid].queue| < SENDER_CAPACITY
       case PutSeesClosed(w) =>
         && w < |s.workers| && s.workers[w].hand.Putting? && s.workers[w].hand.sid < |s.sessions|
         && s.sessions[s.workers[w].hand.sid].closed
       case PutSeesFull(w) =>
         && w < |s.workers| && s.workers[w].hand.Putting? && s.workers[w].hand.sid < |s.sessions|
         && !s.sessions[s.workers[w].hand.sid].closed && |s.sessions[s.workers[w].hand.sid].queue| >= SENDER_CAPACITY
       case DialOk(i) => i < |s.sessions| && s.sessions[i].dialer.Dialing?
       case DialFails(i) => i < |s.sessions| && s.sessions[i].dialer.Dialing?
       case FailCloses(i) => i < |s.sessions| && s.sessions[i].dialer.FailClose?
       case FailDrains(i) => i < |s.sessions| && s.sessions[i].dialer.FailDrain? && s.sessions[i].queue != []
       case FailDrained(i) => i < |s.sessions| && s.sessions[i].dialer.FailDrain? && s.sessions[i].queue == []
       case FailDeletes(i) => i < |s.sessions| && s.sessions[i].dialer.FailDelete?
       case Take(i) => i < |s.sessions| && s.sessions[i].dialer.Processing? && s.sessions[i].queue != []
       case Finish(i) => i < |s.sessions| && s.sessions[i].dialer.Busy?
       case Leave(i) => i < |s.sessions| && s.sessions[i].dialer.Processing? && s.sessions[i].closed
       case ReaderStops(i) => i < |s.sessions| && s.sessions[i].reader.Reading?
       case ReaderCloses(i) => i < |s.sessions| && s.sessions[i].reader.ExitClose?
       case ReaderDrains(i) => i < |s.sessions| && s.sessions[i].reader.ExitDrain? && s.sessions[i].queue != []
       case ReaderDrained(i) => i < |s.sessions| && s.sessions[i].reader.ExitDrain? && s.sessions[i].queue == []
       case ReaderClosesPc(i) => i < |s.sessions| && s.sessions[i].reader.ExitPc?
       case ReaderDeletes(i) => i < |s.sessions| && s.sessions[i].reader.ExitDelete?
  }

  function WithWorker(s: State, w: nat, x: Worker): State
    requires w < |s.workers|
  {
    s.(workers := s.workers[w := x])
  }

  function WithSession(s: State, i: nat, x: Session): State
    requires i < |s.sessions|
  {
    s.(sessions := s.sessions[i := x])
  }

  /** The worker lets go of its packet, which is dropped. */
  function HandDrops(s: State, w: nat): State
    requires w < |s.workers| && !s.workers[w].hand.Idle?
  {
    WithWorker(s, w, s.workers[w].(hand := Idle)).(dropped := s.dropped + [s.workers[w].hand.packet])
  }

  /** dropAll takes one packet out of the channel and drops it. */
  function DrainOne(s: State, i: nat): State
    requires i < |s.sessions| && s.sessions[i].queue != []
  {
    var x := s.sessions[i];
    WithSession(s, i, x.(queue := x.queue[1..])).(dropped := s.dropped + [x.queue[0]])
  }

  /** natTable.Delete removes whatever is registered under the key. */
  function DeleteEntry(s: State, i: nat): State
    requires i < |s.sessions|
  {
    var k := s.sessions[i].key;
    s.(table := s.table - {k},
       deletions := s.deletions + [Deletion(i, if k in s.table then Some(s.table[k]) else None)])
  }

  ghost function Apply(hash: string -> nat, s: State, a: Action): State
    requires Enabled(hash, s, a)
  {
    match a
    case Receive(key) =>
      var p := Packet(|s.received|, key);
      var w := Route(hash, key, |s.workers|);
      var q := s.workers[w].queue;
      if |q| < QUEUE_CAPACITY then
        WithWorker(s, w, s.workers[w].(queue := q + [p])).(received := s.received + [p], accepted := s.accepted + [p])
      else
        s.(received := s.received + [p], dropped := s.dropped + [p])
    case Pick(w) =>
      var q := s.workers[w].queue;
      WithWorker(s, w, Worker(q[1..], Checking(q[0])))
    case Reject(w) => HandDrops(s, w)
    case Lookup(w) =>
      var p := s.workers[w].hand.packet;
      if p.key in s.table then
        WithWorker(s, w, s.workers[w].(hand := Sending(p, s.table[p.key])))
      else
        var i := |s.sessions|;
        WithWorker(s, w, s.workers[w].(hand := Sending(p, i)))
          .(table := s.table[p.key := i], sessions := s.sessions + [Session(p.key, false, [], Dialing, NoReader, [])])
    case SendSeesClosed(w) => HandDrops(s, w)
    case SendSeesOpen(w) =>
      var h := s.workers[w].hand;
      WithWorker(s, w, s.workers[w].(hand := Putting(h.packet, h.sid)))
    case Put(w) =>
      var h := s.workers[w].hand;
      var x := s.sessions[h.sid];
      WithSession(WithWorker(s, w, s.workers[w].(hand := Idle)), h.sid, x.(queue := x.queue + [h.packet]))
    case PutSeesClosed(w) => HandDrops(s, w)
    case PutSeesFull(w) => HandDrops(s, w)
    case DialOk(i) => WithSession(s, i, s.sessions[i].(dialer := Processing, reader := Reading))
    case DialFails(i) => WithSession(s, i, s.sessions[i].(dialer := FailClose))
    case FailCloses(i) => WithSession(s, i, s.sessions[i].(dialer := FailDrain, closed := true))
    case FailDrains(i) => DrainOne(s, i)
    case FailDrained(i) => WithSession(s, i, s.sessions[i].(dialer := FailDelete))
    case FailDeletes(i) => WithSession(DeleteEntry(s, i), i, s.sessions[i].(dialer := FailDone))
    case Take(i) =>
      var x := s.sessions[i];
      WithSession(s, i, x.(queue := x.queue[1..], dialer := Busy(x.queue[0]), taken := x.taken + [x.queue[0]]))
    case Finish(i) =>
      WithSession(s, i, s.sessions[i].(dialer := Processing)).(dropped := s.dropped + [s.sessions[i].dialer.packet])
    case Leave(i) => WithSession(s, i, s.sessions[i].(dialer := Left))
    case ReaderStops(i) => WithSession(s, i, s.sessions[i].(reader := ExitClose))
    case ReaderCloses(i) => WithSession(s, i, s.sessions[i].(reader := ExitDrain, closed := true))
    case ReaderDrains(i) => DrainOne(s, i)
    case ReaderDrained(i) => WithSession(s, i, s.sessions[i].(reader := ExitPc))
    case ReaderClosesPc(i) => WithSession(s, i, s.sessions[i].(reader := ExitDelete))
    case ReaderDeletes(i) => WithSession(DeleteEntry(s, i), i, s.sessions[i].(reader := ExitDone))
  }

  /** A run: from an initial state, one enabled action after another. */
  ghost predicate IsRun(hash: string -> nat, states: seq<State>, actions: seq<Action>) {
    && |states| == |actions| + 1
    && IsInitial(states[0])
    && forall n :: 0 <= n < |actions| ==>
      Enabled(hash, states[n], actions[n]) && states[n + 1] == Apply(hash, states[n], actions[n])
  }

  // ----- the life of a session -----

  predicate Deleted(x: Session) {
    x.dialer.FailDone? || x.reader.ExitDone?
  }

  /** The teardown's dropAll has seen the queue empty. */
  predicate Drained(x: Session) {
    x.dialer.FailDelete? || x.dialer.FailDone? || x.reader.ExitPc? || x.reader.ExitDelete? || x.reader.ExitDone?
  }

  predicate DialFailed(x: Session) {
    x.dialer.FailClose? || x.dialer.FailDrain? || x.dialer.FailDelete? || x.dialer.FailDone?
  }

  predicate ReaderExited(x: Session) {
    x.reader.ExitClose? || x.reader.ExitDrain? || x.reader.ExitPc? || x.reader.ExitDelete? || x.reader.ExitDone?
  }

  /** The reader exists exactly when the dial has succeeded, so only one of the two tears down. */
  ghost predicate SessionLife(x: Session) {
    && (x.reader.NoReader? <==> x.dialer.Dialing? || DialFailed(x))
    && (x.closed <==> x.dialer.FailDrain? || x.reader.ExitDrain? || Drained(x))
    && (x.dialer.Left? ==> x.closed)
  }

  ghost predicate Lives(s: State) {
    forall i :: 0 <= i < |s.sessions| ==> SessionLife(s.sessions[i])
  }

  /** The table and the undeleted sessions are the same thing. */
  ghost predicate TableIsLive(s: State) {
    && (forall k :: k in s.table ==>
      s.table[k] < |s.sessions| && s.sessions[s.table[k]].key == k && !Deleted(s.sessions[s.table[k]]))
    && (forall i :: 0 <= i < |s.sessions| && !Deleted(s.sessions[i]) ==>
      s.sessions[i].key in s.table && s.table[s.sessions[i].key] == i)
  }

  /** Every deletion removed the session that called it, and no session calls it twice. */
  ghost predicate DeletionsOwn(s: State) {
    && (forall d :: 0 <= d < |s.deletions| ==>
      && s.deletions[d].caller < |s.sessions|
      && s.deletions[d].removed == Some(s.deletions[d].caller)
      && Deleted(s.sessions[s.deletions[d].caller]))
    && (forall d, e :: 0 <= d < e < |s.deletions| ==> s.deletions[d].caller != s.deletions[e].caller)
    && (forall i :: 0 <= i < |s.sessions| && Deleted(s.sessions[i]) ==>
      exists d :: 0 <= d < |s.deletions| && s.deletions[d].caller == i)
  }

  /** Of the sessions of one key only the last can be undeleted. */
  ghost predicate OldSessionsDeleted(s: State) {
    forall i, j :: 0 <= i < j < |s.sessions| && s.sessions[i].key == s.sessions[j].key ==> Deleted(s.sessions[i])
  }

  // ----- kinds of steps -----

  predicate OfWorker(a: Action) {
    a.Pick? || a.Reject? || a.SendSeesClosed? || a.SendSeesOpen? || a.PutSeesClosed? || a.PutSeesFull?
  }

  predicate OfSession(a: Action) {
    !OfWorker(a) && !a.Receive? && !a.Lookup? && !a.Put?
  }

  /** A step of one session leaves the workers and the other sessions alone. */
  lemma SessionStepFrame(hash: string -> nat, s: State, a: Action)
    requires Enabled(hash, s, a) && OfSession(a)
    ensures var t := Apply(hash, s, a);
      && t.workers == s.workers && a.i < |s.sessions| == |t.sessions|
      && t.sessions == s.sessions[a.i := t.sessions[a.i]] && t.sessions[a.i].key == s.sessions[a.i].key
  {
  }

  lemma WorkerStepFrame(hash: string -> nat, s: State, a: Action)
    requires Enabled(hash, s, a) && OfWorker(a)
    ensures var t := Apply(hash, s, a);
      && t.sessions == s.sessions && t.received == s.received && t.accepted == s.accepted
      && a.w < |s.workers| == |t.workers| && t.workers == s.workers[a.w := t.workers[a.w]]
  {
  }

  lemma LifeGoesOn(hash: string -> nat, s: State, a: Action)
    requires Enabled(hash, s, a) && OfSession(a) && SessionLife(s.sessions[a.i])
    ensures a.i < |Apply(hash, s, a).sessions| && SessionLife(Apply(hash, s, a).sessions[a.i])
  {
  }

  lemma LivesKept(hash: string -> nat, s: State, a: Action)
    requires Enabled(hash, s, a) && Lives(s)
    ensures Lives(Apply(hash, s, a))
  {
    if OfSession(a) {
      SessionStepFrame(hash, s, a);
      LifeGoesOn(hash, s, a);
    } else if OfWorker(a) {
      WorkerStepFrame(hash, s, a);
    }
  }

  /** No session is born, deleted or renamed. */
  ghost predicate Quiet(s: State, t: State) {
    && t.table == s.table && t.deletions == s.deletions && |t.sessions| == |s.sessions|
    && forall i :: 0 <= i < |s.sessions| ==>
      t.sessions[i].key == s.sessions[i].key && (Deleted(t.sessions[i]) <==> Deleted(s.sessions[i]))
  }

  /** Session i disappears from the table, and nothing else about who lives changes. */
  ghost predicate Deletes(s: State, t: State, i: nat) {
    && i < |s.sessions| == |t.sessions| && Deleted(t.sessions[i])
    && (forall j :: 0 <= j < |s.sessions| ==> t.sessions[j].key == s.sessions[j].key)
    && (forall j :: 0 <= j < |s.sessions| && j != i ==> t.sessions[j] == s.sessions[j])
    && t.table == s.table - {s.sessions[i].key}
    && t.deletions == s.deletions
      + [Deletion(i, if s.sessions[i].key in s.table then Some(s.table[s.sessions[i].key]) else None)]
  }

  /** A session is born under a key that has none. */
  ghost predicate Creates(s: State, t: State, key: string) {
    && key !in s.table && t.table == s.table[key := |s.sessions|]
    && t.sessions == s.sessions + [Session(key, false, [], Dialing, NoReader, [])]
    && t.deletions == s.deletions
  }

  lemma WorkerStepIsQuiet(hash: string -> nat, s: State, a: Action)
    requires Enabled(hash, s, a) && (OfWorker(a) || a.Receive? || a.Put?)
    ensures Quiet(s, Apply(hash, s, a))
  {
  }

  lemma SessionStepIsQuiet(hash: string -> nat, s: State, a: Action)
    requires Enabled(hash, s, a) && Lives(s) && OfSession(a) && !a.FailDeletes? && !a.ReaderDeletes?
    ensures Quiet(s, Apply(hash, s, a))
  {
    assert SessionLife(s.sessions[a.i]);
  }

  lemma DeleteStepDeletes(hash: string -> nat, s: State, a: Action)
    requires Enabled(hash, s, a) && Lives(s) && (a.FailDeletes? || a.ReaderDeletes?)
    ensures Deletes(s, Apply(hash, s, a), a.i) && !Deleted(s.sessions[a.i])
  {
    assert SessionLife(s.sessions[a.i]);
  }

  lemma LookupCreatesOrNot(hash: string -> nat, s: State, w: nat)
    requires Enabled(hash, s, Lookup(w))
    ensures var t := Apply(hash, s, Lookup(w)); Quiet(s, t) || Creates(s, t, s.workers[w].hand.packet.key)
  {
  }

  /** A step gives birth to a session, deletes one, or leaves the population alone. */
  lemma ActionKinds(hash: string -> nat, s: State, a: Action)
    requires Enabled(hash, s, a) && Lives(s)
    ensures var t := Apply(hash, s, a);
      match a
      case FailDeletes(i) => Deletes(s, t, i) && !Deleted(s.sessions[i])
      case ReaderDeletes(i) => Deletes(s, t, i) && !Deleted(s.sessions[i])
      case Lookup(w) => Quiet(s, t) || Creates(s, t, s.workers[w].hand.packet.key)
      case _ => Quiet(s, t)
  {
    if a.Lookup? {
      LookupCreatesOrNot(hash, s, a.w);
    } else if a.FailDeletes? || a.ReaderDeletes? {
      DeleteStepDeletes(hash, s, a);
    } else if OfSession(a) {
      SessionStepIsQuiet(hash, s, a);
    } else {
      WorkerStepIsQuiet(hash, s, a);
    }
  }

  ghost predicate Population(s: State) {
    TableIsLive(s) && OldSessionsDeleted(s) && DeletionsOwn(s)
  }

  lemma QuietKeepsPopulation(s: State, t: State)
    requires Population(s) && Quiet(s, t)
    ensures Population(t)
  {
    forall i, j | 0 <= i < j < |t.sessions| && t.sessions[i].key == t.sessions[j].key ensures Deleted(t.sessions[i]) {
      assert s.sessions[i].key == s.sessions[j].key;
    }
  }

  lemma CreateKeepsPopulation(s: State, t: State, key: string)
    requires Population(s) && Creates(s, t, key)
    ensures Population(t)
  {
    forall i, j | 0 <= i < j < |t.sessions| && t.sessions[i].key == t.sessions[j].key ensures Deleted(t.sessions[i]) {
      if j < |s.sessions| {
        assert s.sessions[i].key == s.sessions[j].key;
      } else {
        assert t.sessions[i] == s.sessions[i];
      }
    }
  }

  lemma DeleteKeepsPopulation(s: State, t: State, i: nat)
    requires Population(s) && Deletes(s, t, i) && !Deleted(s.sessions[i])
    ensures Population(t)
  {
    forall j, k | 0 <= j < k < |t.sessions| && t.sessions[j].key == t.sessions[k].key ensures Deleted(t.sessions[j]) {
      assert s.sessions[j].key == s.sessions[k].key;
    }
    DeleteKeepsDeletions(s, t, i);
  }

  lemma DeleteKeepsDeletions(s: State, t: State, i: nat)
    requires TableIsLive(s) && DeletionsOwn(s) && Deletes(s, t, i) && !Deleted(s.sessions[i])
    ensures DeletionsOwn(t)
  {
    var m := |s.deletions|;
    assert t.deletions[m] == Deletion(i, Some(i));
    forall j | 0 <= j < |t.sessions| && Deleted(t.sessions[j])
      ensures exists d :: 0 <= d < |t.deletions| && t.deletions[d].caller == j
    {
      if j == i {
        assert t.deletions[m].caller == j;
      } else {
        var d :| 0 <= d < m && s.deletions[d].caller == j;
        assert t.deletions[d].caller == j;
      }
    }
  }

  lemma PopulationKept(hash: string -> nat, s: State, a: Action)
    requires Enabled(hash, s, a) && Lives(s) && Population(s)
    ensures Population(Apply(hash, s, a))
  {
    var t := Apply(hash, s, a);
    ActionKinds(hash, s, a);
    if a.FailDeletes? || a.ReaderDeletes? {
      DeleteKeepsPopulation(s, t, a.i);
    } else if Quiet(s, t) {
      QuietKeepsPopulation(s, t);
    } else {
      CreateKeepsPopulation(s, t, s.workers[a.w].hand.packet.key);
    }
  }

  // ----- where a packet is -----

  /** The packets a worker has accepted and not yet let go of, oldest first. */
  function Pipeline(x: Worker): seq<Packet> {
    (if x.hand.Idle? then [] else [x.hand.packet]) + x.queue
  }

  /** The packets a session holds: in the channel, and the one being processed. */
  function Held(x: Session): seq<Packet> {
    (if x.dialer.Busy? then [x.dialer.packet] else []) + x.queue
  }

  /** How often p is with a worker. */
  ghost function Share(x: Worker, p: Packet): nat {
    multiset(Pipeline(x))[p]
  }

  ghost function InWorkers(ws: seq<Worker>, p: Packet): nat {
    if ws == [] then 0 else Share(ws[0], p) + InWorkers(ws[1..], p)
  }

  /** How often p is with a session. */
  ghost function SessionShare(x: Session, p: Packet): nat {
    multiset(Held(x))[p]
  }

  ghost function InSessions(ss: seq<Session>, p: Packet): nat {
    if ss == [] then 0 else SessionShare(ss[0], p) + InSessions(ss[1..], p)
  }

  /** In how many places p is: worker queues and hands, sender queues, being processed, dropped. */
  ghost function Places(s: State, p: Packet): nat {
    InWorkers(s.workers, p) + InSessions(s.sessions, p) + multiset(s.dropped)[p]
  }

  ghost predicate Conserved(s: State) {
    && (forall n :: 0 <= n < |s.received| ==> s.received[n].id == n)
    && forall p {:trigger Places(s, p)} :: Places(s, p) == multiset(s.received)[p]
  }

  lemma {:induction false} InWorkersUpdate(ws: seq<Worker>, w: nat, x: Worker, p: Packet)
    requires w < |ws|
    ensures InWorkers(ws[w := x], p) == InWorkers(ws, p) - Share(ws[w], p) + Share(x, p)
  {
    var us := ws[w := x];
    InWorkersHead(us, p);
    InWorkersHead(ws, p);
    if w == 0 {
      assert us[1..] == ws[1..];
    } else {
      assert us[1..] == ws[1..][w - 1 := x];
      InWorkersUpdate(ws[1..], w - 1, x, p);
    }
  }

  lemma InWorkersHead(ws: seq<Worker>, p: Packet)
    requires ws != []
    ensures InWorkers(ws, p) == Share(ws[0], p) + InWorkers(ws[1..], p)
  {
  }

  lemma {:induction false} InSessionsUpdate(ss: seq<Session>, i: nat, x: Session, p: Packet)
    requires i < |ss|
    ensures InSessions(ss[i := x], p) == InSessions(ss, p) - SessionShare(ss[i], p) + SessionShare(x, p)
  {
    var ts := ss[i := x];
    if i == 0 {
      assert ts[0] == x && ts[1..] == ss[1..];
    } else {
      assert ts[0] == ss[0] && ts[1..] == ss[1..][i - 1 := x];
      InSessionsUpdate(ss[1..], i - 1, x, p);
    }
  }

  lemma {:induction false} InSessionsAppend(ss: seq<Session>, x: Session, p: Packet)
    ensures InSessions(ss + [x], p) == InSessions(ss, p) + SessionShare(x, p)
  {
    if ss == [] {
      assert ss + [x] == [x];
    } else {
      assert (ss + [x])[1..] == ss[1..] + [x];
      InSessionsAppend(ss[1..], x, p);
    }
  }

  /** A worker step exchanges its pipeline; what it drops goes to the end of the drops. */
  lemma ConserveWorker(s: State, t: State, w: nat, lost: seq<Packet>, p: Packet)
    requires w < |s.workers| == |t.workers| && t.workers == s.workers[w := t.workers[w]]
    requires Pipeline(s.workers[w]) == lost + Pipeline(t.workers[w])
    requires t.sessions == s.sessions && t.dropped == s.dropped + lost
    ensures Places(t, p) == Places(s, p)
  {
    InWorkersUpdate(s.workers, w, t.workers[w], p);
  }

  /** A session step exchanges what the session holds. */
  lemma ConserveSession(s: State, t: State, i: nat, lost: seq<Packet>, p: Packet)
    requires i < |s.sessions| == |t.sessions| && t.sessions == s.sessions[i := t.sessions[i]]
    requires multiset(Held(s.sessions[i])) == multiset(lost) + multiset(Held(t.sessions[i]))
    requires t.workers == s.workers && t.dropped == s.dropped + lost
    ensures Places(t, p) == Places(s, p)
  {
    InSessionsUpdate(s.sessions, i, t.sessions[i], p);
  }

  lemma PipelineGrows(x: Worker, p: Packet)
    ensures Pipeline(x.(queue := x.queue + [p])) == Pipeline(x) + [p]
  {
  }

  lemma HeldGrows(x: Session, p: Packet)
    ensures Held(x.(queue := x.queue + [p])) == Held(x) + [p]
  {
  }

  lemma HeldShrinks(x: Session)
    requires x.queue != []
    ensures multiset(Held(x)) == multiset([x.queue[0]]) + multiset(Held(x.(queue := x.queue[1..])))
  {
    HeadAndTail(x.queue);
  }

  lemma ConserveLookup(hash: string -> nat, s: State, w: nat, p: Packet)
    requires Enabled(hash, s, Lookup(w))
    ensures Places(Apply(hash, s, Lookup(w)), p) == Places(s, p)
  {
    var x, q := s.workers[w], s.workers[w].hand.packet;
    var i := if q.key in s.table then s.table[q.key] else |s.sessions|;
    assert Share(x.(hand := Sending(q, i)), p) == Share(x, p);
    InWorkersUpdate(s.workers, w, x.(hand := Sending(q, i)), p);
    if q.key !in s.table {
      InSessionsAppend(s.sessions, Session(q.key, false, [], Dialing, NoReader, []), p);
    }
  }

  lemma ConserveReceive(hash: string -> nat, s: State, key: string, p: Packet)
    requires Enabled(hash, s, Receive(key))
    ensures Places(Apply(hash, s, Receive(key)), p) == Places(s, p) + (if p == Packet(|s.received|, key) then 1 else 0)
  {
    var t := Apply(hash, s, Receive(key));
    var w := Route(hash, key, |s.workers|);
    if |s.workers[w].queue| < QUEUE_CAPACITY {
      InWorkersUpdate(s.workers, w, t.workers[w], p);
      PipelineGrows(s.workers[w], Packet(|s.received|, key));
    }
  }

  lemma ConservePut(hash: string -> nat, s: State, w: nat, p: Packet)
    requires Enabled(hash, s, Put(w))
    ensures Places(Apply(hash, s, Put(w)), p) == Places(s, p)
  {
    var x, i := s.workers[w], s.workers[w].hand.sid;
    var y := s.sessions[i];
    InWorkersUpdate(s.workers, w, x.(hand := Idle), p);
    InSessionsUpdate(s.sessions, i, y.(queue := y.queue + [x.hand.packet]), p);
    PutMovesShare(x, y, p);
  }

  lemma PutMovesShare(x: Worker, y: Session, p: Packet)
    requires x.hand.Putting?
    ensures Share(x, p) + SessionShare(y, p)
      == Share(x.(hand := Idle), p) + SessionShare(y.(queue := y.queue + [x.hand.packet]), p)
  {
    HeldGrows(y, x.hand.packet);
    assert Pipeline(x) == [x.hand.packet] + Pipeline(x.(hand := Idle));
  }

  lemma ConserveWorkerStep(hash: string -> nat, s: State, a: Action, p: Packet)
    requires Enabled(hash, s, a) && OfWorker(a)
    ensures Places(Apply(hash, s, a), p) == Places(s, p)
  {
    var t := Apply(hash, s, a);
    var lost := if a.Pick? || a.SendSeesOpen? then [] else [s.workers[a.w].hand.packet];
    if a.Pick? {
      HeadAndTail(s.workers[a.w].queue);
    }
    ConserveWorker(s, t, a.w, lost, p);
  }

  predicate MovesPackets(a: Action) {
    a.FailDrains? || a.ReaderDrains? || a.Take? || a.Finish?
  }

  lemma ConserveDrain(hash: string -> nat, s: State, a: Action, p: Packet)
    requires Enabled(hash, s, a) && (a.FailDrains? || a.ReaderDrains?)
    ensures Places(Apply(hash, s, a), p) == Places(s, p)
  {
    HeldShrinks(s.sessions[a.i]);
    ConserveSession(s, Apply(hash, s, a), a.i, [s.sessions[a.i].queue[0]], p);
  }

  lemma ConserveProcess(hash: string -> nat, s: State, a: Action, p: Packet)
    requires Enabled(hash, s, a) && (a.Take? || a.Finish?)
    ensures Places(Apply(hash, s, a), p) == Places(s, p)
  {
    var x := s.sessions[a.i];
    if a.Take? {
      HeadAndTail(x.queue);
      ConserveSession(s, Apply(hash, s, a), a.i, [], p);
    } else {
      ConserveSession(s, Apply(hash, s, a), a.i, [x.dialer.packet], p);
    }
  }

  lemma ConserveQuiet(hash: string -> nat, s: State, a: Action, p: Packet)
    requires Enabled(hash, s, a) && OfSession(a) && !MovesPackets(a)
    ensures Places(Apply(hash, s, a), p) == Places(s, p)
  {
    ConserveSession(s, Apply(hash, s, a), a.i, [], p);
  }

  lemma ConserveStep(hash: string -> nat, s: State, a: Action, p: Packet)
    requires Enabled(hash, s, a) && !a.Receive?
    ensures Places(Apply(hash, s, a), p) == Places(s, p)
  {
    if a.Lookup? {
      ConserveLookup(hash, s, a.w, p);
    } else if a.Put? {
      ConservePut(hash, s, a.w, p);
    } else if OfWorker(a) {
      ConserveWorkerStep(hash, s, a, p);
    } else if a.Take? || a.Finish? {
      ConserveProcess(hash, s, a, p);
    } else if MovesPackets(a) {
      ConserveDrain(hash, s, a, p);
    } else {
      ConserveQuiet(hash, s, a, p);
    }
  }

  lemma ReceivedGrows(hash: string -> nat, s: State, a: Action)
    requires Enabled(hash, s, a)
    ensures Apply(hash, s, a).received ==
      if a.Receive? then s.received + [Packet(|s.received|, a.key)] else s.received
  {
  }

  lemma PlacesFollow(hash: string -> nat, s: State, a: Action, p: Packet)
    requires Enabled(hash, s, a) && Places(s, p) == multiset(s.received)[p]
    ensures Places(Apply(hash, s, a), p) == multiset(Apply(hash, s, a).received)[p]
  {
    ReceivedGrows(hash, s, a);
    if a.Receive? {
      ConserveReceive(hash, s, a.key, p);
    } else {
      ConserveStep(hash, s, a, p);
    }
  }

  lemma ConservedKept(hash: string -> nat, s: State, a: Action)
    requires Enabled(hash, s, a) && Conserved(s)
    ensures Conserved(Apply(hash, s, a))
  {
    var t := Apply(hash, s, a);
    ReceivedGrows(hash, s, a);
    forall p ensures Places(t, p) == multiset(t.received)[p] {
      assert Places(s, p) == multiset(s.received)[p];
      PlacesFollow(hash, s, a, p);
    }
  }

  // ----- what a step does to pipelines and trails -----

  /** The packets a session has accepted into its channel and not dropped in a teardown, oldest first. */
  function Trail(x: Session): seq<Packet> {
    x.taken + x.queue
  }

  datatype Effect = Still | Enqueued(w: nat, p: Packet) | HeadGone(w: nat) | Moved(w: nat, i: nat) | Shrunk(i: nat)

  function EffectOf(hash: string -> nat, s: State, a: Action): Effect
    requires |s.workers| > 0
    requires a.Put? ==> a.w < |s.workers| && s.workers[a.w].hand.Putting?
  {
    match a
    case Receive(key) =>
      var w := Route(hash, key, |s.workers|);
      if |s.workers[w].queue| < QUEUE_CAPACITY then Enqueued(w, Packet(|s.received|, key)) else Still
    case Reject(w) => HeadGone(w)
    case SendSeesClosed(w) => HeadGone(w)
    case PutSeesClosed(w) => HeadGone(w)
    case PutSeesFull(w) => HeadGone(w)
    case Put(w) => Moved(w, s.workers[w].hand.sid)
    case FailDrains(i) => Shrunk(i)
    case ReaderDrains(i) => Shrunk(i)
    case _ => Still
  }

  function Without<T>(q: seq<T>, k: nat): seq<T>
    requires k < |q|
  {
    q[..k] + q[k + 1..]
  }

  ghost predicate PipeEffect(s: State, t: State, e: Effect, w: nat)
    requires w < |s.workers| == |t.workers|
  {
    var was, now := Pipeline(s.workers[w]), Pipeline(t.workers[w]);
    if e.Enqueued? && e.w == w then now == was + [e.p]
    else if (e.HeadGone? || e.Moved?) && e.w == w then was != [] && now == was[1..]
    else now == was
  }

  ghost predicate TrailEffect(s: State, t: State, e: Effect, i: nat)
    requires i < |s.sessions| <= |t.sessions|
    requires e.Moved? ==> e.w < |s.workers| && Pipeline(s.workers[e.w]) != []
  {
    var was, now := Trail(s.sessions[i]), Trail(t.sessions[i]);
    && t.sessions[i].key == s.sessions[i].key
    && if e.Moved? && e.i == i then now == was + [Pipeline(s.workers[e.w])[0]]
       else if e.Shrunk? && e.i == i then exists k :: 0 <= k < |was| && now == Without(was, k)
       else now == was
  }

  ghost predicate HasEffect(s: State, t: State, e: Effect) {
    && |s.workers| == |t.workers| && |s.sessions| <= |t.sessions| && |s.received| <= |t.received|
    && (forall w :: 0 <= w < |s.workers| ==> PipeEffect(s, t, e, w))
    && (e.Moved? ==> e.w < |s.workers| && e.i < |s.sessions| && Pipeline(s.workers[e.w]) != [])
    && (forall i :: 0 <= i < |s.sessions| ==> TrailEffect(s, t, e, i))
    && (forall i :: |s.sessions| <= i < |t.sessions| ==> Trail(t.sessions[i]) == [])
    && (if e.Enqueued? then e.p.id == |s.received| < |t.received| && t.accepted == s.accepted + [e.p]
        else t.accepted == s.accepted)
  }

  lemma TakeKeepsTrail(x: Session)
    requires x.queue != []
    ensures (x.taken + [x.queue[0]]) + x.queue[1..] == Trail(x)
  {
  }

  lemma DrainShortensTrail(x: Session)
    requires x.queue != []
    ensures x.taken + x.queue[1..] == Without(Trail(x), |x.taken|)
  {
  }

  lemma PutLengthensTrail(x: Session, p: Packet)
    ensures x.taken + (x.queue + [p]) == Trail(x) + [p]
  {
  }

  lemma ReceiveEffect(hash: string -> nat, s: State, a: Action)
    requires Enabled(hash, s, a) && a.Receive?
    ensures HasEffect(s, Apply(hash, s, a), EffectOf(hash, s, a))
  {
    PipelineGrows(s.workers[Route(hash, a.key, |s.workers|)], Packet(|s.received|, a.key));
  }

  lemma LookupEffect(hash: string -> nat, s: State, a: Action)
    requires Enabled(hash, s, a) && a.Lookup?
    ensures HasEffect(s, Apply(hash, s, a), EffectOf(hash, s, a))
  {
  }

  lemma WorkerEffect(hash: string -> nat, s: State, a: Action)
    requires Enabled(hash, s, a) && OfWorker(a)
    ensures HasEffect(s, Apply(hash, s, a), EffectOf(hash, s, a))
  {
    WorkerStepFrame(hash, s, a);
    if a.Pick? {
      HeadAndTail(s.workers[a.w].queue);
    }
    assert PipeEffect(s, Apply(hash, s, a), EffectOf(hash, s, a), a.w);
  }

  lemma PutEffect(hash: string -> nat, s: State, a: Action)
    requires Enabled(hash, s, a) && a.Put?
    ensures HasEffect(s, Apply(hash, s, a), EffectOf(hash, s, a))
  {
    PutLengthensTrail(s.sessions[s.workers[a.w].hand.sid], s.workers[a.w].hand.packet);
  }

  /** What a step of a session does to its trail. */
  lemma TrailOfStep(hash: string -> nat, s: State, a: Action)
    requires Enabled(hash, s, a) && OfSession(a)
    ensures a.i < |Apply(hash, s, a).sessions|
    ensures var before, after := Trail(s.sessions[a.i]), Trail(Apply(hash, s, a).sessions[a.i]);
      if a.FailDrains? || a.ReaderDrains?
      then |s.sessions[a.i].taken| < |before| && after == Without(before, |s.sessions[a.i].taken|)
      else after == before
  {
    if a.Take? {
      TakeKeepsTrail(s.sessions[a.i]);
    } else if a.FailDrains? || a.ReaderDrains? {
      DrainShortensTrail(s.sessions[a.i]);
    }
  }

  lemma SessionEffect(hash: string -> nat, s: State, a: Action)
    requires Enabled(hash, s, a) && OfSession(a)
    ensures HasEffect(s, Apply(hash, s, a), EffectOf(hash, s, a))
  {
    SessionStepFrame(hash, s, a);
    TrailOfStep(hash, s, a);
    assert TrailEffect(s, Apply(hash, s, a), EffectOf(hash, s, a), a.i);
  }

  // ----- placement: queues within capacity, packets where their key sends them -----

  ghost predicate WorkerPlaced(hash: string -> nat, s: State, w: nat)
    requires w < |s.workers|
  {
    var x := s.workers[w];
    && |x.queue| <= QUEUE_CAPACITY
    && (forall p :: p in Pipeline(x) ==> Route(hash, p.key, |s.workers|) == w)
    && (x.hand.Sending? || x.hand.Putting? ==>
      && x.hand.sid < |s.sessions| && s.sessions[x.hand.sid].key == x.hand.packet.key
      && forall j :: x.hand.sid < j < |s.sessions| ==> s.sessions[j].key != x.hand.packet.key)
  }

  ghost predicate Placement(hash: string -> nat, s: State) {
    && |s.workers| > 0
    && (forall w :: 0 <= w < |s.workers| ==> WorkerPlaced(hash, s, w))
    && (forall i :: 0 <= i < |s.sessions| ==> |s.sessions[i].queue| <= SENDER_CAPACITY)
    && (forall i, p :: 0 <= i < |s.sessions| && p in Trail(s.sessions[i]) ==> p.key == s.sessions[i].key)
  }

  /** While nothing moves, a worker stays placed, unless a session of its packet's key is born. */
  lemma PlacedFrame(hash: string -> nat, s: State, t: State, w: nat)
    requires w < |s.workers| == |t.workers| && WorkerPlaced(hash, s, w) && t.workers[w] == s.workers[w]
    requires |s.sessions| <= |t.sessions| && forall i :: 0 <= i < |s.sessions| ==>
      t.sessions[i].key == s.sessions[i].key
    requires forall j :: |s.sessions| <= j < |t.sessions| ==> Route(hash, t.sessions[j].key, |s.workers|) != w
    ensures WorkerPlaced(hash, t, w)
  {
    var h := s.workers[w].hand;
    if h.Sending? || h.Putting? {
      assert h.packet in Pipeline(s.workers[w]);
      assert Route(hash, h.packet.key, |s.workers|) == w;
    }
  }

  lemma WorkersPlacedKept(hash: string -> nat, s: State, a: Action)
    requires Enabled(hash, s, a) && Placement(hash, s) && TableIsLive(s) && OldSessionsDeleted(s)
    ensures var t := Apply(hash, s, a); forall w :: 0 <= w < |t.workers| ==> WorkerPlaced(hash, t, w)
  {
    var t := Apply(hash, s, a);
    forall w | 0 <= w < |t.workers| ensures WorkerPlaced(hash, t, w) {
      if t.workers[w] == s.workers[w] {
        WorkerPlacedStill(hash, s, a, w);
      } else {
        WorkerPlacedStep(hash, s, a, w);
      }
    }
  }

  lemma WorkerPlacedStill(hash: string -> nat, s: State, a: Action, w: nat)
    requires Enabled(hash, s, a) && Placement(hash, s) && w < |s.workers|
      && Apply(hash, s, a).workers[w] == s.workers[w]
    ensures WorkerPlaced(hash, Apply(hash, s, a), w)
  {
    assert WorkerPlaced(hash, s, w);
    if OfSession(a) {
      SessionStepFrame(hash, s, a);
    } else if OfWorker(a) {
      WorkerStepFrame(hash, s, a);
    } else if a.Lookup? {
      assert WorkerPlaced(hash, s, a.w) && s.workers[a.w].hand.packet in Pipeline(s.workers[a.w]);
    }
    PlacedFrame(hash, s, Apply(hash, s, a), w);
  }

  lemma WorkerPlacedStep(hash: string -> nat, s: State, a: Action, w: nat)
    requires Enabled(hash, s, a) && Placement(hash, s) && TableIsLive(s) && OldSessionsDeleted(s)
    requires w < |s.workers| && Apply(hash, s, a).workers[w] != s.workers[w]
    ensures WorkerPlaced(hash, Apply(hash, s, a), w)
  {
    assert WorkerPlaced(hash, s, w);
    if a.Receive? {
      PipelineGrows(s.workers[w], Packet(|s.received|, a.key));
    } else if a.Pick? {
      HeadAndTail(s.workers[w].queue);
    } else if a.Lookup? {
      LookupFindsLast(hash, s, w);
    }
  }

  /** GetOrCreate gives the last session of the key, old or new. */
  lemma LookupFindsLast(hash: string -> nat, s: State, w: nat)
    requires Enabled(hash, s, Lookup(w)) && Placement(hash, s) && TableIsLive(s) && OldSessionsDeleted(s)
    ensures WorkerPlaced(hash, Apply(hash, s, Lookup(w)), w)
  {
    var p := s.workers[w].hand.packet;
    assert WorkerPlaced(hash, s, w);
    if p.key in s.table {
      var i := s.table[p.key];
      forall j | i < j < |s.sessions| ensures s.sessions[j].key != p.key {
        assert s.sessions[i].key == p.key;
      }
    }
  }

  lemma SessionsPlacedKept(hash: string -> nat, s: State, a: Action)
    requires Enabled(hash, s, a) && Placement(hash, s)
    requires HasEffect(s, Apply(hash, s, a), EffectOf(hash, s, a))
    ensures var t := Apply(hash, s, a);
      && (forall i :: 0 <= i < |t.sessions| ==> |t.sessions[i].queue| <= SENDER_CAPACITY)
      && (forall i, p :: 0 <= i < |t.sessions| && p in Trail(t.sessions[i]) ==> p.key == t.sessions[i].key)
  {
    var t, e := Apply(hash, s, a), EffectOf(hash, s, a);
    forall i, p | 0 <= i < |t.sessions| && p in Trail(t.sessions[i]) ensures p.key == t.sessions[i].key {
      if i < |s.sessions| {
        assert TrailEffect(s, t, e, i);
        if p !in Trail(s.sessions[i]) {
          assert e.Moved? && e.i == i && WorkerPlaced(hash, s, e.w);
        }
      }
    }
  }

  // ----- order -----

  ghost predicate Increasing(ps: seq<Packet>) {
    forall i, j :: 0 <= i < j < |ps| ==> ps[i].id < ps[j].id
  }

  ghost predicate AllBelow(ps: seq<Packet>, qs: seq<Packet>) {
    forall p, q :: p in ps && q in qs ==> p.id < q.id
  }

  ghost predicate Within(ps: seq<Packet>, qs: seq<Packet>) {
    forall p :: p in ps ==> p in qs
  }

  ghost predicate PipeOrdered(s: State, w: nat)
    requires w < |s.workers|
  {
    Increasing(Pipeline(s.workers[w])) && Within(Pipeline(s.workers[w]), s.accepted)
  }

  ghost predicate TrailOrdered(hash: string -> nat, s: State, i: nat)
    requires |s.workers| > 0 && i < |s.sessions|
  {
    var trail := Trail(s.sessions[i]);
    && Increasing(trail) && Within(trail, s.accepted)
    && AllBelow(trail, Pipeline(s.workers[Route(hash, s.sessions[i].key, |s.workers|)]))
  }

  ghost predicate InOrder(hash: string -> nat, s: State) {
    && |s.workers| > 0
    && Increasing(s.accepted) && (forall p :: p in s.accepted ==> p.id < |s.received|)
    && (forall w :: 0 <= w < |s.workers| ==> PipeOrdered(s, w))
    && (forall i :: 0 <= i < |s.sessions| ==> TrailOrdered(hash, s, i))
    && (forall i, j :: 0 <= i < j < |s.sessions| && s.sessions[i].key == s.sessions[j].key ==>
      AllBelow(Trail(s.sessions[i]), Trail(s.sessions[j])))
  }

  lemma PipesStayOrdered(hash: string -> nat, s: State, t: State, e: Effect, w: nat)
    requires InOrder(hash, s) && HasEffect(s, t, e) && w < |s.workers|
    ensures PipeOrdered(t, w)
  {
    assert PipeOrdered(s, w) && PipeEffect(s, t, e, w);
    assert Within(s.accepted, t.accepted);
  }

  lemma PipeMembersOnlyLeave(hash: string -> nat, s: State, t: State, e: Effect, w: nat, q: Packet)
    requires HasEffect(s, t, e) && w < |s.workers| && q in Pipeline(t.workers[w])
    ensures q in Pipeline(s.workers[w]) || (e.Enqueued? && e.p == q)
  {
    assert PipeEffect(s, t, e, w);
  }

  lemma IncreasingHead(ps: seq<Packet>, q: Packet)
    requires ps != [] && Increasing(ps) && q in ps[1..]
    ensures ps[0].id < q.id
  {
  }

  lemma WithoutKeepsOrder(ps: seq<Packet>, k: nat)
    requires k < |ps| && Increasing(ps)
    ensures Increasing(Without(ps, k)) && Within(Without(ps, k), ps)
  {
  }

  /** The packet that moves is newer than everything already in the trail. */
  lemma TrailsStayOrdered(hash: string -> nat, s: State, t: State, e: Effect, i: nat)
    requires Placement(hash, s) && InOrder(hash, s) && HasEffect(s, t, e) && i < |s.sessions|
    requires e.Moved? ==> Pipeline(s.workers[e.w])[0].key == s.sessions[e.i].key
    ensures TrailOrdered(hash, t, i)
  {
    var w := Route(hash, s.sessions[i].key, |s.workers|);
    assert TrailOrdered(hash, s, i) && TrailEffect(s, t, e, i) && PipeOrdered(s, w) && PipeEffect(s, t, e, w);
    var trail, trail' := Trail(s.sessions[i]), Trail(t.sessions[i]);
    assert Within(s.accepted, t.accepted);
    if e.Moved? && e.i == i {
      assert WorkerPlaced(hash, s, e.w);
      assert e.w == w;
      MovedTrailOrdered(trail, Pipeline(s.workers[w]));
      assert Pipeline(s.workers[w])[0] in s.accepted;
    } else {
      if e.Shrunk? && e.i == i {
        var k :| 0 <= k < |trail| && trail' == Without(trail, k);
        WithoutKeepsOrder(trail, k);
      }
      forall p, q | p in trail' && q in Pipeline(t.workers[w]) ensures p.id < q.id {
        assert p in trail;
        PipeMembersOnlyLeave(hash, s, t, e, w, q);
      }
    }
  }

  lemma MovedTrailOrdered(trail: seq<Packet>, pipe: seq<Packet>)
    requires Increasing(trail) && Increasing(pipe) && pipe != [] && AllBelow(trail, pipe)
    ensures Increasing(trail + [pipe[0]]) && AllBelow(trail + [pipe[0]], pipe[1..])
  {
    forall p, q | p in trail + [pipe[0]] && q in pipe[1..] ensures p.id < q.id {
      IncreasingHead(pipe, q);
    }
  }

  lemma GenerationsStayOrdered(hash: string -> nat, s: State, t: State, e: Effect, i: nat, j: nat)
    requires Placement(hash, s) && InOrder(hash, s) && HasEffect(s, t, e) && i < j < |s.sessions|
    requires s.sessions[i].key == s.sessions[j].key
    requires e.Moved? ==> Pipeline(s.workers[e.w])[0].key == s.sessions[e.i].key
    requires e.Moved? ==> forall k :: e.i < k < |s.sessions| ==> s.sessions[k].key != s.sessions[e.i].key
    ensures AllBelow(Trail(t.sessions[i]), Trail(t.sessions[j]))
  {
    assert TrailEffect(s, t, e, i) && TrailEffect(s, t, e, j) && TrailOrdered(hash, s, i);
    forall p, q | p in Trail(t.sessions[i]) && q in Trail(t.sessions[j]) ensures p.id < q.id {
      assert p in Trail(s.sessions[i]);
      if q !in Trail(s.sessions[j]) {
        assert e.Moved? && e.i == j && WorkerPlaced(hash, s, e.w);
        assert q in Pipeline(s.workers[e.w]);
      }
    }
  }

  lemma InOrderKept(hash: string -> nat, s: State, t: State, e: Effect)
    requires Placement(hash, s) && InOrder(hash, s) && HasEffect(s, t, e)
    requires e.Moved? ==> Pipeline(s.workers[e.w])[0].key == s.sessions[e.i].key
    requires e.Moved? ==> forall k :: e.i < k < |s.sessions| ==> s.sessions[k].key != s.sessions[e.i].key
    ensures InOrder(hash, t)
  {
    forall w | 0 <= w < |t.workers| ensures PipeOrdered(t, w) {
      PipesStayOrdered(hash, s, t, e, w);
    }
    forall i | 0 <= i < |t.sessions| ensures TrailOrdered(hash, t, i) {
      if i < |s.sessions| {
        TrailsStayOrdered(hash, s, t, e, i);
      }
    }
    forall i, j | 0 <= i < j < |t.sessions| && t.sessions[i].key == t.sessions[j].key
      ensures AllBelow(Trail(t.sessions[i]), Trail(t.sessions[j]))
    {
      if j < |s.sessions| {
        assert TrailEffect(s, t, e, i) && TrailEffect(s, t, e, j);
        GenerationsStayOrdered(hash, s, t, e, i, j);
      }
    }
  }

  // ----- what a torn-down session can strand -----

  /** The worker of the session's key is about to put a packet into its channel. */
  ghost predicate PutPending(hash: string -> nat, s: State, i: nat)
    requires |s.workers| > 0 && i < |s.sessions|
  {
    var h := s.workers[Route(hash, s.sessions[i].key, |s.workers|)].hand;
    h.Putting? && h.sid == i
  }

  /** Once dropAll has seen the channel empty, at most one packet can still get into it. */
  ghost predicate StrandsAtMostOne(hash: string -> nat, s: State) {
    && |s.workers| > 0
    && forall i :: 0 <= i < |s.sessions| && Drained(s.sessions[i]) ==>
      |s.sessions[i].queue| + (if PutPending(hash, s, i) then 1 else 0) <= 1
  }

  ghost predicate PutsInto(s: State, a: Action, i: nat) {
    a.Put? && a.w < |s.workers| && s.workers[a.w].hand.Putting? && s.workers[a.w].hand.sid == i
  }

  /** Once drained, a session stays drained, and only a put and a take still touch its channel. */
  lemma DrainedStep(hash: string -> nat, s: State, a: Action, i: nat)
    requires Enabled(hash, s, a) && Lives(s) && i < |s.sessions| && Drained(s.sessions[i])
    ensures var t := Apply(hash, s, a);
      && i < |t.sessions| && Drained(t.sessions[i])
      && t.sessions[i].queue ==
        if PutsInto(s, a, i) then s.sessions[i].queue + [s.workers[a.w].hand.packet]
        else if a == Take(i) then s.sessions[i].queue[1..]
        else s.sessions[i].queue
  {
    assert SessionLife(s.sessions[i]);
    if OfSession(a) {
      SessionStepFrame(hash, s, a);
      if a.i == i {
        DrainedOwnStep(hash, s, a);
      }
    } else if OfWorker(a) {
      WorkerStepFrame(hash, s, a);
    }
  }

  lemma DrainedOwnStep(hash: string -> nat, s: State, a: Action)
    requires Enabled(hash, s, a) && OfSession(a) && SessionLife(s.sessions[a.i]) && Drained(s.sessions[a.i])
    ensures var t := Apply(hash, s, a);
      && a.i < |t.sessions| && Drained(t.sessions[a.i])
      && t.sessions[a.i].queue == if a.Take? then s.sessions[a.i].queue[1..] else s.sessions[a.i].queue
  {
  }

  lemma DrainedWhenEmpty(hash: string -> nat, s: State, a: Action, i: nat)
    requires Enabled(hash, s, a) && i < |Apply(hash, s, a).sessions| && Drained(Apply(hash, s, a).sessions[i])
    requires !(i < |s.sessions| && Drained(s.sessions[i]))
    ensures Apply(hash, s, a).sessions[i].queue == []
  {
  }

  /** Into a closed session no put comes to be pending, and a put that happens was pending. */
  lemma PendingStep(hash: string -> nat, s: State, a: Action, i: nat)
    requires Enabled(hash, s, a) && Placement(hash, s) && i < |s.sessions| && s.sessions[i].closed
    requires |Apply(hash, s, a).workers| > 0 && i < |Apply(hash, s, a).sessions|
    ensures PutPending(hash, Apply(hash, s, a), i) ==> PutPending(hash, s, i) && !PutsInto(s, a, i)
    ensures PutsInto(s, a, i) ==> PutPending(hash, s, i)
  {
    if OfSession(a) {
      SessionStepFrame(hash, s, a);
    } else if OfWorker(a) {
      WorkerStepFrame(hash, s, a);
      WorkerPendingStep(hash, s, a, i);
    } else if a.Put? {
      PutWasPending(hash, s, a.w);
    }
  }

  lemma WorkerPendingStep(hash: string -> nat, s: State, a: Action, i: nat)
    requires Enabled(hash, s, a) && OfWorker(a) && i < |s.sessions| && s.sessions[i].closed
    ensures a.w < |Apply(hash, s, a).workers|
    ensures Apply(hash, s, a).workers[a.w].hand.Putting? ==> Apply(hash, s, a).workers[a.w].hand.sid != i
  {
  }

  lemma PutWasPending(hash: string -> nat, s: State, w: nat)
    requires Placement(hash, s) && w < |s.workers| && s.workers[w].hand.Putting?
    ensures s.workers[w].hand.sid < |s.sessions| && PutPending(hash, s, s.workers[w].hand.sid)
    ensures w == Route(hash, s.sessions[s.workers[w].hand.sid].key, |s.workers|)
  {
    assert WorkerPlaced(hash, s, w) && s.workers[w].hand.packet in Pipeline(s.workers[w]);
  }

  lemma StrandsKept(hash: string -> nat, s: State, a: Action)
    requires Enabled(hash, s, a) && Lives(s) && Placement(hash, s) && StrandsAtMostOne(hash, s)
    ensures StrandsAtMostOne(hash, Apply(hash, s, a))
  {
    var t := Apply(hash, s, a);
    forall i | 0 <= i < |t.sessions| && Drained(t.sessions[i])
      ensures |t.sessions[i].queue| + (if PutPending(hash, t, i) then 1 else 0) <= 1
    {
      if i < |s.sessions| && Drained(s.sessions[i]) {
        assert SessionLife(s.sessions[i]);
        DrainedStep(hash, s, a, i);
        PendingStep(hash, s, a, i);
      } else {
        DrainedWhenEmpty(hash, s, a, i);
      }
    }
  }

  // ----- every reachable state -----

  ghost predicate Inv(hash: string -> nat, s: State) {
    && Lives(s) && Population(s) && Conserved(s) && Placement(hash, s) && InOrder(hash, s) && StrandsAtMostOne(hash, s)
  }

  lemma {:induction false} NothingAnywhere(s: State, ws: seq<Worker>, p: Packet)
    requires forall w :: 0 <= w < |ws| ==> ws[w] == Worker([], Idle)
    ensures InWorkers(ws, p) == 0
  {
    if ws == [] {
    } else {
      NothingAnywhere(s, ws[1..], p);
    }
  }

  lemma ConservedInitially(s: State)
    requires IsInitial(s)
    ensures Conserved(s)
  {
    forall p ensures Places(s, p) == multiset(s.received)[p] {
      NothingAnywhere(s, s.workers, p);
    }
  }

  lemma OrderedInitially(hash: string -> nat, s: State)
    requires IsInitial(s)
    ensures Placement(hash, s) && InOrder(hash, s)
  {
  }

  lemma InvInitially(hash: string -> nat, s: State)
    requires IsInitial(s)
    ensures Inv(hash, s)
  {
    ConservedInitially(s);
    OrderedInitially(hash, s);
  }

  lemma EffectHolds(hash: string -> nat, s: State, a: Action)
    requires Enabled(hash, s, a)
    ensures HasEffect(s, Apply(hash, s, a), EffectOf(hash, s, a))
  {
    if a.Put? {
      PutEffect(hash, s, a);
    } else if OfSession(a) {
      SessionEffect(hash, s, a);
    } else if a.Receive? {
      ReceiveEffect(hash, s, a);
    } else if a.Lookup? {
      LookupEffect(hash, s, a);
    } else {
      WorkerEffect(hash, s, a);
    }
  }

  lemma InvKept(hash: string -> nat, s: State, a: Action)
    requires Enabled(hash, s, a) && Inv(hash, s)
    ensures Inv(hash, Apply(hash, s, a))
  {
    var t, e := Apply(hash, s, a), EffectOf(hash, s, a);
    EffectHolds(hash, s, a);
    LivesKept(hash, s, a);
    PopulationKept(hash, s, a);
    ConservedKept(hash, s, a);
    WorkersPlacedKept(hash, s, a);
    SessionsPlacedKept(hash, s, a);
    StrandsKept(hash, s, a);
    if a.Put? {
      assert WorkerPlaced(hash, s, a.w);
    }
    InOrderKept(hash, s, t, e);
  }

  lemma {:induction false} InvAlongRun(hash: string -> nat, states: seq<State>, actions: seq<Action>, n: nat)
    requires IsRun(hash, states, actions) && n < |states|
    ensures Inv(hash, states[n])
  {
    if n == 0 {
      InvInitially(hash, states[0]);
    } else {
      InvAlongRun(hash, states, actions, n - 1);
      InvKept(hash, states[n - 1], actions[n - 1]);
    }
  }

  // ----- the promises -----

  lemma IncreasingWithinIsSubsequence(xs: seq<Packet>, ys: seq<Packet>)
    requires Increasing(xs) && Increasing(ys) && Within(xs, ys)
    ensures IsSubsequence(xs, ys)
  {
    var f: seq<nat> := seq(|xs|, i requires 0 <= i < |xs| => Position(xs[i], ys));
    forall i, j | 0 <= i < j < |f| ensures f[i] < f[j] {
      assert xs[i].id < xs[j].id;
    }
  }

  ghost function Position(p: Packet, ys: seq<Packet>): (k: nat)
    requires p in ys
    ensures k < |ys| && ys[k] == p
  {
    var k :| 0 <= k < |ys| && ys[k] == p;
    k
  }

  ghost function OfKey(ps: seq<Packet>, key: string): seq<Packet> {
    if ps == [] then []
    else if ps[|ps| - 1].key == key then OfKey(ps[..|ps| - 1], key) + [ps[|ps| - 1]]
    else OfKey(ps[..|ps| - 1], key)
  }

  lemma {:induction false} OfKeyKeepsOrder(ps: seq<Packet>, key: string)
    requires Increasing(ps)
    ensures Increasing(OfKey(ps, key)) && Within(OfKey(ps, key), ps)
    ensures forall p :: p in ps && p.key == key ==> p in OfKey(ps, key)
  {
    if ps == [] {
    } else {
      OfKeyKeepsOrder(ps[..|ps| - 1], key);
      assert ps == ps[..|ps| - 1] + [ps[|ps| - 1]];
    }
  }

  /**
   * At every moment of every run: each received packet is in exactly one place, the queues
   * are within their capacities, and nothing has been dropped twice.
   */
  lemma EveryPacketInOnePlace(hash: string -> nat, states: seq<State>, actions: seq<Action>, n: nat, m: nat)
    requires IsRun(hash, states, actions) && n < |states| && m < |states[n].received|
    ensures Places(states[n], states[n].received[m]) == 1
    ensures multiset(states[n].dropped)[states[n].received[m]] <= 1
    ensures forall w :: 0 <= w < |states[n].workers| ==> |states[n].workers[w].queue| <= 64
    ensures forall i :: 0 <= i < |states[n].sessions| ==> |states[n].sessions[i].queue| <= 128
  {
    InvAlongRun(hash, states, actions, n);
    var s := states[n];
    forall w | 0 <= w < |s.workers| ensures |s.workers[w].queue| <= QUEUE_CAPACITY {
      assert WorkerPlaced(hash, s, w);
    }
    OnceReceived(s.received, m);
  }

  lemma {:induction false} OnceReceived(ps: seq<Packet>, m: nat)
    requires forall n :: 0 <= n < |ps| ==> ps[n].id == n
    requires m < |ps|
    ensures multiset(ps)[ps[m]] == 1
  {
    var front, last := ps[..|ps| - 1], ps[|ps| - 1];
    assert ps == front + [last];
    if m < |front| {
      OnceReceived(front, m);
    } else {
      assert last !in front;
    }
  }

  /** Nothing is dropped that was not received. */
  lemma DropsOnlyReceived(hash: string -> nat, states: seq<State>, actions: seq<Action>, n: nat, p: Packet)
    requires IsRun(hash, states, actions) && n < |states| && p !in states[n].received
    ensures Places(states[n], p) == 0
  {
    InvAlongRun(hash, states, actions, n);
  }

  // ----- why a packet is dropped -----

  /** What is being processed has been taken last. */
  ghost predicate BusyIsTaken(x: Session) {
    x.dialer.Busy? ==> x.taken != [] && x.taken[|x.taken| - 1] == x.dialer.packet
  }

  lemma {:induction false} BusyAlongRun(hash: string -> nat, states: seq<State>, actions: seq<Action>, n: nat)
    requires IsRun(hash, states, actions) && n < |states|
    ensures forall i :: 0 <= i < |states[n].sessions| ==> BusyIsTaken(states[n].sessions[i])
  {
    if n == 0 {
    } else {
      var s, a := states[n - 1], actions[n - 1];
      BusyAlongRun(hash, states, actions, n - 1);
      if OfSession(a) {
        SessionStepFrame(hash, s, a);
        BusyKept(hash, s, a);
      } else if OfWorker(a) {
        WorkerStepFrame(hash, s, a);
      }
    }
  }

  lemma BusyKept(hash: string -> nat, s: State, a: Action)
    requires Enabled(hash, s, a) && OfSession(a) && BusyIsTaken(s.sessions[a.i])
    ensures a.i < |Apply(hash, s, a).sessions| && BusyIsTaken(Apply(hash, s, a).sessions[a.i])
  {
  }

  /** The hand of a worker. */
  ghost predicate Has(s: State, w: nat, h: Hand) {
    w < |s.workers| && s.workers[w].hand == h
  }

  /**
   * Why a step may drop p: it was just received and the queue of the worker for its key holds 64;
   * a worker rejects it; its sender is closed; the channel of its open sender holds 128; the
   * teardown of a closed session takes it out of the channel; or it has been processed.
   */
  ghost predicate HasCause(hash: string -> nat, s: State, a: Action, p: Packet) {
    match a
    case Receive(key) =>
      |s.workers| > 0 && p == Packet(|s.received|, key) && |s.workers[hash(key) % |s.workers|].queue| == 64
    case Reject(w) => Has(s, w, Checking(p))
    case SendSeesClosed(w) => exists i: nat :: Has(s, w, Sending(p, i)) && i < |s.sessions| && s.sessions[i].closed
    case PutSeesClosed(w) => exists i: nat :: Has(s, w, Putting(p, i)) && i < |s.sessions| && s.sessions[i].closed
    case PutSeesFull(w) =>
      exists i: nat ::
        Has(s, w, Putting(p, i)) && i < |s.sessions| && !s.sessions[i].closed && |s.sessions[i].queue| == 128
    case FailDrains(i) => TornDownWith(s, i, p) && s.sessions[i].reader.NoReader?
    case ReaderDrains(i) => TornDownWith(s, i, p) && !s.sessions[i].reader.NoReader?
    case Finish(i) => i < |s.sessions| && s.sessions[i].dialer == Busy(p) && p in s.sessions[i].taken
    case _ => false
  }

  /** A closed session that is not deleted yet, with p first in its channel. */
  ghost predicate TornDownWith(s: State, i: nat, p: Packet) {
    && i < |s.sessions| && s.sessions[i].closed && !Deleted(s.sessions[i])
    && s.sessions[i].queue != [] && s.sessions[i].queue[0] == p
  }

  /** A step drops nothing, or one packet for a cause. */
  ghost predicate DropsForCause(hash: string -> nat, s: State, a: Action, t: State) {
    t.dropped == s.dropped || exists p :: t.dropped == s.dropped + [p] && HasCause(hash, s, a, p)
  }

  lemma WorkerDropsForCause(hash: string -> nat, s: State, a: Action)
    requires Enabled(hash, s, a) && OfWorker(a) && Placement(hash, s)
    ensures DropsForCause(hash, s, a, Apply(hash, s, a))
  {
    var w, h := a.w, s.workers[a.w].hand;
    var t := Apply(hash, s, a);
    if !a.Pick? && !a.SendSeesOpen? {
      assert t.dropped == s.dropped + [h.packet];
      assert Has(s, w, h);
      assert HasCause(hash, s, a, h.packet);
    }
  }

  lemma SessionDropsForCause(hash: string -> nat, s: State, a: Action)
    requires Enabled(hash, s, a) && OfSession(a) && SessionLife(s.sessions[a.i]) && BusyIsTaken(s.sessions[a.i])
    ensures DropsForCause(hash, s, a, Apply(hash, s, a))
  {
    var x, t := s.sessions[a.i], Apply(hash, s, a);
    if a.FailDrains? || a.ReaderDrains? {
      assert t.dropped == s.dropped + [x.queue[0]] && HasCause(hash, s, a, x.queue[0]);
    } else if a.Finish? {
      assert t.dropped == s.dropped + [x.dialer.packet] && HasCause(hash, s, a, x.dialer.packet);
    }
  }

  /** A received packet goes to the end of the queue of the worker for its key, unless that holds 64. */
  lemma ReceiveGoesTo(hash: string -> nat, s: State, key: string)
    requires Enabled(hash, s, Receive(key)) && Placement(hash, s)
    ensures var t, p, w := Apply(hash, s, Receive(key)), Packet(|s.received|, key), hash(key) % |s.workers|;
      && t.received == s.received + [p] && t.sessions == s.sessions && t.table == s.table
      && if |s.workers[w].queue| < 64 then
           && t.workers == s.workers[w := Worker(s.workers[w].queue + [p], s.workers[w].hand)]
           && t.accepted == s.accepted + [p] && t.dropped == s.dropped
         else
           && |s.workers[w].queue| == 64 && t.workers == s.workers
           && t.accepted == s.accepted && t.dropped == s.dropped + [p]
  {
    assert WorkerPlaced(hash, s, hash(key) % |s.workers|);
  }

  lemma StepDropsForCause(hash: string -> nat, s: State, a: Action)
    requires Enabled(hash, s, a) && Inv(hash, s) && forall i :: 0 <= i < |s.sessions| ==> BusyIsTaken(s.sessions[i])
    ensures DropsForCause(hash, s, a, Apply(hash, s, a))
  {
    if OfWorker(a) {
      WorkerDropsForCause(hash, s, a);
    } else if OfSession(a) {
      SessionDropsForCause(hash, s, a);
    } else if a.Receive? {
      ReceiveGoesTo(hash, s, a.key);
    }
  }

  /** Over any run every drop happened at some step, and had its cause there. */
  lemma {:induction false} DroppedForCause(hash: string -> nat, states: seq<State>, actions: seq<Action>, n: nat,
                                           d: nat)
    returns (m: nat)
    requires IsRun(hash, states, actions) && n < |states| && d < |states[n].dropped|
    ensures m < n && HasCause(hash, states[m], actions[m], states[n].dropped[d])
    ensures states[m + 1].dropped == states[m].dropped + [states[n].dropped[d]] && |states[m].dropped| == d
    ensures states[m + 1].dropped <= states[n].dropped
  {
    assert n > 0;
    var s, t := states[n - 1], states[n];
    InvAlongRun(hash, states, actions, n - 1);
    BusyAlongRun(hash, states, actions, n - 1);
    StepDropsForCause(hash, s, actions[n - 1]);
    if d < |s.dropped| {
      m := DroppedForCause(hash, states, actions, n - 1, d);
    } else {
      m := n - 1;
    }
  }

  /**
   * An open sender with fewer than 128 packets in its channel takes the packet that a worker is
   * about to put: the put can be made, and nothing else can be done with the packet.
   */
  lemma OpenSenderAccepts(hash: string -> nat, s: State, w: nat, p: Packet, i: nat)
    requires |s.workers| > 0 && Has(s, w, Putting(p, i)) && i < |s.sessions|
    requires !s.sessions[i].closed && |s.sessions[i].queue| < 128
    ensures Enabled(hash, s, Put(w))
    ensures forall a :: Enabled(hash, s, a) && (OfWorker(a) || a.Put? || a.Lookup?) && a.w == w ==> a == Put(w)
    ensures var t := Apply(hash, s, Put(w));
      && t.workers == s.workers[w := Worker(s.workers[w].queue, Idle)] && t.dropped == s.dropped
      && t.sessions == s.sessions[i := s.sessions[i].(queue := s.sessions[i].queue + [p])]
  {
  }

  // ----- nobody is stuck -----

  /**
   * Receiving is always possible; a worker that has something to do can do it; a dialler or
   * processor can go on unless it is done or waits for packets with its sender open; a reader
   * can go on unless it is done or not there.
   */
  lemma NobodyIsStuck(hash: string -> nat, states: seq<State>, actions: seq<Action>, n: nat)
    requires IsRun(hash, states, actions) && n < |states|
    ensures forall key :: Enabled(hash, states[n], Receive(key))
    ensures forall w :: 0 <= w < |states[n].workers| ==>
      (states[n].workers[w].hand.Idle? && states[n].workers[w].queue == []) || WorkerMoves(hash, states[n], w)
    ensures forall i :: 0 <= i < |states[n].sessions| ==>
      var x := states[n].sessions[i];
      && (x.dialer.Left? || x.dialer.FailDone? || (x.dialer.Processing? && !x.closed && x.queue == [])
          || DialerMoves(hash, states[n], i))
      && (x.reader.NoReader? || x.reader.ExitDone? || ReaderMoves(hash, states[n], i))
  {
    InvAlongRun(hash, states, actions, n);
    var s := states[n];
    forall w | 0 <= w < |s.workers| && !(s.workers[w].hand.Idle? && s.workers[w].queue == [])
      ensures WorkerMoves(hash, s, w)
    {
      assert WorkerPlaced(hash, s, w);
      SomeWorkerMove(hash, s, w);
    }
    forall i | 0 <= i < |s.sessions|
      ensures var x := s.sessions[i];
        && (x.dialer.Left? || x.dialer.FailDone? || (x.dialer.Processing? && !x.closed && x.queue == [])
            || DialerMoves(hash, s, i))
        && (x.reader.NoReader? || x.reader.ExitDone? || ReaderMoves(hash, s, i))
    {
      SomeDialerMove(hash, s, i);
      SomeReaderMove(hash, s, i);
    }
  }

  /**
   * What is decided outside can go either way: a packet being checked is rejected or gets the
   * session of its key, a new one if none is registered; a dial succeeds or fails.
   */
  lemma EitherWay(hash: string -> nat, s: State, w: nat, p: Packet, i: nat)
    requires |s.workers| > 0
    ensures Has(s, w, Checking(p)) ==>
      && Enabled(hash, s, Reject(w)) && Enabled(hash, s, Lookup(w))
      && Apply(hash, s, Reject(w)).dropped == s.dropped + [p]
      && var t, q := Apply(hash, s, Lookup(w)), s.workers[w].queue;
        && t.dropped == s.dropped && |t.workers| == |s.workers|
        && if p.key in s.table then
             t.sessions == s.sessions && t.table == s.table && t.workers[w] == Worker(q, Sending(p, s.table[p.key]))
           else
             && t.sessions == s.sessions + [Session(p.key, false, [], Dialing, NoReader, [])]
             && t.table == s.table[p.key := |s.sessions|] && t.workers[w] == Worker(q, Sending(p, |s.sessions|))
    ensures i < |s.sessions| && s.sessions[i].dialer.Dialing? ==>
      && Enabled(hash, s, DialOk(i)) && Enabled(hash, s, DialFails(i))
      && Apply(hash, s, DialOk(i)).sessions == s.sessions[i := s.sessions[i].(dialer := Processing, reader := Reading)]
      && Apply(hash, s, DialFails(i)).sessions == s.sessions[i := s.sessions[i].(dialer := FailClose)]
  {
  }

  /** Some step changes what the worker holds. */
  ghost predicate WorkerMoves(hash: string -> nat, s: State, w: nat)
    requires w < |s.workers|
  {
    exists a :: Enabled(hash, s, a) && |Apply(hash, s, a).workers| == |s.workers|
      && Apply(hash, s, a).workers[w].hand != s.workers[w].hand
  }

  ghost predicate DialerMoves(hash: string -> nat, s: State, i: nat)
    requires i < |s.sessions|
  {
    exists a :: Enabled(hash, s, a) && |Apply(hash, s, a).sessions| == |s.sessions|
      && (Apply(hash, s, a).sessions[i].dialer != s.sessions[i].dialer
          || (s.sessions[i].dialer.FailDrain? && |Apply(hash, s, a).sessions[i].queue| < |s.sessions[i].queue|))
  }

  ghost predicate ReaderMoves(hash: string -> nat, s: State, i: nat)
    requires i < |s.sessions|
  {
    exists a :: Enabled(hash, s, a) && |Apply(hash, s, a).sessions| == |s.sessions|
      && (Apply(hash, s, a).sessions[i].reader != s.sessions[i].reader
          || (s.sessions[i].reader.ExitDrain? && |Apply(hash, s, a).sessions[i].queue| < |s.sessions[i].queue|))
  }

  lemma SomeWorkerMove(hash: string -> nat, s: State, w: nat)
    requires |s.workers| > 0 && w < |s.workers| && WorkerPlaced(hash, s, w)
    requires !(s.workers[w].hand.Idle? && s.workers[w].queue == [])
    ensures WorkerMoves(hash, s, w)
  {
    var h := s.workers[w].hand;
    var a := match h
      case Idle => Pick(w)
      case Checking(_) => Reject(w)
      case Sending(_, i) => if s.sessions[i].closed then SendSeesClosed(w) else SendSeesOpen(w)
      case Putting(_, i) =>
        if s.sessions[i].closed then PutSeesClosed(w)
        else if |s.sessions[i].queue| < 128 then Put(w)
        else PutSeesFull(w);
    assert Enabled(hash, s, a) && Apply(hash, s, a).workers[w].hand != h;
  }

  lemma SomeDialerMove(hash: string -> nat, s: State, i: nat)
    requires |s.workers| > 0 && i < |s.sessions|
    ensures var x := s.sessions[i];
      || x.dialer.Left? || x.dialer.FailDone? || (x.dialer.Processing? && !x.closed && x.queue == [])
      || DialerMoves(hash, s, i)
  {
    var x := s.sessions[i];
    if !x.dialer.Left? && !x.dialer.FailDone? && !(x.dialer.Processing? && !x.closed && x.queue == []) {
      var a := match x.dialer
        case Dialing => DialOk(i)
        case Processing => if x.queue != [] then Take(i) else Leave(i)
        case Busy(_) => Finish(i)
        case FailClose => FailCloses(i)
        case FailDrain => if x.queue != [] then FailDrains(i) else FailDrained(i)
        case _ => FailDeletes(i);
      assert Enabled(hash, s, a);
      var y := Apply(hash, s, a).sessions[i];
      assert y.dialer != x.dialer || |y.queue| < |x.queue|;
    }
  }

  lemma SomeReaderMove(hash: string -> nat, s: State, i: nat)
    requires |s.workers| > 0 && i < |s.sessions|
    ensures s.sessions[i].reader.NoReader? || s.sessions[i].reader.ExitDone? || ReaderMoves(hash, s, i)
  {
    var x := s.sessions[i];
    if !x.reader.NoReader? && !x.reader.ExitDone? {
      var a := match x.reader
        case Reading => ReaderStops(i)
        case ExitClose => ReaderCloses(i)
        case ExitDrain => if x.queue != [] then ReaderDrains(i) else ReaderDrained(i)
        case ExitPc => ReaderClosesPc(i)
        case _ => ReaderDeletes(i);
      assert Enabled(hash, s, a);
      var y := Apply(hash, s, a).sessions[i];
      assert y.reader != x.reader || |y.queue| < |x.queue|;
    }
  }

  // ----- what sessions take -----

  /** The packets a session takes are, in order, packets accepted for its key. */
  lemma ProcessedInOrder(hash: string -> nat, states: seq<State>, actions: seq<Action>, n: nat, i: nat)
    requires IsRun(hash, states, actions) && n < |states| && i < |states[n].sessions|
    ensures IsSubsequence(states[n].sessions[i].taken, OfKey(states[n].accepted, states[n].sessions[i].key))
  {
    InvAlongRun(hash, states, actions, n);
    var s, x := states[n], states[n].sessions[i];
    assert TrailOrdered(hash, s, i);
    OfKeyKeepsOrder(s.accepted, x.key);
    forall p | p in x.taken ensures p in OfKey(s.accepted, x.key) {
      assert p in Trail(x);
    }
    TakenIncreasing(x);
    IncreasingWithinIsSubsequence(x.taken, OfKey(s.accepted, x.key));
  }

  lemma TakenIncreasing(x: Session)
    requires Increasing(Trail(x))
    ensures Increasing(x.taken)
  {
    forall i, j | 0 <= i < j < |x.taken| ensures x.taken[i].id < x.taken[j].id {
      assert Trail(x)[i].id < Trail(x)[j].id;
    }
  }

  /** What an earlier session of a key takes was received before what a later one takes. */
  lemma SessionsSplitTheTraffic(hash: string -> nat, states: seq<State>, actions: seq<Action>, n: nat, i: nat, j: nat)
    requires IsRun(hash, states, actions) && n < |states| && i < j < |states[n].sessions|
    requires states[n].sessions[i].key == states[n].sessions[j].key
    ensures AllBelow(states[n].sessions[i].taken, states[n].sessions[j].taken)
    ensures Deleted(states[n].sessions[i])
  {
    InvAlongRun(hash, states, actions, n);
    var x, y := states[n].sessions[i], states[n].sessions[j];
    forall p, q | p in x.taken && q in y.taken ensures p.id < q.id {
      assert p in Trail(x) && q in Trail(y);
    }
  }

  /**
   * A session is torn down by the dial failure or by the reader, never by both; what its
   * Delete removes is itself; and it calls Delete once when, and only when, it is deleted.
   */
  lemma OneTeardown(hash: string -> nat, states: seq<State>, actions: seq<Action>, n: nat, i: nat)
    requires IsRun(hash, states, actions) && n < |states| && i < |states[n].sessions|
    ensures var s := states[n]; !(DialFailed(s.sessions[i]) && ReaderExited(s.sessions[i]))
    ensures var s := states[n];
      forall d :: 0 <= d < |s.deletions| && s.deletions[d].caller == i ==> s.deletions[d].removed == Some(i)
    ensures var s := states[n]; Deleted(s.sessions[i]) <==>
      exists d :: 0 <= d < |s.deletions| && s.deletions[d].caller == i
    ensures var s := states[n];
      forall d, e :: 0 <= d < e < |s.deletions| ==> s.deletions[d].caller != s.deletions[e].caller
    ensures var s := states[n]; !Deleted(s.sessions[i]) <==>
      s.sessions[i].key in s.table && s.table[s.sessions[i].key] == i
  {
    InvAlongRun(hash, states, actions, n);
    assert SessionLife(states[n].sessions[i]);
  }

  /** At no time does a deleted session hold more than one packet in its channel. */
  lemma AtMostOneStranded(hash: string -> nat, states: seq<State>, actions: seq<Action>, n: nat, i: nat)
    requires IsRun(hash, states, actions) && n < |states| && i < |states[n].sessions|
    requires Deleted(states[n].sessions[i])
    ensures |states[n].sessions[i].queue| <= 1
  {
    InvAlongRun(hash, states, actions, n);
  }

  /** A packet was put into the drained channel at step m, and none has been taken from it up to state n. */
  ghost predicate LatePut(states: seq<State>, actions: seq<Action>, m: nat, n: nat, i: nat) {
    && m < n <= |actions| && n < |states|
    && i < |states[m].sessions| && Drained(states[m].sessions[i])
    && PutsInto(states[m], actions[m], i)
    && forall k :: m < k < n ==> actions[k] != Take(i)
  }

  ghost predicate HasLatePut(states: seq<State>, actions: seq<Action>, n: nat, i: nat) {
    exists m: nat :: LatePut(states, actions, m, n, i)
  }

  lemma LatePutNext(states: seq<State>, actions: seq<Action>, n: nat, i: nat)
    requires n < |actions| && |states| == |actions| + 1
    requires i < |states[n].sessions| && Drained(states[n].sessions[i])
    ensures HasLatePut(states, actions, n + 1, i) <==>
      PutsInto(states[n], actions[n], i) || (actions[n] != Take(i) && HasLatePut(states, actions, n, i))
  {
    var next := n + 1;
    if m: nat :| LatePut(states, actions, m, next, i) {
      if m < n {
        assert LatePut(states, actions, m, n, i);
      }
    }
    if PutsInto(states[n], actions[n], i) {
      assert LatePut(states, actions, n, n + 1, i);
    } else if actions[n] != Take(i) {
      if m: nat :| LatePut(states, actions, m, n, i) {
        assert LatePut(states, actions, m, n + 1, i);
      }
    }
  }

  lemma {:induction false} StaysDrained(hash: string -> nat, states: seq<State>, actions: seq<Action>, m: nat,
                                        n: nat, i: nat)
    requires IsRun(hash, states, actions) && m <= n < |states|
    requires i < |states[m].sessions| && Drained(states[m].sessions[i])
    ensures i < |states[n].sessions| && Drained(states[n].sessions[i])
    decreases n - m
  {
    if m == n {
    } else {
      StaysDrained(hash, states, actions, m, n - 1, i);
      InvAlongRun(hash, states, actions, n - 1);
      DrainedStep(hash, states[n - 1], actions[n - 1], i);
    }
  }

  /**
   * When a torn-down session strands a packet: exactly if one was put after its channel had
   * been drained, and not taken since.
   */
  lemma {:induction false} StrandedIff(hash: string -> nat, states: seq<State>, actions: seq<Action>, n: nat, i: nat)
    requires IsRun(hash, states, actions) && n < |states| && i < |states[n].sessions|
    requires Drained(states[n].sessions[i])
    ensures states[n].sessions[i].queue != [] <==> HasLatePut(states, actions, n, i)
    decreases n
  {
    if n == 0 {
    } else {
      var s, a := states[n - 1], actions[n - 1];
      InvAlongRun(hash, states, actions, n - 1);
      if i < |s.sessions| && Drained(s.sessions[i]) {
        StrandedIff(hash, states, actions, n - 1, i);
        DrainedStep(hash, s, a, i);
        LatePutNext(states, actions, n - 1, i);
        AtMostOneDrained(hash, s, i);
      } else {
        DrainedWhenEmpty(hash, s, a, i);
        NoLatePut(hash, states, actions, n, i);
      }
    }
  }

  lemma AtMostOneDrained(hash: string -> nat, s: State, i: nat)
    requires Inv(hash, s) && i < |s.sessions| && Drained(s.sessions[i])
    ensures |s.sessions[i].queue| <= 1
  {
  }

  lemma NoLatePut(hash: string -> nat, states: seq<State>, actions: seq<Action>, n: nat, i: nat)
    requires IsRun(hash, states, actions) && 0 < n < |states|
    requires !(i < |states[n - 1].sessions| && Drained(states[n - 1].sessions[i]))
    ensures !HasLatePut(states, actions, n, i)
  {
    forall m: nat | m < n && i < |states[m].sessions| && Drained(states[m].sessions[i]) ensures false {
      StaysDrained(hash, states, actions, m, n - 1, i);
    }
  }

  /** The goroutine that takes packets will take none any more. */
  predicate TakesNoMore(x: Session) {
    x.dialer.Left? || x.dialer.FailDelete? || x.dialer.FailDone?
  }

  lemma TakesNoMoreStep(hash: string -> nat, s: State, a: Action, i: nat)
    requires Enabled(hash, s, a) && i < |s.sessions| && TakesNoMore(s.sessions[i])
    ensures i < |Apply(hash, s, a).sessions| && TakesNoMore(Apply(hash, s, a).sessions[i]) && a != Take(i)
  {
  }

  lemma StrandedStep(hash: string -> nat, s: State, a: Action, i: nat)
    requires Enabled(hash, s, a) && Inv(hash, s) && i < |s.sessions|
    requires Drained(s.sessions[i]) && TakesNoMore(s.sessions[i]) && s.sessions[i].queue != []
    ensures var t := Apply(hash, s, a);
      && i < |t.sessions| && Drained(t.sessions[i]) && TakesNoMore(t.sessions[i])
      && t.sessions[i].queue == s.sessions[i].queue
  {
    InvKept(hash, s, a);
    DrainedStep(hash, s, a, i);
    TakesNoMoreStep(hash, s, a, i);
    AtMostOneDrained(hash, Apply(hash, s, a), i);
  }

  /** And then the packet stays in the channel for ever: in every later state of every run. */
  lemma {:induction false} StrandedForEver(hash: string -> nat, states: seq<State>, actions: seq<Action>, m: nat,
                                           n: nat, i: nat)
    requires IsRun(hash, states, actions) && m <= n < |states| && i < |states[m].sessions|
    requires Drained(states[m].sessions[i]) && TakesNoMore(states[m].sessions[i]) && states[m].sessions[i].queue != []
    ensures i < |states[n].sessions| && Drained(states[n].sessions[i]) && TakesNoMore(states[n].sessions[i])
    ensures states[n].sessions[i].queue == states[m].sessions[i].queue
    decreases n - m
  {
    if m == n {
    } else {
      StrandedForEver(hash, states, actions, m, n - 1, i);
      InvAlongRun(hash, states, actions, n - 1);
      StrandedStep(hash, states[n - 1], actions[n - 1], i);
    }
  }

  lemma ExtendRun(hash: string -> nat, states: seq<State>, actions: seq<Action>, a: Action, t: State)
    requires IsRun(hash, states, actions) && Enabled(hash, states[|actions|], a)
      && t == Apply(hash, states[|actions|], a)
    ensures IsRun(hash, states + [t], actions + [a])
  {
  }

  lemma FirstReceived(hash: string -> nat, p: Packet, s1: State)
    requires p == Packet(0, "k") && s1 == State([Worker([p], Idle)], map[], [], [p], [p], [], [])
    ensures var s0 := State([Worker([], Idle)], map[], [], [], [], [], []);
      Enabled(hash, s0, Receive("k")) && Apply(hash, s0, Receive("k")) == s1
  {
    var s0 := State([Worker([], Idle)], map[], [], [], [], [], []);
    var t := Apply(hash, s0, Receive("k"));
    assert Route(hash, "k", 1) == 0;
    assert [] + [p] == [p];
    assert t.workers == s1.workers;
  }

  /** A worker that has looked at the open context holds the first packet; the dial is pending. */
  lemma PutPendingHappens(hash: string -> nat, p: Packet, x: Session) returns (states: seq<State>, actions: seq<Action>)
    requires p == Packet(0, "k") && x == Session("k", false, [], Dialing, NoReader, [])
    ensures IsRun(hash, states, actions)
    ensures states[|actions|] == State([Worker([], Putting(p, 0))], map["k" := 0], [x], [p], [p], [], [])
  {
    states, actions := [State([Worker([], Idle)], map[], [], [], [], [], [])], [];
    var s1 := State([Worker([p], Idle)], map[], [], [p], [p], [], []);
    FirstReceived(hash, p, s1);
    ExtendRun(hash, states, actions, Receive("k"), s1);
    states, actions := states + [s1], actions + [Receive("k")];
    var s2 := State([Worker([], Checking(p))], map[], [], [p], [p], [], []);
    assert [p][1..] == [];
    ExtendRun(hash, states, actions, Pick(0), s2);
    states, actions := states + [s2], actions + [Pick(0)];
    var s3 := State([Worker([], Sending(p, 0))], map["k" := 0], [x], [p], [p], [], []);
    ExtendRun(hash, states, actions, Lookup(0), s3);
    states, actions := states + [s3], actions + [Lookup(0)];
    var s4 := State([Worker([], Putting(p, 0))], map["k" := 0], [x], [p], [p], [], []);
    ExtendRun(hash, states, actions, SendSeesOpen(0), s4);
    states, actions := states + [s4], actions + [SendSeesOpen(0)];
  }

  /** Meanwhile the dial fails and its teardown runs to the end. */
  lemma TeardownOvertakes(hash: string -> nat, p: Packet, x: Session) returns (states: seq<State>, actions: seq<Action>)
    requires p == Packet(0, "k") && x == Session("k", false, [], Dialing, NoReader, [])
    ensures IsRun(hash, states, actions)
    ensures states[|actions|] ==
      State([Worker([], Putting(p, 0))], map[], [x.(dialer := FailDone, closed := true)], [p], [p], [],
        [Deletion(0, Some(0))])
  {
    states, actions := PutPendingHappens(hash, p, x);
    var s5 := states[|actions|].(sessions := [x.(dialer := FailClose)]);
    ExtendRun(hash, states, actions, DialFails(0), s5);
    states, actions := states + [s5], actions + [DialFails(0)];
    var s6 := s5.(sessions := [x.(dialer := FailDrain, closed := true)]);
    ExtendRun(hash, states, actions, FailCloses(0), s6);
    states, actions := states + [s6], actions + [FailCloses(0)];
    var s7 := s6.(sessions := [x.(dialer := FailDelete, closed := true)]);
    ExtendRun(hash, states, actions, FailDrained(0), s7);
    states, actions := states + [s7], actions + [FailDrained(0)];
    var s8 := s7.(sessions := [x.(dialer := FailDone, closed := true)], table := map[],
      deletions := [Deletion(0, Some(0))]);
    ExtendRun(hash, states, actions, FailDeletes(0), s8);
    states, actions := states + [s8], actions + [FailDeletes(0)];
  }

  /** The bound is met: a worker that looked before the close may put after the drain. */
  lemma StrandingHappens(hash: string -> nat) returns (states: seq<State>, actions: seq<Action>)
    ensures IsRun(hash, states, actions)
    ensures var s := states[|actions|]; |s.sessions| == 1 && Deleted(s.sessions[0]) && |s.sessions[0].queue| == 1
  {
    var p := Packet(0, "k");
    var x := Session("k", false, [], Dialing, NoReader, []);
    states, actions := TeardownOvertakes(hash, p, x);
    var t := Apply(hash, states[|actions|], Put(0));
    assert t.sessions[0].queue == [p];
    ExtendRun(hash, states, actions, Put(0), t);
    states, actions := states + [t], actions + [Put(0)];
  }
}
