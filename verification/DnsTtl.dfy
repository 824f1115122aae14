/**
 * TTLs in the DNS cache (core/Clash.Meta/dns/util.go, core/Clash.Meta/dns/resolver.go): a
 * message is stored with the least TTL of its records as its lifetime, and served from the
 * cache with every TTL lowered by the same amount. TTLs are unsigned 32-bit numbers
 * (section 3.2.1 of RFC 1035) and their subtraction wraps around.
 *
 * Times are nanoseconds of a clock that does not go back. A hit reads the clock twice; the
 * second reading is assumed to be less than a second past the expiry, since the conversion
 * of a number below -1 to an unsigned one is not defined.
 */
module DnsTtl {
  import opened Prelude

  const WIDTH := 0x1_0000_0000
  const SECOND := 1_000_000_000
  const TYPE_OPT := 41
  const TYPE_TXT := 16
  const RCODE_SERVER_FAILURE := 2
  const SERVER_FAILURE_CACHE_TTL: Ttl := 5

  type Ttl = t: int | 0 <= t < 0x1_0000_0000

  datatype Record = Record(kind: nat, ttl: Ttl, data: seq<int>)

  datatype Message = Message(rcode: nat, answer: seq<Record>, ns: seq<Record>, extra: seq<Record>)

  datatype Question = Question(name: string, kind: nat)

  predicate Wraps(a: int, b: int) {
    a < b
  }

  /** Unsigned subtraction: below zero it wraps around. */
  function Sub32(a: Ttl, b: Ttl): Ttl {
    if Wraps(a, b) then a - b + WIDTH else a - b
  }

  /** lo.Clamp: the lower bound is looked at first. */
  function Clamp(v: Ttl, low: Ttl, high: Ttl): Ttl {
    if v < low then low else if v > high then high else v
  }

  function Max(a: int, b: int): int {
    if a < b then b else a
  }

  /** The least TTL of a list; 0 for the empty one. */
  ghost function Least(s: seq<Record>): Ttl {
    if |s| == 0 then 0
    else if |s| == 1 then s[0].ttl
    else
      var rest := Least(s[..|s| - 1]);
      if s[|s| - 1].ttl < rest then s[|s| - 1].ttl else rest
  }

  lemma {:induction false} LeastIsLeast(s: seq<Record>)
    requires s != []
    ensures forall i :: 0 <= i < |s| ==> Least(s) <= s[i].ttl
    ensures exists i :: 0 <= i < |s| && s[i].ttl == Least(s)
  {
    var last := |s| - 1;
    if last == 0 {
      assert s[0].ttl == Least(s);
    } else {
      LeastIsLeast(s[..last]);
      var i :| 0 <= i < last && s[..last][i].ttl == Least(s[..last]);
      assert s[i].ttl == Least(s[..last]);
      assert s[last].ttl == Least(s) || s[i].ttl == Least(s);
      forall k | 0 <= k < |s| ensures Least(s) <= s[k].ttl {
        assert k < last ==> s[..last][k] == s[k];
      }
    }
  }

  /** One TTL, in a section whose least is `least`, when `left` seconds are left. */
  function AgedTtl(t: Ttl, least: Ttl, left: Ttl): Ttl {
    Clamp(Sub32(t, Sub32(least, left)), 1, t)
  }

  /** A section as it is served when `left` seconds are left. */
  ghost function Aged(s: seq<Record>, left: Ttl): (r: seq<Record>)
    ensures |r| == |s|
  {
    seq(|s|, i requires 0 <= i < |s| => s[i].(ttl := AgedTtl(s[i].ttl, Least(s), left)))
  }

  ghost function AllTtl(s: seq<Record>, ttl: Ttl): (r: seq<Record>)
    ensures |r| == |s|
  {
    seq(|s|, i requires 0 <= i < |s| => s[i].(ttl := ttl))
  }

  // ----- the operations -----

  method MinimalTtl(records: array<Record>) returns (ttl: Ttl)
    ensures ttl == Least(records[..])
  {
    if records.Length == 0 {
      return 0;
    }
    ttl := records[0].ttl;
    for i := 1 to records.Length
      invariant ttl == Least(records[..i])
    {
      PrefixGrows(records[..], i);
      assert records[..i + 1][..i] == records[..i];
      if records[i].ttl < ttl {
        ttl := records[i].ttl;
      }
    }
    assert records[..records.Length] == records[..];
  }

  method UpdateTtl(records: array<Record>, ttl: Ttl)
    modifies records
    ensures records[..] == Aged(old(records[..]), ttl)
  {
    if records.Length == 0 {
      return;
    }
    var least := MinimalTtl(records);
    var delta := Sub32(least, ttl);
    for i := 0 to records.Length
      invariant forall k :: i <= k < records.Length ==> records[k] == old(records[k])
      invariant forall k :: 0 <= k < i ==>
        records[k] == old(records[k]).(ttl := AgedTtl(old(records[k]).ttl, least, ttl))
    {
      records[i] := records[i].(ttl := Clamp(Sub32(records[i].ttl, delta), 1, records[i].ttl));
    }
  }

  method SetTtl(records: array<Record>, ttl: Ttl)
    modifies records
    ensures records[..] == AllTtl(old(records[..]), ttl)
  {
    for i := 0 to records.Length
      invariant forall k :: i <= k < records.Length ==> records[k] == old(records[k])
      invariant forall k :: 0 <= k < i ==> records[k] == old(records[k]).(ttl := ttl)
    {
      records[i] := records[i].(ttl := ttl);
    }
  }

  method CopyRecords(s: seq<Record>) returns (a: array<Record>)
    ensures fresh(a) && a[..] == s
  {
    a := new Record[|s|](i requires 0 <= i < |s| => s[i]);
  }

  /** A message of one's own, whose records are changed in place. */
  class MessageCopy {
    const rcode: nat
    const answer: array<Record>
    const ns: array<Record>
    const extra: array<Record>

    constructor (rcode: nat, answer: array<Record>, ns: array<Record>, extra: array<Record>)
      ensures this.rcode == rcode && this.answer == answer && this.ns == ns && this.extra == extra
    {
      this.rcode, this.answer, this.ns, this.extra := rcode, answer, ns, extra;
    }

    ghost predicate Valid() {
      answer != ns && answer != extra && ns != extra
    }

    ghost function Contents(): Message
      reads answer, ns, extra
    {
      Message(rcode, answer[..], ns[..], extra[..])
    }

    method UpdateMsgTtl(ttl: Ttl)
      requires Valid()
      modifies answer, ns, extra
      ensures Contents() == AgedMessage(old(Contents()), ttl)
    {
      UpdateTtl(answer, ttl);
      UpdateTtl(ns, ttl);
      UpdateTtl(extra, ttl);
    }

    method SetMsgTtl(ttl: Ttl)
      requires Valid()
      modifies answer, ns, extra
      ensures Contents() == FlatMessage(old(Contents()), ttl)
    {
      SetTtl(answer, ttl);
      SetTtl(ns, ttl);
      SetTtl(extra, ttl);
    }
  }

  ghost function AgedMessage(m: Message, ttl: Ttl): Message {
    Message(m.rcode, Aged(m.answer, ttl), Aged(m.ns, ttl), Aged(m.extra, ttl))
  }

  ghost function FlatMessage(m: Message, ttl: Ttl): Message {
    Message(m.rcode, AllTtl(m.answer, ttl), AllTtl(m.ns, ttl), AllTtl(m.extra, ttl))
  }

  ghost function AllRecords(m: Message): seq<Record> {
    m.answer + m.ns + m.extra
  }

  /** The lifetime that a message is stored with; 0 means that it is not stored. */
  ghost function Lifetime(m: Message): Ttl {
    if m.rcode == RCODE_SERVER_FAILURE then SERVER_FAILURE_CACHE_TTL else Least(AllRecords(m))
  }

  /** The records without the OPT pseudo-records (section 6.1.1 of RFC 6891). */
  ghost function WithoutOpt(s: seq<Record>): (r: seq<Record>)
    ensures forall i :: 0 <= i < |r| ==> r[i].kind != TYPE_OPT
  {
    if s == [] then []
    else
      var rest := WithoutOpt(s[..|s| - 1]);
      if s[|s| - 1].kind == TYPE_OPT then rest else rest + [s[|s| - 1]]
  }

  /** All other records are kept in their order, and each as often as it was there. */
  lemma WithoutOptKeeps(s: seq<Record>)
    ensures IsSubsequence(WithoutOpt(s), s)
    ensures forall r: Record :: multiset(WithoutOpt(s))[r] == if r.kind == 41 then 0 else multiset(s)[r]
  {
    WithoutOptInOrder(s);
    forall r: Record ensures multiset(WithoutOpt(s))[r] == if r.kind == 41 then 0 else multiset(s)[r] {
      WithoutOptCount(s, r);
    }
  }

  lemma {:induction false} WithoutOptInOrder(s: seq<Record>)
    ensures IsSubsequence(WithoutOpt(s), s)
  {
    if s == [] {
      SubsequenceOfItself<Record>([]);
    } else {
      var front, last := s[..|s| - 1], s[|s| - 1];
      WithoutOptInOrder(front);
      SubsequenceSnoc(WithoutOpt(front), front, last);
      assert s == front + [last];
    }
  }

  lemma {:induction false} WithoutOptCount(s: seq<Record>, r: Record)
    ensures multiset(WithoutOpt(s))[r] == if r.kind == 41 then 0 else multiset(s)[r]
  {
    if s == [] {
    } else {
      var front, last := s[..|s| - 1], s[|s| - 1];
      WithoutOptCount(front, r);
      assert s == front + [last];
    }
  }

  datatype Entry = Entry(msg: Message, expire: nat)

  /** Seconds left at time `now`, cut off towards zero. */
  function Remaining(expire: nat, now: nat): Ttl
    requires now < expire + SECOND && expire < now + WIDTH * SECOND
  {
    if expire < now then 0 else (expire - now) / SECOND
  }

  ghost function Served(e: Entry, now: nat, later: nat): Message
    requires now <= later && (now <= e.expire ==> later < e.expire + SECOND && e.expire < later + WIDTH * SECOND)
  {
    if e.expire < now then FlatMessage(e.msg, 1) else AgedMessage(e.msg, Remaining(e.expire, later))
  }

  class Cache {
    var entries: map<string, Entry>

    constructor ()
      ensures entries == map[]
    {
      entries := map[];
    }

    method PutMsgToCache(key: string, q: Question, m: Message, now: nat)
      modifies this
      ensures entries == if (q.kind == 16 && "_acme-challenge." <= q.name) || Lifetime(m) == 0 then old(entries)
        else old(entries)[key := Entry(m, now + Lifetime(m) * 1_000_000_000)]
    {
      if q.kind == TYPE_TXT && "_acme-challenge." <= q.name {
        return;
      }
      var ttl: Ttl;
      if m.rcode == RCODE_SERVER_FAILURE {
        ttl := SERVER_FAILURE_CACHE_TTL;
      } else {
        var all := CopyRecords(m.answer + m.ns + m.extra);
        ttl := MinimalTtl(all);
      }
      if ttl == 0 {
        return;
      }
      entries := entries[key := Entry(m, now + ttl * SECOND)];
    }

    /** The end of an exchange: the OPT records go, then the answer is cached if it may be. */
    method Finish(key: string, q: Question, m: Message, cache: bool, now: nat) returns (result: Message)
      modifies this
      ensures !cache ==> result == m && entries == old(entries)
      ensures cache ==>
        && result == m.(extra := result.extra) && IsSubsequence(result.extra, m.extra)
        && forall r: Record :: multiset(result.extra)[r] == if r.kind == 41 then 0 else multiset(m.extra)[r]
      ensures cache ==>
        entries == if (q.kind == 16 && "_acme-challenge." <= q.name) || Lifetime(result) == 0 then old(entries)
          else old(entries)[key := Entry(result, now + Lifetime(result) * 1_000_000_000)]
    {
      result := m;
      if cache {
        var kept: seq<Record> := [];
        for i := 0 to |m.extra|
          invariant kept == WithoutOpt(m.extra[..i])
        {
          assert m.extra[..i + 1][..i] == m.extra[..i];
          if m.extra[i].kind != TYPE_OPT {
            kept := kept + [m.extra[i]];
          }
        }
        WholePrefix(m.extra);
        WithoutOptKeeps(m.extra);
        result := m.(extra := kept);
        PutMsgToCache(key, q, result, now);
      }
    }

    /** A cache hit; a copy of the message is changed, never the stored one. */
    method Hit(key: string, now: nat, later: nat) returns (msg: MessageCopy, continueFetch: bool)
      requires key in entries && now <= later
      requires now <= entries[key].expire ==>
        later < entries[key].expire + SECOND && entries[key].expire < later + WIDTH * SECOND
      ensures fresh(msg) && fresh(msg.answer) && fresh(msg.ns) && fresh(msg.extra) && msg.Valid()
      ensures msg.Contents() == Served(entries[key], now, later)
      ensures msg.rcode == entries[key].msg.rcode
      ensures continueFetch <==> entries[key].expire < now
    {
      var e := entries[key];
      var answer := CopyRecords(e.msg.answer);
      var ns := CopyRecords(e.msg.ns);
      var extra := CopyRecords(e.msg.extra);
      msg := new MessageCopy(e.msg.rcode, answer, ns, extra);
      continueFetch := e.expire < now;
      if continueFetch {
        msg.SetMsgTtl(1);
      } else {
        msg.UpdateMsgTtl(Remaining(e.expire, later));
      }
    }
  }

  // ----- one section -----

  /** With no more time left than the least TTL nothing wraps, and a TTL keeps its distance above that least one. */
  lemma TtlWithinStock(t: Ttl, least: Ttl, left: Ttl)
    requires left <= least <= t
    ensures !Wraps(least, left) && !Wraps(t, least - left)
    ensures AgedTtl(t, least, left) == Max(1, left + (t - least))
  {
  }

  /**
   * With more time left than the least TTL the subtraction wraps, and a TTL comes out unchanged unless
   * it wraps again.
   */
  lemma TtlBeyondStock(t: Ttl, least: Ttl, left: Ttl)
    requires least < left && least <= t
    ensures Wraps(least, left)
    ensures AgedTtl(t, least, left) == if t + (left - least) < WIDTH then t else Max(1, t + (left - least) - WIDTH)
  {
  }

  lemma AgedAt(s: seq<Record>, left: Ttl, i: nat)
    requires i < |s|
    ensures Aged(s, left)[i].ttl == AgedTtl(s[i].ttl, Least(s), left)
  {
  }

  lemma LeastBelow(s: seq<Record>, i: nat)
    requires i < |s|
    ensures Least(s) <= s[i].ttl
  {
    LeastIsLeast(s);
  }

  lemma AgedWithinStock(s: seq<Record>, left: Ttl, i: nat)
    requires i < |s| && left <= Least(s)
    ensures Aged(s, left)[i].ttl == Max(1, left + (s[i].ttl - Least(s)))
    ensures Least(s) <= s[i].ttl
  {
    LeastIsLeast(s);
    TtlWithinStock(s[i].ttl, Least(s), left);
  }

  lemma AgedBeyondStock(s: seq<Record>, left: Ttl, i: nat)
    requires i < |s| && Least(s) < left
    ensures var lifted := s[i].ttl + (left - Least(s));
      Aged(s, left)[i].ttl == if lifted < WIDTH then s[i].ttl else Max(1, lifted - WIDTH)
    ensures Least(s) <= s[i].ttl
  {
    LeastBelow(s, i);
    AgedAt(s, left, i);
    TtlBeyondStock(s[i].ttl, Least(s), left);
  }

  /** Differences within a section survive, as long as a second is left. */
  lemma DifferencesSurvive(s: seq<Record>, ttl: Ttl, i: nat, j: nat)
    requires 1 <= ttl <= Least(s) && i < |s| && j < |s|
    ensures Aged(s, ttl)[i].ttl - Aged(s, ttl)[j].ttl == s[i].ttl - s[j].ttl
  {
    AgedWithinStock(s, ttl, i);
    AgedWithinStock(s, ttl, j);
  }

  // ----- a stored message -----

  /** The record at position i of section 0 (answer), 1 (authority) or 2 (additional). */
  ghost function Section(m: Message, k: nat): seq<Record>
    requires k < 3
  {
    if k == 0 then m.answer else if k == 1 then m.ns else m.extra
  }

  /**
   * A server failure lives five seconds; any other message as long as its shortest-lived record, and
   * without records not at all.
   */
  lemma LifetimeIs(m: Message)
    ensures m.rcode == 2 ==> Lifetime(m) == 5
    ensures m.rcode != 2 && m.answer == m.ns == m.extra == [] ==> Lifetime(m) == 0
    ensures m.rcode != 2 ==>
      forall r :: r in m.answer || r in m.ns || r in m.extra ==> Lifetime(m) <= r.ttl
    ensures m.rcode != 2 && (m.answer != [] || m.ns != [] || m.extra != []) ==>
      exists r :: (r in m.answer || r in m.ns || r in m.extra) && r.ttl == Lifetime(m)
  {
    var all := AllRecords(m);
    if m.rcode != 2 && all != [] {
      LeastIsLeast(all);
      var i :| 0 <= i < |all| && all[i].ttl == Least(all);
      assert all[i] in all;
      forall r | r in m.answer || r in m.ns || r in m.extra ensures Lifetime(m) <= r.ttl {
        assert r in all;
        var j :| 0 <= j < |all| && all[j] == r;
      }
    }
  }

  lemma LifetimeIsLeast(m: Message, k: nat)
    requires m.rcode != RCODE_SERVER_FAILURE && k < 3 && Section(m, k) != []
    ensures Lifetime(m) <= Least(Section(m, k))
  {
    var s := Section(m, k);
    LeastIsLeast(s);
    LeastIsLeast(AllRecords(m));
    var i :| 0 <= i < |s| && s[i].ttl == Least(s);
    var offset := if k == 0 then 0 else if k == 1 then |m.answer| else |m.answer| + |m.ns|;
    assert AllRecords(m)[offset + i] == s[i];
  }

  /** Seconds from storing to serving, rounded up. */
  ghost function ElapsedUp(stored: nat, now: nat): nat
    requires stored <= now
  {
    (now - stored + SECOND - 1) / SECOND
  }

  lemma RemainingIsWhatIsLeft(ttl: Ttl, stored: nat, later: nat)
    requires stored <= later < stored + ttl * SECOND + SECOND && 0 < ttl
    ensures stored + ttl * SECOND < later + WIDTH * SECOND
    ensures Remaining(stored + ttl * SECOND, later) == Max(0, ttl - ElapsedUp(stored, later))
  {
    var d := later - stored;
    assert ttl * SECOND < WIDTH * SECOND;
    if d <= ttl * SECOND {
      DivideDown(ttl, d);
    } else {
      assert ElapsedUp(stored, later) >= ttl;
    }
  }

  lemma DivideDown(ttl: nat, d: nat)
    requires d <= ttl * SECOND
    ensures (ttl * SECOND - d) / SECOND == ttl - (d + SECOND - 1) / SECOND
  {
    var q := (d + SECOND - 1) / SECOND;
    var r := (d + SECOND - 1) % SECOND;
    assert d == q * SECOND + r - (SECOND - 1);
    assert ttl * SECOND - d == (ttl - q) * SECOND + (SECOND - 1 - r);
  }

  /**
   * Any message but a server failure, stored at one time and served at a later one: every
   * TTL is between 1 and the stored one, and never more than what the time since then leaves.
   */
  lemma ServedWithinStored(m: Message, stored: nat, now: nat, later: nat, k: nat, i: nat)
    requires m.rcode != RCODE_SERVER_FAILURE && Lifetime(m) > 0
    requires stored <= now <= later && (now <= stored + Lifetime(m) * SECOND ==>
      later < stored + Lifetime(m) * SECOND + SECOND)
    requires k < 3 && i < |Section(m, k)|
    ensures now <= stored + Lifetime(m) * SECOND ==> stored + Lifetime(m) * SECOND < later + WIDTH * SECOND
    ensures var out := Served(Entry(m, stored + Lifetime(m) * SECOND), now, later);
      var before := Section(m, k)[i];
      && |Section(out, k)| == |Section(m, k)|
      && Section(out, k)[i] == before.(ttl := Section(out, k)[i].ttl)
      && 1 <= Section(out, k)[i].ttl <= before.ttl
      && Section(out, k)[i].ttl <= Max(1, before.ttl - ElapsedUp(stored, now))
  {
    var s := Section(m, k);
    LifetimeIsLeast(m, k);
    LeastIsLeast(s);
    var expire := stored + Lifetime(m) * SECOND;
    if now <= expire {
      RemainingIsWhatIsLeft(Lifetime(m), stored, later);
      AgedWithinStock(s, Remaining(expire, later), i);
      assert ElapsedUp(stored, now) <= ElapsedUp(stored, later);
    }
  }

  /**
   * And exactly: past the expiry every TTL is 1; before it the least TTL of a section becomes the
   * seconds left of the lifetime, the others keep their distance above it, and none falls below 1.
   */
  lemma ServedExactly(m: Message, stored: nat, now: nat, later: nat, k: nat, i: nat)
    requires m.rcode != RCODE_SERVER_FAILURE && Lifetime(m) > 0
    requires stored <= now <= later
    requires now <= stored + Lifetime(m) * SECOND ==> later < stored + Lifetime(m) * SECOND + SECOND
    requires k < 3 && i < |Section(m, k)|
    ensures now <= stored + Lifetime(m) * SECOND ==> stored + Lifetime(m) * SECOND < later + WIDTH * SECOND
    ensures var out := Served(Entry(m, stored + Lifetime(m) * SECOND), now, later);
      && out.rcode == m.rcode && |Section(out, k)| == |Section(m, k)|
      && Section(out, k)[i].ttl ==
         if now > stored + Lifetime(m) * SECOND then 1
         else Max(1, Max(0, Lifetime(m) - ElapsedUp(stored, later)) + (Section(m, k)[i].ttl - Least(Section(m, k))))
  {
    LifetimeIsLeast(m, k);
    LeastIsLeast(Section(m, k));
    var expire := stored + Lifetime(m) * SECOND;
    if now <= expire {
      RemainingIsWhatIsLeft(Lifetime(m), stored, later);
      AgedWithinStock(Section(m, k), Remaining(expire, later), i);
    }
  }

  /** A section of such a message that is served in time has as its least TTL the seconds left, or 1. */
  lemma ServedLeast(m: Message, ttl: Ttl, k: nat)
    requires m.rcode != RCODE_SERVER_FAILURE && ttl <= Lifetime(m) && 0 < Lifetime(m)
    requires k < 3 && Section(m, k) != []
    ensures Least(Section(AgedMessage(m, ttl), k)) == Max(1, ttl)
  {
    var s, out := Section(m, k), Section(AgedMessage(m, ttl), k);
    LifetimeIsLeast(m, k);
    LeastIsLeast(s);
    LeastIsLeast(out);
    forall i | 0 <= i < |s| ensures out[i].ttl == Max(1, ttl + (s[i].ttl - Least(s))) {
      AgedWithinStock(s, ttl, i);
    }
    var i :| 0 <= i < |s| && s[i].ttl == Least(s);
    assert out[i].ttl == Max(1, ttl);
    var j :| 0 <= j < |out| && out[j].ttl == Least(out);
  }

  // ----- server failures -----

  /** A section of a server failure, served `elapsed` nanoseconds after it was stored, is no older than it says. */
  ghost predicate InTime(s: seq<Record>, elapsed: nat)
    requires elapsed <= SERVER_FAILURE_CACHE_TTL * SECOND
  {
    forall i :: 0 <= i < |s| ==>
      Aged(s, Remaining(SERVER_FAILURE_CACHE_TTL * SECOND, elapsed))[i].ttl
        <= Max(1, s[i].ttl - ElapsedUp(0, elapsed))
  }

  /** The five-second lifetime does not look at the records: the bound of other messages holds only with this. */
  ghost predicate LastsFiveSeconds(s: seq<Record>) {
    (forall i :: 0 <= i < |s| ==> s[i].ttl >= SERVER_FAILURE_CACHE_TTL) || (forall i :: 0 <= i < |s| ==> s[i].ttl <= 1)
  }

  lemma LastingIsInTime(s: seq<Record>, elapsed: nat)
    requires elapsed <= SERVER_FAILURE_CACHE_TTL * SECOND && LastsFiveSeconds(s)
    ensures InTime(s, elapsed)
  {
    var r := Remaining(SERVER_FAILURE_CACHE_TTL * SECOND, elapsed);
    RemainingIsWhatIsLeft(SERVER_FAILURE_CACHE_TTL, 0, elapsed);
    forall i | 0 <= i < |s|
      ensures Aged(s, r)[i].ttl <= Max(1, s[i].ttl - ElapsedUp(0, elapsed))
    {
      LeastIsLeast(s);
      if r <= Least(s) {
        AgedWithinStock(s, r, i);
      } else {
        AgedBeyondStock(s, r, i);
      }
    }
  }

  /**
   * A record of more than one second in a section that expires first is served too long, after one
   * second or at the end.
   */
  lemma ShortLivedIsLate(s: seq<Record>, i: nat)
    requires i < |s| && s[i].ttl >= 2 && Least(s) < SERVER_FAILURE_CACHE_TTL
    ensures !(InTime(s, SECOND) && InTime(s, SERVER_FAILURE_CACHE_TTL * SECOND))
  {
    var aged1, aged5 := Aged(s, 4), Aged(s, 0);
    assert Remaining(SERVER_FAILURE_CACHE_TTL * SECOND, SECOND) == 4;
    assert Remaining(SERVER_FAILURE_CACHE_TTL * SECOND, SERVER_FAILURE_CACHE_TTL * SECOND) == 0;
    assert ElapsedUp(0, SECOND) == 1 && ElapsedUp(0, 5 * SECOND) == 5;
    AgedWithinStock(s, 0, i);
    if Least(s) == 4 {
      AgedWithinStock(s, 4, i);
      assert aged1[i].ttl == s[i].ttl;
    } else {
      AgedBeyondStock(s, 4, i);
      if s[i].ttl + (4 - Least(s)) < WIDTH {
        assert aged1[i].ttl == s[i].ttl;
      } else {
        assert aged5[i].ttl == s[i].ttl - Least(s);
      }
    }
  }

  /**
   * For a server failure the bound holds at every moment of its five seconds exactly when the section
   * outlasts them.
   */
  lemma ServerFailureInTimeIff(s: seq<Record>)
    ensures (forall elapsed: nat :: elapsed <= SERVER_FAILURE_CACHE_TTL * SECOND ==> InTime(s, elapsed))
      <==> LastsFiveSeconds(s)
  {
    if LastsFiveSeconds(s) {
      forall elapsed: nat | elapsed <= SERVER_FAILURE_CACHE_TTL * SECOND ensures InTime(s, elapsed) {
        LastingIsInTime(s, elapsed);
      }
    } else {
      var i :| 0 <= i < |s| && s[i].ttl > 1;
      LeastIsLeast(s);
      ShortLivedIsLate(s, i);
    }
  }

  /** A record with three seconds to live, in a server failure served after one second, still claims three. */
  lemma ServerFailureWraps()
    ensures var s := [Record(6, 3, [])]; Wraps(Least(s), 4) && Aged(s, 4)[0].ttl == 3 && !InTime(s, SECOND)
  {
    var s := [Record(6, 3, [])];
    AgedBeyondStock(s, 4, 0);
    assert Remaining(SERVER_FAILURE_CACHE_TTL * SECOND, SECOND) == 4;
    assert ElapsedUp(0, SECOND) == 1;
  }
}
