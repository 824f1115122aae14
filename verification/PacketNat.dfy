/**
 * The destination NAT of one UDP session's sender (packetSender in
 * core/Clash.Meta/tunnel/connection.go): which address the packets for a destination go to,
 * and which address a reply is shown as coming from.
 *
 * The sender's mutex makes AddMapping and RestoreReadFrom atomic, and only the session's own
 * goroutine dials and processes, so a run is a sequence of calls. What the ghost fields
 * record is the sequence of mappings asked for and of packets sent.
 */
module PacketNat {
  import opened Prelude
  import opened Address

  /** One AddMapping: the destination's key, its own address, and the address it resolved to. */
  datatype Mapping = Mapping(key: string, origin: Addr, target: Addr)

  /** A packet for the destination `key` written to `addr`, which was taken up after `known` mappings. */
  datatype Sent = Sent(key: string, addr: Addr, known: nat)

  /** What handling and resolving a packet's metadata gives. */
  datatype Resolution = ResolveFailed | Resolved(ip: Addr)

  function Lookup<K>(m: map<K, Addr>, k: K): Addr {
    if k in m then m[k] else Invalid
  }

  /** The target of the earliest mapping of k that has one. */
  ghost function FirstTarget(h: seq<Mapping>, k: string): Addr {
    if h == [] then Invalid
    else if h[0].key == k && h[0].target.IsValid() then h[0].target
    else FirstTarget(h[1..], k)
  }

  /** The origin of the earliest mapping to t that has one. */
  ghost function FirstOrigin(h: seq<Mapping>, t: Addr): Addr {
    if h == [] then Invalid
    else if h[0].target == t && h[0].origin.IsValid() then h[0].origin
    else FirstOrigin(h[1..], t)
  }

  lemma {:induction false} FirstTargetExtends(h: seq<Mapping>, more: seq<Mapping>, k: string)
    ensures FirstTarget(h + more, k) == if FirstTarget(h, k).IsValid() then FirstTarget(h, k) else FirstTarget(more, k)
  {
    if h == [] {
      assert h + more == more;
    } else {
      assert (h + more)[1..] == h[1..] + more;
      FirstTargetExtends(h[1..], more, k);
    }
  }

  lemma {:induction false} FirstOriginExtends(h: seq<Mapping>, more: seq<Mapping>, t: Addr)
    ensures FirstOrigin(h + more, t) == if FirstOrigin(h, t).IsValid() then FirstOrigin(h, t) else FirstOrigin(more, t)
  {
    if h == [] {
      assert h + more == more;
    } else {
      assert (h + more)[1..] == h[1..] + more;
      FirstOriginExtends(h[1..], more, t);
    }
  }

  /** The reading of FirstTarget and FirstOrigin as "the earliest". */
  lemma {:induction false} FirstTargetIsEarliest(h: seq<Mapping>, k: string) returns (n: nat)
    ensures if FirstTarget(h, k).IsValid()
      then
        && n < |h| && h[n].key == k && h[n].target == FirstTarget(h, k)
        && forall m :: 0 <= m < n && h[m].key == k ==> !h[m].target.IsValid()
      else forall m :: 0 <= m < |h| && h[m].key == k ==> !h[m].target.IsValid()
  {
    if h == [] || (h[0].key == k && h[0].target.IsValid()) {
      n := 0;
    } else {
      var r := FirstTargetIsEarliest(h[1..], k);
      n := r + 1;
      forall m | 0 <= m < |h| && h[m].key == k && (FirstTarget(h, k).IsValid() ==> m < n)
        ensures !h[m].target.IsValid()
      {
        if m > 0 {
          assert h[1..][m - 1] == h[m];
        }
      }
    }
  }

  lemma {:induction false} FirstOriginIsEarliest(h: seq<Mapping>, t: Addr) returns (n: nat)
    ensures if FirstOrigin(h, t).IsValid()
      then
        && n < |h| && h[n].target == t && h[n].origin == FirstOrigin(h, t)
        && forall m :: 0 <= m < n && h[m].target == t ==> !h[m].origin.IsValid()
      else forall m :: 0 <= m < |h| && h[m].target == t ==> !h[m].origin.IsValid()
  {
    if h == [] || (h[0].target == t && h[0].origin.IsValid()) {
      n := 0;
    } else {
      var r := FirstOriginIsEarliest(h[1..], t);
      n := r + 1;
      forall m | 0 <= m < |h| && h[m].target == t && (FirstOrigin(h, t).IsValid() ==> m < n)
        ensures !h[m].origin.IsValid()
      {
        if m > 0 {
          assert h[1..][m - 1] == h[m];
        }
      }
    }
  }

  class PacketSender {
    var originToTarget: map<string, Addr>
    var targetToOrigin: map<Addr, Addr>
    ghost var mappings: seq<Mapping>
    ghost var sent: seq<Sent>

    /** The two maps are what the mappings asked for so far make of them. */
    ghost predicate Valid()
      reads this
    {
      && (forall k :: Lookup(originToTarget, k) == FirstTarget(mappings, k))
      && (forall t :: Lookup(targetToOrigin, t) == FirstOrigin(mappings, t))
      && AllSentToTarget(sent, mappings)
    }

    constructor ()
      ensures Valid() && mappings == [] && sent == []
    {
      originToTarget, targetToOrigin := map[], map[];
      mappings, sent := [], [];
    }

    method AddMapping(originKey: string, originAddr: Addr, targetAddr: Addr)
      requires Valid()
      modifies this
      ensures Valid()
      ensures mappings == old(mappings) + [Mapping(originKey, originAddr, targetAddr)] && sent == old(sent)
    {
      ghost var m := Mapping(originKey, originAddr, targetAddr);
      if !Lookup(originToTarget, originKey).IsValid() {
        originToTarget := originToTarget[originKey := targetAddr];
      }
      if !Lookup(targetToOrigin, targetAddr).IsValid() {
        targetToOrigin := targetToOrigin[targetAddr := originAddr];
      }
      mappings := mappings + [m];
      forall k ensures Lookup(originToTarget, k) == FirstTarget(mappings, k) {
        FirstTargetExtends(old(mappings), [m], k);
      }
      forall t ensures Lookup(targetToOrigin, t) == FirstOrigin(mappings, t) {
        FirstOriginExtends(old(mappings), [m], t);
      }
      TargetsStay(sent, old(mappings), [m]);
    }

    /** A reply from addr is shown under the earliest destination mapped to it. */
    method RestoreReadFrom(addr: Addr) returns (r: Addr)
      requires Valid()
      ensures r == if FirstOrigin(mappings, addr).IsValid() then FirstOrigin(mappings, addr) else addr
      ensures addr.IsValid() ==> r.IsValid()
    {
      var originAddr := Lookup(targetToOrigin, addr);
      if originAddr.IsValid() {
        return originAddr;
      }
      return addr;
    }

    /** processPacket up to the write; None when the packet is dropped without being sent. */
    method ProcessPacket(key: string, dstIP: Addr, resolution: Resolution) returns (to: Option<Addr>)
      requires Valid()
      modifies this
      ensures Valid()
      ensures FirstTarget(old(mappings), key).IsValid() ==>
        to == Some(FirstTarget(old(mappings), key)) && mappings == old(mappings)
      ensures !FirstTarget(old(mappings), key).IsValid() ==>
        if resolution.Resolved? && resolution.ip.IsValid()
        then to == Some(resolution.ip.Unmap()) && mappings == old(mappings) + [Mapping(key, dstIP, resolution.ip)]
        else to.None? && mappings == old(mappings)
      ensures sent == if to.Some? then old(sent) + [Sent(key, to.value, |old(mappings)|)] else old(sent)
    {
      ghost var known := mappings;
      WholePrefix(known);
      var targetAddr := Lookup(originToTarget, key);
      if targetAddr.IsValid() {
        to := Some(targetAddr);
      } else {
        if resolution.ResolveFailed? || !resolution.ip.IsValid() {
          return None;
        }
        UnmappedUnsent(sent, mappings, key);
        ghost var all := mappings + [Mapping(key, dstIP, resolution.ip)];
        assert all[..|known|] == known;
        AddMapping(key, dstIP, resolution.ip);
        FirstTargetExtends(old(mappings), [Mapping(key, dstIP, resolution.ip)], key);
        to := Some(resolution.ip.Unmap());
      }
      SentGrows(sent, mappings, Sent(key, to.value, |known|));
      sent := sent + [Sent(key, to.value, |known|)];
    }
  }

  /** No packet for the same destination was sent before the n-th. */
  ghost predicate IsFirst(sent: seq<Sent>, n: nat)
    requires n < |sent|
  {
    forall m :: 0 <= m < n ==> sent[m].key != sent[n].key
  }

  /** When the packet was taken up its destination had an address. */
  ghost predicate MetMapping(h: seq<Mapping>, x: Sent) {
    x.known <= |h| && FirstTarget(h[..x.known], x.key).IsValid()
  }

  /**
   * Each packet went to the address its destination is mapped to, or, if it was taken up
   * without one, to that address unwrapped; then no packet was sent there before it.
   */
  ghost predicate WentToTarget(sent: seq<Sent>, h: seq<Mapping>, n: nat)
    requires n < |sent|
  {
    var x, target := sent[n], FirstTarget(h, sent[n].key);
    && target.IsValid() && x.known <= |h|
    && (if MetMapping(h, x) then x.addr == target else IsFirst(sent, n) && x.addr == target.Unmap())
  }

  ghost predicate AllSentToTarget(sent: seq<Sent>, h: seq<Mapping>) {
    forall n :: 0 <= n < |sent| ==> WentToTarget(sent, h, n)
  }

  lemma {:induction false} TargetsStay(sent: seq<Sent>, h: seq<Mapping>, more: seq<Mapping>)
    requires AllSentToTarget(sent, h)
    ensures AllSentToTarget(sent, h + more)
  {
    forall n | 0 <= n < |sent| ensures WentToTarget(sent, h + more, n) {
      assert WentToTarget(sent, h, n);
      FirstTargetExtends(h, more, sent[n].key);
      assert (h + more)[..sent[n].known] == h[..sent[n].known];
    }
  }

  /** One more packet, to its destination's address or, if none was sent there before, to that address unwrapped. */
  lemma {:induction false} SentGrows(sent: seq<Sent>, h: seq<Mapping>, x: Sent)
    requires AllSentToTarget(sent, h) && FirstTarget(h, x.key).IsValid() && x.known <= |h|
    requires if MetMapping(h, x) then x.addr == FirstTarget(h, x.key)
      else x.addr == FirstTarget(h, x.key).Unmap() && NoneSent(sent, x.key)
    ensures AllSentToTarget(sent + [x], h)
  {
    forall n | 0 <= n < |sent + [x]| ensures WentToTarget(sent + [x], h, n) {
      if n < |sent| {
        assert WentToTarget(sent, h, n);
      }
    }
  }

  ghost predicate NoneSent(sent: seq<Sent>, key: string) {
    forall n :: 0 <= n < |sent| ==> sent[n].key != key
  }

  /** A destination without an address has had no packet sent to it. */
  lemma {:induction false} UnmappedUnsent(sent: seq<Sent>, h: seq<Mapping>, key: string)
    requires AllSentToTarget(sent, h) && !FirstTarget(h, key).IsValid()
    ensures NoneSent(sent, key)
  {
    forall n | 0 <= n < |sent| ensures sent[n].key != key {
      assert WentToTarget(sent, h, n);
    }
  }

  /**
   * Over a whole run, two packets for one destination go to the same address, exactly unless
   * the earlier one was taken up before its destination was mapped and the address it was
   * then mapped to wraps an IPv4 one. The later one always goes to the mapped address.
   */
  lemma OneDestinationOneAddress(sent: seq<Sent>, h: seq<Mapping>, m: nat, n: nat)
    requires AllSentToTarget(sent, h) && m < n < |sent| && sent[m].key == sent[n].key
    ensures sent[n].addr == FirstTarget(h, sent[n].key)
    ensures sent[m].addr != sent[n].addr <==> !MetMapping(h, sent[m]) && FirstTarget(h, sent[n].key).IsMapped()
    ensures !MetMapping(h, sent[m]) ==> IsFirst(sent, m)
  {
    assert WentToTarget(sent, h, m) && WentToTarget(sent, h, n);
  }

  /** A reply is never shown under an address that was not mapped to its sender. */
  lemma RestoredWasMapped(h: seq<Mapping>, t: Addr)
    requires FirstOrigin(h, t).IsValid()
    ensures exists m :: m in h && m.target == t && m.origin == FirstOrigin(h, t)
  {
    var n := FirstOriginIsEarliest(h, t);
    assert h[n] in h;
  }
}
