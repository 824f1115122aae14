/**
 * UDP over a VLESS stream (core/Clash.Meta/adapter/outbound/vless.go): payloads are cut into
 * frames with a two-byte length, and read back through buffers of any size.
 *
 * The stream is a sequence of bytes. A write fails when a budget of bytes is used up, a read
 * hands over as many bytes as a grant allows; both come from outside.
 */
module Vless {
  import opened Prelude
  import opened Address

  const MAX_LENGTH := 8192

  function Min(a: nat, b: nat): nat {
    if a < b then a else b
  }

  function Header(length: nat): (h: seq<byte>)
    ensures |h| == 2
  {
    [(length % 65536 / 256) as byte, (length % 256) as byte]
  }

  function LengthOf(high: byte, low: byte): (n: nat)
    ensures n < 65536
  {
    high as int * 256 + low as int
  }

  /** The frames on the stream, one after the other. */
  ghost function Encode(frames: seq<seq<byte>>): seq<byte> {
    if frames == [] then [] else Header(|frames[0]|) + frames[0] + Encode(frames[1..])
  }

  /** How a payload is cut. */
  ghost function Chunks(b: seq<byte>): (r: seq<seq<byte>>)
    ensures forall i :: 0 <= i < |r| ==> 1 <= |r[i]| <= MAX_LENGTH
    ensures b == [] <==> r == []
    decreases |b|
  {
    if b == [] then [] else
      var k := Min(|b|, MAX_LENGTH);
      [b[..k]] + Chunks(b[k..])
  }

  ghost function Flatten(parts: seq<seq<byte>>): seq<byte> {
    if parts == [] then [] else parts[0] + Flatten(parts[1..])
  }

  /** The payload bytes that the first `budget` bytes of a payload's frames hold. */
  ghost function PayloadIn(total: nat, budget: nat): (n: nat)
    ensures n <= total
  {
    if total == 0 || budget < 2 then 0
    else
      var k := Min(total, MAX_LENGTH);
      if budget - 2 < k then budget - 2 else k + PayloadIn(total - k, budget - 2 - k)
  }

  /** What a read does to the connection; `data` are the bytes put into the buffer. */
  datatype Reading = Reading(remain: nat, input: seq<byte>, data: seq<byte>, ok: bool)

  /**
   * One ReadFrom with a buffer of `size` bytes whose second byte was `stale`: in the middle of
   * a frame a plain read, otherwise a header, of which `header` bytes arrive, and a full read.
   */
  ghost function Read(remain: nat, input: seq<byte>, size: nat, stale: byte, header: nat, grant: nat): (r: Reading)
    requires 1 <= header <= 2
    ensures |r.data| <= size
  {
    if input == [] then Reading(remain, input, [], false)
    else if remain > 0 then
      var n := Min(grant, Min(Min(size, remain), |input|));
      Reading(remain - n, input[n..], input[..n], true)
    else
      var h := Min(header, |input|);
      var total := LengthOf(input[0], if h == 2 then input[1] else stale);
      var length := Min(size, total);
      if total == 0 then Reading(0, input[h..], [], true)
      else if |input| - h < length then Reading(0, [], [], false)
      else Reading(total - length, input[h + length..], input[h..h + length], true)
  }

  class PacketConn {
    var remain: nat
    var input: seq<byte>
    var output: seq<byte>

    constructor (input: seq<byte>)
      ensures remain == 0 && this.input == input && output == []
    {
      remain, this.input, output := 0, input, [];
    }

    /** The stream takes what the budget allows, and reports failure if that is not all. */
    method Write(p: seq<byte>, budget: nat) returns (n: nat, ok: bool)
      modifies this`output
      ensures n == Min(|p|, budget) && output == old(output) + p[..n]
      ensures ok <==> |p| <= budget
    {
      n := Min(|p|, budget);
      output := output + p[..n];
      ok := |p| <= budget;
    }

    method WritePacket(payload: seq<byte>, budget: nat) returns (n: nat, ok: bool)
      modifies this`output
      ensures output == old(output) + (Header(|payload|) + payload)[..Min(|payload| + 2, budget)]
      ensures n == if budget < 2 then 0 else Min(|payload|, budget - 2)
      ensures ok <==> |payload| + 2 <= budget
    {
      var header := Header(|payload|);
      ghost var all := header + payload;
      ghost var before := output;
      var m, sent := Write(header, budget);
      if !sent {
        assert header[..m] == all[..m];
        return 0, false;
      }
      assert header[..m] == header;
      n, ok := Write(payload, budget - 2);
      assert all[..n + 2] == header + payload[..n];
      assert output == before + all[..n + 2];
    }

    /** The frame at one offset goes out. */
    method SendChunk(b: seq<byte>, offset: nat, left: nat, ghost before: seq<byte>, ghost budget: nat)
      returns (n: nat, ok: bool)
      requires offset < |b| && OnTheWay(before, output, b, budget, offset, left)
      modifies this`output
      ensures ok ==> n == |ChunkAt(b, offset)| && n + 2 <= left
      ensures ok ==> OnTheWay(before, output, b, budget, offset + n, left - (n + 2))
      ensures !ok ==> CutOff(before, output, b, budget, offset + n)
    {
      ghost var out := output;
      n, ok := WritePacket(b[offset..Min(offset + MAX_LENGTH, |b|)], left);
      assert Header(|ChunkAt(b, offset)|) + ChunkAt(b, offset) == FrameAt(b, offset);
      assert output == out + FrameAt(b, offset)[..Min(|FrameAt(b, offset)|, left)];
      if ok {
        WholePrefix(FrameAt(b, offset));
        NextFrame(before, out, b, budget, offset, left);
      } else {
        BudgetUsedUp(before, out, b, budget, offset, left);
      }
    }

    /** A payload that needs no cutting. */
    method SendWhole(b: seq<byte>, budget: nat, ghost before: seq<byte>) returns (n: nat, ok: bool)
      requires 0 < |b| <= MAX_LENGTH && output == before
      modifies this`output
      ensures ok ==> n == |b| && AllOut(before, output, b, budget)
      ensures !ok ==> CutOff(before, output, b, budget, n)
    {
      AtStart(before, b, budget);
      n, ok := SendChunk(b, 0, budget, before, budget);
      if ok {
        AllSent(before, output, b, budget, budget - (n + 2));
      }
    }

    /** The loop over the frames. */
    method SendChunks(b: seq<byte>, budget: nat, ghost before: seq<byte>) returns (n: nat, ok: bool)
      requires b != [] && output == before
      modifies this`output
      ensures ok ==> n == |b| && AllOut(before, output, b, budget)
      ensures !ok ==> CutOff(before, output, b, budget, n)
    {
      var total := |b|;
      var offset := 0;
      var left: nat := budget;
      AtStart(before, b, budget);
      while offset < total
        invariant offset <= total && OnTheWay(before, output, b, budget, offset, left)
      {
        n, ok := SendChunk(b, offset, left, before, budget);
        if !ok {
          return offset + n, false;
        }
        left := left - (n + 2);
        offset := offset + n;
      }
      AllSent(before, output, b, budget, left);
      return total, true;
    }

    /** The frames of the payload go out up to the budget; the count returned is that of payload bytes among them. */
    method WriteTo(b: seq<byte>, budget: nat) returns (n: nat, ok: bool)
      modifies this`output
      ensures output == old(output) + Encode(Chunks(b))[..Min(|Encode(Chunks(b))|, budget)]
      ensures ok <==> |Encode(Chunks(b))| <= budget
      ensures n == if ok then |b| else PayloadIn(|b|, budget)
    {
      if |b| == 0 {
        return 0, true;
      }
      if |b| <= MAX_LENGTH {
        n, ok := SendWhole(b, budget, output);
      } else {
        n, ok := SendChunks(b, budget, output);
      }
    }

    /** The buffer is filled in place; only its first bytes are given a meaning by the result. */
    method ReadFrom(b: array<byte>, header: nat, grant: nat) returns (n: nat, ok: bool)
      requires remain > 0 || b.Length >= 2
      requires 1 <= header <= 2
      modifies this`remain, this`input, b
      ensures var r := Read(old(remain), old(input), b.Length, if b.Length >= 2 then old(b[1]) else 0, header, grant);
        remain == r.remain && input == r.input && n == |r.data| && n <= b.Length && b[..n] == r.data && ok == r.ok
    {
      if input == [] {
        return 0, false;
      }
      if remain > 0 {
        var length := Min(b.Length, remain);
        n := Min(grant, Min(length, |input|));
        Fill(b, input[..n]);
        input := input[n..];
        remain := remain - n;
        return n, true;
      }
      var h := Min(header, |input|);
      Fill(b, input[..h]);
      input := input[h..];
      var total := LengthOf(b[0], b[1]);
      assert total == LengthOf(old(input)[0], if h == 2 then old(input)[1] else old(b[1]));
      if total == 0 {
        return 0, true;
      }
      var length := Min(b.Length, total);
      if |input| < length {
        Fill(b, input);
        input := [];
        return 0, false;
      }
      assert input[..length] == old(input)[h..h + length] && input[length..] == old(input)[h + length..];
      Fill(b, input[..length]);
      input := input[length..];
      remain := total - length;
      return length, true;
    }
  }

  method Fill(b: array<byte>, data: seq<byte>)
    requires |data| <= b.Length
    modifies b
    ensures b[..|data|] == data
    ensures b[|data|..] == old(b[|data|..])
  {
    for i := 0 to |data|
      invariant forall k :: |data| <= k < b.Length ==> b[k] == old(b[k])
      invariant forall k :: 0 <= k < i ==> b[k] == data[k]
    {
      b[i] := data[i];
    }
  }

  // ----- writing -----

  ghost function ChunkAt(b: seq<byte>, offset: nat): (r: seq<byte>)
    requires offset <= |b|
    ensures |r| == Min(|b| - offset, MAX_LENGTH)
  {
    b[offset..Min(offset + MAX_LENGTH, |b|)]
  }

  ghost function FrameAt(b: seq<byte>, offset: nat): (r: seq<byte>)
    requires offset <= |b|
    ensures |r| == 2 + |ChunkAt(b, offset)|
  {
    Header(|ChunkAt(b, offset)|) + ChunkAt(b, offset)
  }

  lemma FirstChunk(b: seq<byte>, offset: nat)
    requires offset < |b|
    ensures Encode(Chunks(b[offset..])) == FrameAt(b, offset) + Encode(Chunks(b[offset + |ChunkAt(b, offset)|..]))
  {
    var cursor := Min(offset + MAX_LENGTH, |b|);
    var rest := b[offset..];
    assert rest[..cursor - offset] == b[offset..cursor];
    assert rest[cursor - offset..] == b[cursor..];
  }

  /** The first `sent` bytes of `all` are out, and `rest` is not. */
  ghost predicate BytesOut(before: seq<byte>, out: seq<byte>, all: seq<byte>, rest: seq<byte>, sent: nat) {
    sent <= |all| && all[sent..] == rest && out == before + all[..sent]
  }

  /** The first `offset` bytes of the payload are out, in whole frames, and `left` bytes of the budget are left. */
  ghost predicate OnTheWay(before: seq<byte>, out: seq<byte>, b: seq<byte>, budget: nat, offset: nat, left: nat) {
    && offset <= |b| && left <= budget
    && BytesOut(before, out, Encode(Chunks(b)), Encode(Chunks(b[offset..])), budget - left)
    && Counted(|b|, budget, offset, left)
  }

  ghost predicate Counted(total: nat, budget: nat, offset: nat, left: nat) {
    offset <= total && PayloadIn(total, budget) == offset + PayloadIn(total - offset, left)
  }

  lemma CountedOn(total: nat, budget: nat, offset: nat, left: nat)
    requires Counted(total, budget, offset, left) && offset < total
    ensures var k := Min(total - offset, MAX_LENGTH); k + 2 <= left ==>
      Counted(total, budget, offset + k, left - (k + 2))
  {
    PayloadNext(total - offset, left);
  }

  ghost predicate AllOut(before: seq<byte>, out: seq<byte>, b: seq<byte>, budget: nat) {
    |Encode(Chunks(b))| <= budget && out == before + Encode(Chunks(b))[..|Encode(Chunks(b))|]
  }

  /** The budget is used up, with n bytes of the payload out. */
  ghost predicate CutOff(before: seq<byte>, out: seq<byte>, b: seq<byte>, budget: nat, n: nat) {
    && budget < |Encode(Chunks(b))|
    && out == before + Encode(Chunks(b))[..budget]
    && n == PayloadIn(|b|, budget)
  }

  lemma AtStart(before: seq<byte>, b: seq<byte>, budget: nat)
    ensures OnTheWay(before, before, b, budget, 0, budget)
  {
    assert b[0..] == b;
    assert before + [] == before;
  }

  lemma PartOut(before: seq<byte>, out: seq<byte>, all: seq<byte>, piece: seq<byte>, rest: seq<byte>, sent: nat,
                taken: nat)
    requires BytesOut(before, out, all, piece + rest, sent) && taken <= |piece|
    ensures sent + taken <= |all| && out + piece[..taken] == before + all[..sent + taken]
  {
    assert piece[..taken] == all[sent..][..taken] == all[sent..sent + taken];
    assert all[..sent] + all[sent..sent + taken] == all[..sent + taken];
    AppendAssociates(before, all[..sent], piece[..taken]);
  }

  lemma PieceOut(before: seq<byte>, out: seq<byte>, all: seq<byte>, piece: seq<byte>, rest: seq<byte>, sent: nat)
    requires BytesOut(before, out, all, piece + rest, sent)
    ensures BytesOut(before, out + piece, all, rest, sent + |piece|)
  {
    PartOut(before, out, all, piece, rest, sent, |piece|);
    WholePrefix(piece);
    assert all[sent..][|piece|..] == all[sent + |piece|..];
  }

  lemma BudgetUsedUp(before: seq<byte>, out: seq<byte>, b: seq<byte>, budget: nat, offset: nat, left: nat)
    requires offset < |b| && OnTheWay(before, out, b, budget, offset, left)
    requires left < |FrameAt(b, offset)|
    ensures CutOff(before, out + FrameAt(b, offset)[..left], b, budget, offset + if left < 2 then 0 else left - 2)
  {
    FirstChunk(b, offset);
    var all, rest := Encode(Chunks(b)), Encode(Chunks(b[offset + |ChunkAt(b, offset)|..]));
    PartOut(before, out, all, FrameAt(b, offset), rest, budget - left, left);
    PartOut(before, out, all, FrameAt(b, offset), rest, budget - left, left + 1);
    PayloadNext(|b| - offset, left);
  }

  lemma NextBytes(before: seq<byte>, out: seq<byte>, b: seq<byte>, offset: nat, sent: nat)
    requires offset < |b| && BytesOut(before, out, Encode(Chunks(b)), Encode(Chunks(b[offset..])), sent)
    ensures BytesOut(before, out + FrameAt(b, offset), Encode(Chunks(b)),
      Encode(Chunks(b[offset + |ChunkAt(b, offset)|..])), sent + |FrameAt(b, offset)|)
  {
    FirstChunk(b, offset);
    var rest := Encode(Chunks(b[offset + |ChunkAt(b, offset)|..]));
    PieceOut(before, out, Encode(Chunks(b)), FrameAt(b, offset), rest, sent);
  }

  lemma NextFrame(before: seq<byte>, out: seq<byte>, b: seq<byte>, budget: nat, offset: nat, left: nat)
    requires offset < |b| && OnTheWay(before, out, b, budget, offset, left)
    requires |FrameAt(b, offset)| <= left
    ensures var k := |ChunkAt(b, offset)|;
      OnTheWay(before, out + FrameAt(b, offset), b, budget, offset + k, left - |FrameAt(b, offset)|)
  {
    NextBytes(before, out, b, offset, budget - left);
    CountedOn(|b|, budget, offset, left);
  }

  lemma AllSent(before: seq<byte>, out: seq<byte>, b: seq<byte>, budget: nat, left: nat)
    requires OnTheWay(before, out, b, budget, |b|, left)
    ensures AllOut(before, out, b, budget)
  {
    assert b[|b|..] == [];
  }

  /** A payload is cut every 8192 bytes: all its frames are full but for the last. */
  lemma {:induction false} ChunksAre(b: seq<byte>)
    ensures |Chunks(b)| == (|b| + 8191) / 8192
    ensures forall i :: 0 <= i < |Chunks(b)| ==>
      i * 8192 < |b| && Chunks(b)[i] == b[i * 8192..if (i + 1) * 8192 < |b| then (i + 1) * 8192 else |b|]
    decreases |b|
  {
    if b != [] {
      var k := Min(|b|, MAX_LENGTH);
      ChunksAre(b[k..]);
      forall i | 0 <= i < |Chunks(b)|
        ensures i * 8192 < |b| && Chunks(b)[i] == b[i * 8192..if (i + 1) * 8192 < |b| then (i + 1) * 8192 else |b|]
      {
        if i > 0 {
          assert Chunks(b)[i] == Chunks(b[k..])[i - 1];
          ChunkBehind(b, i);
        }
      }
    }
  }

  lemma ChunkBehind(b: seq<byte>, i: nat)
    requires i > 0 && |b| > 8192 && (i - 1) * 8192 < |b| - 8192
    ensures var rest := b[8192..];
      rest[(i - 1) * 8192..if i * 8192 < |rest| then i * 8192 else |rest|]
        == b[i * 8192..if (i + 1) * 8192 < |b| then (i + 1) * 8192 else |b|]
  {
  }

  // ----- what comes out of the stream -----

  lemma SplitInBytes(n: int)
    requires 0 <= n < 65536
    ensures n % 65536 == n && 0 <= n / 256 < 256 && n / 256 * 256 + n % 256 == n
  {
  }

  lemma LengthSurvives(n: nat)
    requires n < 65536
    ensures LengthOf(Header(n)[0], Header(n)[1]) == n
  {
    SplitInBytes(n);
    assert Header(n)[0] as int == n / 256 && Header(n)[1] as int == n % 256;
  }

  ghost predicate Framable(frames: seq<seq<byte>>) {
    forall i :: 0 <= i < |frames| ==> |frames[i]| < 65536
  }

  ghost predicate Place(frames: seq<seq<byte>>, started: nat, remain: nat) {
    && started <= |frames|
    && (started == 0 ==> remain == 0)
    && (started > 0 ==> remain <= |frames[started - 1]|)
  }

  /** `started` frames have been begun, and of the last one `remain` bytes are still in the stream. */
  ghost predicate At(frames: seq<seq<byte>>, started: nat, remain: nat, input: seq<byte>) {
    Place(frames, started, remain) && input == Left(frames, started, remain) + Encode(frames[started..])
  }

  ghost function Left(frames: seq<seq<byte>>, started: nat, remain: nat): (r: seq<byte>)
    requires Place(frames, started, remain)
    ensures |r| == remain
  {
    if started == 0 then [] else frames[started - 1][|frames[started - 1]| - remain..]
  }

  /** Everything handed over by then. */
  ghost function Delivered(frames: seq<seq<byte>>, started: nat, remain: nat): seq<byte>
    requires Place(frames, started, remain)
  {
    if started == 0 then []
    else Flatten(frames[..started - 1]) + frames[started - 1][..|frames[started - 1]| - remain]
  }

  lemma {:induction false} FlattenSnoc(parts: seq<seq<byte>>, last: seq<byte>)
    ensures Flatten(parts + [last]) == Flatten(parts) + last
  {
    if parts == [] {
      assert parts + [last] == [last];
    } else {
      FlattenSnoc(parts[1..], last);
      assert (parts + [last])[1..] == parts[1..] + [last];
      AppendAssociates(parts[0], Flatten(parts[1..]), last);
    }
  }

  lemma DeliveredWhole(frames: seq<seq<byte>>, started: nat)
    requires started <= |frames|
    ensures Delivered(frames, started, 0) == Flatten(frames[..started])
  {
    if started > 0 {
      PrefixGrows(frames, started - 1);
      FlattenSnoc(frames[..started - 1], frames[started - 1]);
    }
  }

  /** The bytes of a frame that a read starting at `from` hands over. */
  ghost predicate PartOf(frames: seq<seq<byte>>, j: int, from: int, data: seq<byte>) {
    0 <= j < |frames| && 0 <= from && from + |data| <= |frames[j]| && data == frames[j][from..from + |data|]
  }

  /** A read hands over the next bytes of one frame, the last one that has begun by then. */
  ghost predicate Handed(frames: seq<seq<byte>>, started: nat, remain: nat, begun: nat, r: Reading) {
    && Place(frames, started, remain)
    && At(frames, begun, r.remain, r.input)
    && Delivered(frames, begun, r.remain) == Delivered(frames, started, remain) + r.data
    && begun > 0 && PartOf(frames, begun - 1, |frames[begun - 1]| - r.remain - |r.data|, r.data)
  }

  type HeaderCount = n: int | 1 <= n <= 2 witness 2

  /**
   * A read: the size of its buffer, what its second byte was, how many bytes of a header
   * arrive at once, and how many of a payload the connection grants.
   */
  datatype Attempt = Attempt(size: nat, stale: byte, header: HeaderCount, grant: nat)

  ghost function Try(remain: nat, input: seq<byte>, a: Attempt): Reading {
    Read(remain, input, a.size, a.stale, a.header, a.grant)
  }

  /** No read gets half a header. */
  ghost predicate WholeHeaders(attempts: seq<Attempt>) {
    forall i :: 0 <= i < |attempts| ==> attempts[i].header == 2
  }

  lemma PlainRead(f: seq<byte>, remain: nat, rest: seq<byte>, input: seq<byte>, n: nat)
    requires n <= remain <= |f| && input == f[|f| - remain..] + rest
    ensures input[..n] == f[|f| - remain..|f| - remain + n]
    ensures input[n..] == f[|f| - (remain - n)..] + rest
    ensures f[..|f| - (remain - n)] == f[..|f| - remain] + input[..n]
  {
  }

  lemma StillAt(frames: seq<seq<byte>>, started: nat, remain: nat, input: seq<byte>, n: nat)
    requires At(frames, started, remain, input) && n <= remain && 0 < remain
    ensures n <= |input| && At(frames, started, remain - n, input[n..])
  {
    PlainRead(frames[started - 1], remain, Encode(frames[started..]), input, n);
  }

  lemma DeliveredOn(frames: seq<seq<byte>>, started: nat, remain: nat, input: seq<byte>, n: nat)
    requires At(frames, started, remain, input) && n <= remain && 0 < remain
    ensures n <= |input| && Delivered(frames, started, remain - n) == Delivered(frames, started, remain) + input[..n]
  {
    var f := frames[started - 1];
    PlainRead(f, remain, Encode(frames[started..]), input, n);
    AppendAssociates(Flatten(frames[..started - 1]), f[..|f| - remain], input[..n]);
  }

  lemma TakenFromFrame(frames: seq<seq<byte>>, started: nat, remain: nat, input: seq<byte>, n: nat)
    requires At(frames, started, remain, input) && n <= remain && 0 < remain
    ensures n <= |input| && PartOf(frames, started - 1, |frames[started - 1]| - remain, input[..n])
  {
    PlainRead(frames[started - 1], remain, Encode(frames[started..]), input, n);
  }

  lemma HandedOn(frames: seq<seq<byte>>, started: nat, remain: nat, input: seq<byte>, n: nat)
    requires At(frames, started, remain, input) && n <= remain && 0 < remain
    ensures n <= |input| && Handed(frames, started, remain, started, Reading(remain - n, input[n..], input[..n], true))
  {
    StillAt(frames, started, remain, input, n);
    DeliveredOn(frames, started, remain, input, n);
    TakenFromFrame(frames, started, remain, input, n);
  }

  lemma TryOn(remain: nat, input: seq<byte>, a: Attempt) returns (n: nat)
    requires 0 < remain <= |input|
    ensures n <= remain && Try(remain, input, a) == Reading(remain - n, input[n..], input[..n], true)
  {
    n := Min(a.grant, Min(Min(a.size, remain), |input|));
  }

  lemma ReadOn(frames: seq<seq<byte>>, started: nat, remain: nat, input: seq<byte>, a: Attempt)
    requires At(frames, started, remain, input) && remain > 0
    ensures Try(remain, input, a).ok
    ensures Handed(frames, started, remain, started, Try(remain, input, a))
  {
    var n := TryOn(remain, input, a);
    HandedOn(frames, started, remain, input, n);
  }

  lemma ReadFrame(f: seq<byte>, rest: seq<byte>, a: Attempt)
    requires a.header == 2
    requires |f| < 65536
    ensures var length := Min(a.size, |f|);
      Try(0, Header(|f|) + f + rest, a)
        == Reading(|f| - length, f[length..] + rest, f[..length], true)
  {
    var length := Min(a.size, |f|);
    var input := Header(|f|) + f + rest;
    LengthSurvives(|f|);
    assert input[2..] == f + rest;
    assert input[2 + length..] == f[length..] + rest;
    assert input[2..2 + length] == f[..length];
  }

  /** In the middle of a frame a read takes as much as is granted, fits and is left of the frame. */
  lemma ReadOnTakes(frames: seq<seq<byte>>, started: nat, remain: nat, input: seq<byte>, a: Attempt)
    requires At(frames, started, remain, input) && remain > 0
    ensures |Try(remain, input, a).data| ==
      if a.grant <= a.size && a.grant <= remain then a.grant else if a.size <= remain then a.size else remain
    ensures Try(remain, input, a).remain == remain - |Try(remain, input, a).data|
  {
  }

  /** A read of a whole header fails exactly if the stream ends before the buffer or the frame is full. */
  lemma ReadFailsIff(input: seq<byte>, a: Attempt)
    requires a.header == 2 && |input| >= 2
    ensures var length := input[0] as int * 256 + input[1] as int;
      !Try(0, input, a).ok <==> |input| - 2 < (if a.size < length then a.size else length)
  {
  }

  /** With buffers that hold the frames and whole headers the i-th read hands over the i-th frame. */
  lemma {:induction false} FrameByFrame(frames: seq<seq<byte>>, attempts: seq<Attempt>, i: nat)
    requires Framable(frames) && WholeHeaders(attempts) && i < |attempts| <= |frames|
    requires forall k :: 0 <= k < |attempts| ==> |frames[k]| <= attempts[k].size
    ensures Run(0, Encode(frames), attempts)[i] == Reading(0, Encode(frames[i + 1..]), frames[i], true)
    decreases i
  {
    var f, rest := frames[0], Encode(frames[1..]);
    ReadFrame(f, rest, attempts[0]);
    WholePrefix(f);
    assert f[|f|..] + rest == rest;
    RunHead(0, Encode(frames), attempts);
    if i > 0 {
      FrameByFrame(frames[1..], attempts[1..], i - 1);
      assert frames[1..][i..] == frames[i + 1..];
    }
  }

  lemma ReadNext(frames: seq<seq<byte>>, started: nat, input: seq<byte>, a: Attempt)
    requires a.header == 2
    requires At(frames, started, 0, input) && started < |frames| && Framable(frames)
    ensures Try(0, input, a).ok
    ensures Handed(frames, started, 0, started + 1, Try(0, input, a))
  {
    var f, rest := frames[started], Encode(frames[started + 1..]);
    assert frames[started..][1..] == frames[started + 1..];
    assert input == Header(|f|) + f + rest;
    ReadFrame(f, rest, a);
    DeliveredWhole(frames, started);
    var length := Min(a.size, |f|);
    assert Delivered(frames, started + 1, |f| - length) == Flatten(frames[..started]) + f[..length];
    assert PartOf(frames, started, 0, f[..length]);
  }

  /** A read fails only when everything has been handed over. */
  lemma OneRead(frames: seq<seq<byte>>, started: nat, remain: nat, input: seq<byte>, a: Attempt) returns (begun: nat)
    requires a.header == 2
    requires At(frames, started, remain, input) && Framable(frames)
    ensures var r := Try(remain, input, a);
      if r.ok then Handed(frames, started, remain, begun, r)
      else begun == started && input == [] && r == Reading(remain, input, [], false)
  {
    begun := started;
    if remain > 0 {
      ReadOn(frames, started, remain, input, a);
    } else if started < |frames| {
      ReadNext(frames, started, input, a);
      begun := started + 1;
    } else {
      assert input == [];
    }
  }

  ghost function Run(remain: nat, input: seq<byte>, attempts: seq<Attempt>): (r: seq<Reading>)
    ensures |r| == |attempts|
    decreases |attempts|
  {
    if attempts == [] then []
    else
      var a := attempts[0];
      var r := Try(remain, input, a);
      [r] + Run(r.remain, r.input, attempts[1..])
  }

  ghost function Results(readings: seq<Reading>): seq<byte> {
    if readings == [] then [] else readings[0].data + Results(readings[1..])
  }

  ghost function RemainAfter(remain: nat, readings: seq<Reading>): nat {
    if readings == [] then remain else readings[|readings| - 1].remain
  }

  ghost function InputAfter(input: seq<byte>, readings: seq<Reading>): seq<byte> {
    if readings == [] then input else readings[|readings| - 1].input
  }

  ghost predicate Outcome(frames: seq<seq<byte>>, begun: nat, remain: nat, input: seq<byte>,
                          before: seq<byte>, data: seq<byte>)
  {
    At(frames, begun, remain, input) && Delivered(frames, begun, remain) == before + data
  }

  lemma RunDeliversOne(frames: seq<seq<byte>>, started: nat, remain: nat, input: seq<byte>, a: Attempt)
    returns (begun: nat)
    requires a.header == 2
    requires At(frames, started, remain, input) && Framable(frames)
    ensures var r := Try(remain, input, a);
      Outcome(frames, begun, r.remain, r.input, Delivered(frames, started, remain), r.data)
  {
    begun := OneRead(frames, started, remain, input, a);
  }

  lemma RunHead(remain: nat, input: seq<byte>, attempts: seq<Attempt>)
    requires attempts != []
    ensures var r := Try(remain, input, attempts[0]);
      Run(remain, input, attempts) == [r] + Run(r.remain, r.input, attempts[1..])
  {
  }

  lemma OutcomesJoin(frames: seq<seq<byte>>, begun: nat, remain: nat, input: seq<byte>,
                     r: Reading, rest: seq<Reading>, before: seq<byte>)
    requires Outcome(frames, begun, RemainAfter(r.remain, rest), InputAfter(r.input, rest), before + r.data,
      Results(rest))
    ensures Outcome(frames, begun, RemainAfter(remain, [r] + rest), InputAfter(input, [r] + rest), before,
      Results([r] + rest))
  {
    assert ([r] + rest)[1..] == rest;
    AppendAssociates(before, r.data, Results(rest));
  }

  lemma {:induction false} RunDelivers(frames: seq<seq<byte>>, started: nat, remain: nat, input: seq<byte>,
                                       attempts: seq<Attempt>)
    returns (begun: nat)
    requires WholeHeaders(attempts)
    requires At(frames, started, remain, input) && Framable(frames)
    ensures var rs := Run(remain, input, attempts);
      Outcome(frames, begun, RemainAfter(remain, rs), InputAfter(input, rs), Delivered(frames, started, remain),
        Results(rs))
    decreases |attempts|
  {
    if attempts == [] {
      begun := started;
    } else {
      var r := Try(remain, input, attempts[0]);
      RunHead(remain, input, attempts);
      var mid := RunDeliversOne(frames, started, remain, input, attempts[0]);
      begun := RunDelivers(frames, mid, r.remain, r.input, attempts[1..]);
      var rest := Run(r.remain, r.input, attempts[1..]);
      OutcomesJoin(frames, begun, remain, input, r, rest, Delivered(frames, started, remain));
    }
  }

  /** Each result lies within one frame, and right behind everything handed over before it. */
  lemma ResultInOneFrame(frames: seq<seq<byte>>, attempts: seq<Attempt>, i: nat) returns (j: nat, from: nat)
    requires WholeHeaders(attempts)
    requires Framable(frames) && i < |attempts| && Run(0, Encode(frames), attempts)[i].ok
    ensures PartOf(frames, j, from, Run(0, Encode(frames), attempts)[i].data)
    ensures Results(Run(0, Encode(frames), attempts[..i])) == Flatten(frames[..j]) + frames[j][..from]
  {
    var input := Encode(frames);
    AtBeginning(frames);
    var rs := Run(0, input, attempts[..i]);
    var begun := RunDelivers(frames, 0, 0, input, attempts[..i]);
    RunReaches(0, input, attempts, i);
    j, from := PlaceOfResult(frames, begun, RemainAfter(0, rs), InputAfter(input, rs), attempts[i], Results(rs));
  }

  lemma AtBeginning(frames: seq<seq<byte>>)
    ensures At(frames, 0, 0, Encode(frames))
  {
    assert frames[0..] == frames;
  }

  lemma PlaceOfResult(frames: seq<seq<byte>>, started: nat, remain: nat, input: seq<byte>, a: Attempt,
                      before: seq<byte>)
    returns (j: nat, from: nat)
    requires a.header == 2
    requires Framable(frames) && At(frames, started, remain, input) && Delivered(frames, started, remain) == before
    requires Try(remain, input, a).ok
    ensures PartOf(frames, j, from, Try(remain, input, a).data)
    ensures before == Flatten(frames[..j]) + frames[j][..from]
  {
    var r := Try(remain, input, a);
    var begun := OneRead(frames, started, remain, input, a);
    j, from := begun - 1, |frames[begun - 1]| - r.remain - |r.data|;
    DeliveredCancels(frames, j, from, r, before);
  }

  lemma DeliveredCancels(frames: seq<seq<byte>>, j: nat, from: nat, r: Reading, before: seq<byte>)
    requires PartOf(frames, j, from, r.data) && from + |r.data| + r.remain == |frames[j]|
    requires Delivered(frames, j + 1, r.remain) == before + r.data
    ensures before == Flatten(frames[..j]) + frames[j][..from]
  {
    var head, f, n := Flatten(frames[..j]), frames[j], |r.data|;
    assert f[..from + n] == f[..from] + r.data;
    assert before == (before + r.data)[..|before|];
    assert head + f[..from + n] == before + r.data;
    assert (head + f[..from + n])[..|head| + from] == head + f[..from];
  }

  /** The i-th read starts where the reads before it left off. */
  lemma {:induction false} RunReaches(remain: nat, input: seq<byte>, attempts: seq<Attempt>, i: nat)
    requires i < |attempts|
    ensures var before := Run(remain, input, attempts[..i]);
      Run(remain, input, attempts)[i] == Try(RemainAfter(remain, before), InputAfter(input, before), attempts[i])
    decreases |attempts|
  {
    if i == 0 {
    } else {
      var a := attempts[0];
      var r := Try(remain, input, a);
      RunReaches(r.remain, r.input, attempts[1..], i - 1);
      assert attempts[..i][1..] == attempts[1..][..i - 1];
      assert attempts[..i][0] == a;
    }
  }

  // ----- from payloads to results -----

  ghost function AllChunks(payloads: seq<seq<byte>>): seq<seq<byte>> {
    if payloads == [] then [] else Chunks(payloads[0]) + AllChunks(payloads[1..])
  }

  /** What the writes of payloads, one after the other, put on the stream. */
  ghost function Written(payloads: seq<seq<byte>>): seq<byte> {
    if payloads == [] then [] else Encode(Chunks(payloads[0])) + Written(payloads[1..])
  }

  lemma {:induction false} EncodeConcat(a: seq<seq<byte>>, b: seq<seq<byte>>)
    ensures Encode(a + b) == Encode(a) + Encode(b)
    ensures Flatten(a + b) == Flatten(a) + Flatten(b)
  {
    if a == [] {
      assert a + b == b;
    } else {
      EncodeConcat(a[1..], b);
      assert (a + b)[1..] == a[1..] + b;
      AppendAssociates(Header(|a[0]|) + a[0], Encode(a[1..]), Encode(b));
      AppendAssociates(a[0], Flatten(a[1..]), Flatten(b));
    }
  }

  lemma {:induction false} ChunksJoin(b: seq<byte>)
    ensures Flatten(Chunks(b)) == b
    decreases |b|
  {
    if b == [] {
    } else {
      var k := Min(|b|, MAX_LENGTH);
      ChunksJoin(b[k..]);
      assert Chunks(b)[1..] == Chunks(b[k..]);
      assert b == b[..k] + b[k..];
    }
  }

  lemma {:induction false} WrittenAreFrames(payloads: seq<seq<byte>>)
    ensures Written(payloads) == Encode(AllChunks(payloads))
    ensures Flatten(AllChunks(payloads)) == Flatten(payloads)
    ensures forall i :: 0 <= i < |AllChunks(payloads)| ==> 1 <= |AllChunks(payloads)[i]| <= 8192
  {
    if payloads == [] {
    } else {
      WrittenAreFrames(payloads[1..]);
      EncodeConcat(Chunks(payloads[0]), AllChunks(payloads[1..]));
      ChunksJoin(payloads[0]);
    }
  }

  /**
   * Round trip: for any payloads, any buffer sizes and any grants, the results joined are a
   * beginning of the payloads joined, and all of them once the stream is used up.
   */
  lemma PayloadsArrive(payloads: seq<seq<byte>>, attempts: seq<Attempt>)
    requires WholeHeaders(attempts)
    ensures var rs := Run(0, Written(payloads), attempts);
      && Results(rs) <= Flatten(payloads)
      && (InputAfter(Written(payloads), rs) == [] ==> Results(rs) == Flatten(payloads))
  {
    WrittenAreFrames(payloads);
    var frames := AllChunks(payloads);
    var input := Encode(frames);
    AtBeginning(frames);
    var rs := Run(0, input, attempts);
    var begun := RunDelivers(frames, 0, 0, input, attempts);
    DeliveredIsBeginning(frames, begun, RemainAfter(0, rs), InputAfter(input, rs));
  }

  /** What has been delivered and what is left of the last frame are the frames begun. */
  lemma DeliveredAndLeft(frames: seq<seq<byte>>, started: nat, remain: nat)
    requires Place(frames, started, remain)
    ensures Delivered(frames, started, remain) + Left(frames, started, remain) == Flatten(frames[..started])
  {
    DeliveredWhole(frames, started);
    if started > 0 {
      var f := frames[started - 1];
      assert f[..|f| - remain] + f[|f| - remain..] == f == f[..|f|];
      AppendAssociates(Flatten(frames[..started - 1]), f[..|f| - remain], f[|f| - remain..]);
    }
  }

  lemma EncodeNotEmpty(frames: seq<seq<byte>>)
    ensures frames == [] || |Encode(frames)| >= 2
  {
  }

  lemma NothingLeft(frames: seq<seq<byte>>, started: nat, remain: nat)
    requires At(frames, started, remain, [])
    ensures remain == 0 && started == |frames|
  {
    EncodeNotEmpty(frames[started..]);
  }

  lemma DeliveredIsBeginning(frames: seq<seq<byte>>, started: nat, remain: nat, input: seq<byte>)
    requires At(frames, started, remain, input)
    ensures Delivered(frames, started, remain) <= Flatten(frames)
    ensures input == [] ==> Delivered(frames, started, remain) == Flatten(frames)
  {
    DeliveredAndLeft(frames, started, remain);
    EncodeConcat(frames[..started], frames[started..]);
    assert frames == frames[..started] + frames[started..];
    if input == [] {
      NothingLeft(frames, started, remain);
    }
  }

  // ----- failures -----

  /** What a peer can make of the beginning of a stream: whole frames, and the start of the next one. */
  ghost function Deframed(s: seq<byte>): seq<byte> {
    if |s| < 2 then []
    else
      var total := LengthOf(s[0], s[1]);
      if |s| - 2 <= total then s[2..] else s[2..2 + total] + Deframed(s[2 + total..])
  }

  lemma DeframedCut(chunk: seq<byte>, n: nat)
    requires |chunk| < 65536 && n <= |chunk|
    ensures Deframed(Header(|chunk|) + chunk[..n]) == chunk[..n]
  {
    LengthSurvives(|chunk|);
  }

  lemma DeframedNext(chunk: seq<byte>, rest: seq<byte>)
    requires |chunk| < 65536 && rest != []
    ensures Deframed(Header(|chunk|) + chunk + rest) == chunk + Deframed(rest)
  {
    LengthSurvives(|chunk|);
    var s := Header(|chunk|) + chunk + rest;
    assert s[2..2 + |chunk|] == chunk && s[2 + |chunk|..] == rest;
  }

  /** Taking `budget` bytes of a frame and what follows it. */
  lemma DeframedOne(chunk: seq<byte>, rest: seq<byte>, budget: nat)
    requires |chunk| < 65536 && budget <= 2 + |chunk| + |rest|
    ensures Deframed((Header(|chunk|) + chunk + rest)[..budget]) ==
      if budget < 2 then []
      else if budget - 2 <= |chunk| then chunk[..budget - 2]
      else chunk + Deframed(rest[..budget - 2 - |chunk|])
  {
    var s := Header(|chunk|) + chunk + rest;
    if budget < 2 {
    } else if budget - 2 <= |chunk| {
      assert s[..budget] == Header(|chunk|) + chunk[..budget - 2];
      DeframedCut(chunk, budget - 2);
    } else {
      assert s[..budget] == Header(|chunk|) + chunk + rest[..budget - 2 - |chunk|];
      DeframedNext(chunk, rest[..budget - 2 - |chunk|]);
    }
  }

  lemma CountGoesOn(b: seq<byte>, k: nat, rest: seq<byte>, n: nat, m: nat)
    requires k <= |b| && k < 65536 && 0 < n <= |rest| && m <= |b| - k
    requires Deframed(rest[..n]) == b[k..][..m]
    ensures Deframed((Header(k) + b[..k] + rest)[..n + k + 2]) == b[..k + m]
  {
    DeframedOne(b[..k], rest, n + k + 2);
    TakeInTwo(b, k, m);
  }

  lemma CountStops(b: seq<byte>, k: nat, rest: seq<byte>, budget: nat)
    requires k <= |b| && k < 65536 && budget <= k + 2
    ensures Deframed((Header(k) + b[..k] + rest)[..budget]) == if budget < 2 then [] else b[..budget - 2]
  {
    DeframedOne(b[..k], rest, budget);
    assert budget >= 2 ==> b[..k][..budget - 2] == b[..budget - 2];
  }

  lemma FirstFrame(b: seq<byte>)
    requires b != []
    ensures var k := Min(|b|, MAX_LENGTH); Encode(Chunks(b)) == Header(k) + b[..k] + Encode(Chunks(b[k..]))
  {
    FirstChunk(b, 0);
    assert b[0..] == b && ChunkAt(b, 0) == b[..Min(|b|, MAX_LENGTH)];
  }

  /** The count that a failed write returns is exactly the payload that the peer gets of it. */
  lemma {:induction false} CountIsWhatArrives(b: seq<byte>, budget: nat)
    requires budget <= |Encode(Chunks(b))|
    ensures Deframed(Encode(Chunks(b))[..budget]) == b[..PayloadIn(|b|, budget)]
    decreases |b|
  {
    if b == [] {
    } else {
      var k := Min(|b|, MAX_LENGTH);
      FirstFrame(b);
      PayloadNext(|b|, budget);
      if budget - 2 > k {
        CountIsWhatArrives(b[k..], budget - 2 - k);
        CountGoesOn(b, k, Encode(Chunks(b[k..])), budget - 2 - k, PayloadIn(|b| - k, budget - 2 - k));
      } else {
        CountStops(b, k, Encode(Chunks(b[k..])), budget);
      }
    }
  }

  lemma TakeInTwo(b: seq<byte>, k: nat, n: nat)
    requires k + n <= |b|
    ensures b[..k] + b[k..][..n] == b[..k + n]
  {
  }

  lemma PayloadNext(total: nat, budget: nat)
    requires total > 0
    ensures var k := Min(total, MAX_LENGTH);
      && (k + 2 < budget ==> PayloadIn(total, budget) == k + PayloadIn(total - k, budget - 2 - k))
      && (k + 2 >= budget ==> PayloadIn(total, budget) == if budget < 2 then 0 else budget - 2)
  {
  }

  // ----- headers that arrive in halves -----

  /** For any payloads the results joined are a beginning of the payloads joined. */
  ghost predicate Delivers(attempts: seq<Attempt>) {
    forall payloads :: Results(Run(0, Written(payloads), attempts)) <= Flatten(payloads)
  }

  ghost function Ones(n: nat): (r: seq<byte>)
    ensures |r| == n && forall i :: 0 <= i < n ==> r[i] == 1
  {
    seq(n, _ => 1)
  }

  /**
   * Payloads of ones: n of one byte, then one of 256 bytes, whose length begins with a byte 1 and ends
   * with a byte 0.
   */
  ghost function Probe(n: nat): seq<seq<byte>> {
    if n == 0 then [Ones(256), Ones(512)] else [Ones(1)] + Probe(n - 1)
  }

  lemma {:induction false} ProbeIsOnes(n: nat)
    ensures forall i :: 0 <= i < |Flatten(Probe(n))| ==> Flatten(Probe(n))[i] == 1
  {
    if n == 0 {
      assert Probe(0)[1..] == [Ones(512)] && [Ones(512)][1..] == [];
      assert Flatten(Probe(0)) == Ones(256) + (Ones(512) + []);
    } else {
      ProbeIsOnes(n - 1);
      assert Probe(n)[1..] == Probe(n - 1);
    }
  }

  lemma OneChunk(b: seq<byte>)
    requires 1 <= |b| <= MAX_LENGTH
    ensures Chunks(b) == [b]
  {
    assert b[..|b|] == b && Chunks(b[|b|..]) == [];
  }

  lemma EncodeOne(f: seq<byte>)
    ensures Encode([f]) == Header(|f|) + f
  {
    assert [f][1..] == [];
  }

  lemma OneFrame(b: seq<byte>)
    requires 1 <= |b| <= MAX_LENGTH
    ensures Encode(Chunks(b)) == Header(|b|) + b
  {
    OneChunk(b);
    EncodeOne(b);
  }

  lemma WrittenProbe(n: nat)
    ensures n > 0 ==> Written(Probe(n)) == Header(1) + Ones(1) + Written(Probe(n - 1))
    ensures n == 0 ==> Written(Probe(n)) == Header(256) + Ones(256) + (Header(512) + Ones(512))
  {
    if n == 0 {
      OneFrame(Ones(256));
      OneFrame(Ones(512));
      assert Probe(0)[1..] == [Ones(512)] && [Ones(512)][1..] == [];
      assert Written([Ones(512)]) == Header(512) + Ones(512) + [];
    } else {
      OneFrame(Ones(1));
      assert Probe(n)[1..] == Probe(n - 1);
    }
  }

  /**
   * Half of the header before the 256 ones makes a length with a stale byte, and the other half comes
   * out as payload.
   */
  lemma HalfHeaderRead(a: Attempt)
    requires a.size >= 2 && a.header == 1
    ensures var r := Try(0, Written(Probe(0)), a); |r.data| > 0 && r.data[0] == 0
  {
    WrittenProbe(0);
    var input := Written(Probe(0));
    assert Header(256) == [1, 0];
    assert input[0] == 1 && input[1] == 0 && |input| == 772;
    assert LengthOf(1, a.stale) >= 256;
  }

  lemma ProbeRead(a: Attempt, n: nat)
    requires n > 0 && a.size >= 2 && a.header == 2
    ensures Try(0, Written(Probe(n)), a) == Reading(0, Written(Probe(n - 1)), Ones(1), true)
  {
    WrittenProbe(n);
    ReadFrame(Ones(1), Written(Probe(n - 1)), a);
    assert Ones(1)[1..] + Written(Probe(n - 1)) == Written(Probe(n - 1));
    WholePrefix(Ones(1));
  }

  lemma ResultsNext(r: Reading, rest: seq<Reading>)
    ensures Results([r] + rest) == r.data + Results(rest)
  {
    assert ([r] + rest)[1..] == rest;
  }

  lemma ZeroBehind(one: seq<byte>, rest: seq<byte>, n: nat)
    requires |one| == 1 && 0 < n <= |rest| && rest[n - 1] == 0
    ensures |one + rest| > n && (one + rest)[n] == 0
  {
  }

  /** The first half header comes when as many one-byte payloads as there were reads have been read. */
  lemma {:induction false} HalfHeaderShows(attempts: seq<Attempt>, n: nat)
    requires n < |attempts| && attempts[n].header == 1 && forall i :: 0 <= i < |attempts| ==> attempts[i].size >= 2
    requires forall i :: 0 <= i < n ==> attempts[i].header == 2
    ensures var out := Results(Run(0, Written(Probe(n)), attempts)); |out| > n && out[n] == 0
  {
    var input := Written(Probe(n));
    var r := Try(0, input, attempts[0]);
    RunHead(0, input, attempts);
    ResultsNext(r, Run(r.remain, r.input, attempts[1..]));
    if n == 0 {
      HalfHeaderRead(attempts[0]);
    } else {
      ProbeRead(attempts[0], n);
      var rest := Run(r.remain, r.input, attempts[1..]);
      HalfHeaderShows(attempts[1..], n - 1);
      ZeroBehind(r.data, Results(rest), n);
    }
  }

  lemma {:induction false} FirstHalf(attempts: seq<Attempt>) returns (n: nat)
    requires !WholeHeaders(attempts)
    ensures n < |attempts| && attempts[n].header == 1 && forall i :: 0 <= i < n ==> attempts[i].header == 2
  {
    if attempts[0].header == 1 {
      n := 0;
    } else {
      assert attempts == [attempts[0]] + attempts[1..];
      n := FirstHalf(attempts[1..]);
      n := n + 1;
    }
  }

  /**
   * Exactly when the round trip holds: a schedule of reads, with buffers of two bytes or more,
   * delivers all payloads in order if and only if no read gets half a header.
   */
  lemma DeliversIff(attempts: seq<Attempt>)
    requires forall i :: 0 <= i < |attempts| ==> attempts[i].size >= 2
    ensures Delivers(attempts) <==> WholeHeaders(attempts)
  {
    if WholeHeaders(attempts) {
      forall payloads ensures Results(Run(0, Written(payloads), attempts)) <= Flatten(payloads) {
        PayloadsArrive(payloads, attempts);
      }
    } else {
      var n := FirstHalf(attempts);
      HalfHeaderShows(attempts, n);
      ProbeIsOnes(n);
      assert !(Results(Run(0, Written(Probe(n)), attempts)) <= Flatten(Probe(n)));
    }
  }

  /** A header of which one byte arrives first is taken for a length with an old byte, and the framing is lost. */
  lemma HalfHeader()
    ensures var input := Encode([[7]]);
      && Read(0, input, 2, 0, 1, 1) == Reading(0, [1, 7], [], true)
      && Read(0, [1, 7], 2, 0, 2, 1) == Reading(0, [], [], false)
  {
    var input := Encode([[7]]);
    assert [[7 as byte]][1..] == [];
    assert input == [0, 1, 7];
    assert input[1..] == [1, 7];
  }
}
