/**
 Any number of registrations and flushes, in any order: what the peer receives
 over the life of a client.
 */
module RequestRuns {
  import opened Bytes
  import opened Chunks
  import opened Flush
  import opened Sockets
  import opened Wire
  import opened Wrappers

  ghost predicate RequestRun(s: Requests, ops: seq<RequestOp>, end: Requests)
    decreases |ops|
  {
    if ops == [] then end == s
    else exists next :: RequestStep(s, ops[0], next) && RequestRun(next, ops[1..], end)
  }

  function MessageIn(op: RequestOp): seq<Message> {
    if op.RegisterOp? then [op.m] else []
  }

  /** The requests registered in a run, in order. */
  function RegisteredIn(ops: seq<RequestOp>): seq<Message> {
    FlatMap(ops, MessageIn)
  }

  function SentBytes(ps: seq<Packet>): seq<byte> { FlatMap(ps, BytesOf) }

  function SentFds(ps: seq<Packet>): seq<int> { FlatMap(ps, FdOf) }

  /**
   Each packet with a descriptor, of all packets ever sent, leaves before the
   last byte of the message that owns the descriptor or carries that byte.
   */
  ghost predicate InTime(ps: seq<Packet>, ms: seq<Message>) {
    forall p: nat, j: nat :: p < |ps| && ps[p].fd.Some? && Owns(ms, j, |SentFds(ps[..p])|) ==>
                               |SentBytes(ps[..p])| < TotalSize(ms[..j + 1])
  }

  /** In every batch that a run flushes there are enough bytes for the descriptors, up to each message. */
  ghost predicate EveryBatchCovered(registered: seq<Message>, ops: seq<RequestOp>)
    decreases |ops|
  {
    ops == [] ||
    match ops[0]
    case RegisterOp(m) => EveryBatchCovered(registered + [m], ops[1..])
    case FlushOp => BytesCoverFds(registered) && EveryBatchCovered([], ops[1..])
  }

  /** The packets sent so far are the messages `flushed`. */
  ghost predicate Carried(s: Requests, flushed: seq<Message>) {
    && EncodesMessages(s.registered, s.data)
    && EncodesMessages(flushed, SentBytes(s.sent))
    && SentFds(s.sent) == AllFds(flushed)
  }

  // ---------- Messages added behind ----------

  lemma OwnsInFront(ms: seq<Message>, more: seq<Message>, j: nat, k: nat)
    requires k < |AllFds(ms)|
    ensures Owns(ms + more, j, k) <==> Owns(ms, j, k)
    ensures Owns(ms, j, k) ==> TotalSize((ms + more)[..j + 1]) == TotalSize(ms[..j + 1])
  {
    hide AllFds, TotalSize;
    assert (ms + more)[..|ms|] == ms;
    if j < |ms| {
      assert (ms + more)[..j] == ms[..j] && (ms + more)[..j + 1] == ms[..j + 1];
    } else if j < |ms + more| {
      AllFdsMonotone(ms + more, |ms|, j);
    }
  }

  lemma PrefixConcat(ms: seq<Message>, more: seq<Message>, i: nat)
    requires i <= |more|
    ensures (ms + more)[..|ms| + i] == ms + more[..i]
    ensures |AllFds((ms + more)[..|ms| + i])| == |AllFds(ms)| + |AllFds(more[..i])|
    ensures TotalSize((ms + more)[..|ms| + i]) == TotalSize(ms) + TotalSize(more[..i])
  {
    assert (ms + more)[..|ms| + i] == ms + more[..i];
    FlatMapConcat(ms, more[..i], FdsOf);
    SizeSumConcat(ms, more[..i], MessageSize);
  }

  lemma OwnsBehind(ms: seq<Message>, more: seq<Message>, i: nat, k: nat)
    ensures Owns(ms + more, |ms| + i, |AllFds(ms)| + k) <==> Owns(more, i, k)
    ensures Owns(more, i, k) ==> TotalSize((ms + more)[..|ms| + i + 1]) == TotalSize(ms) + TotalSize(more[..i + 1])
  {
    hide AllFds, TotalSize;
    if i < |more| {
      PrefixConcat(ms, more, i);
      PrefixConcat(ms, more, i + 1);
    }
  }

  lemma OwnerBehind(ms: seq<Message>, more: seq<Message>, j: nat, k: nat)
    requires Owns(ms + more, j, k) && |AllFds(ms)| <= k
    ensures |ms| <= j
  {
    hide AllFds;
    assert (ms + more)[..|ms|] == ms;
    if j < |ms| {
      AllFdsMonotone(ms + more, j + 1, |ms|);
    }
  }

  /** The packets before one that has a descriptor do not have all of them. */
  lemma FdsBefore(ps: seq<Packet>, p: nat)
    requires p < |ps| && ps[p].fd.Some?
    ensures |SentFds(ps[..p])| < |SentFds(ps)|
  {
    assert ps == ps[..p] + ([ps[p]] + ps[p + 1..]);
    FlatMapConcat(ps[..p], [ps[p]] + ps[p + 1..], FdOf);
    FlatMapConcat([ps[p]], ps[p + 1..], FdOf);
    FlatMapSingle(ps[p], FdOf);
  }

  lemma InTimeMore(ps: seq<Packet>, ms: seq<Message>, more: seq<Message>)
    requires |SentFds(ps)| == |AllFds(ms)|
    ensures InTime(ps, ms + more) <==> InTime(ps, ms)
  {
    hide SentFds, SentBytes, TotalSize, AllFds;
    forall p: nat, j: nat | p < |ps| && ps[p].fd.Some?
      ensures Owns(ms + more, j, |SentFds(ps[..p])|) <==> Owns(ms, j, |SentFds(ps[..p])|)
      ensures Owns(ms, j, |SentFds(ps[..p])|) ==> TotalSize((ms + more)[..j + 1]) == TotalSize(ms[..j + 1])
    {
      FdsBefore(ps, p);
      OwnsInFront(ms, more, j, |SentFds(ps[..p])|);
    }
  }

  // ---------- One flush ----------

  lemma PacketsBefore(data: seq<byte>, fds: seq<int>, q: nat)
    requires |fds| <= |data| && q < |FlushPackets(data, fds)| && FlushPackets(data, fds)[q].fd.Some?
    ensures q < |fds|
    ensures |SentBytes(FlushPackets(data, fds)[..q])| == q
    ensures |SentFds(FlushPackets(data, fds)[..q])| == q
  {
    FdTravelsWithByte(data, fds, q);
    assert FlushPackets(data, fds)[..q] == FdPackets(data, fds[..q]);
    FdPacketsCarry(data, fds[..q]);
  }

  lemma BatchInTimeIff(data: seq<byte>, ms: seq<Message>)
    requires EncodesMessages(ms, data) && |AllFds(ms)| <= |data|
    ensures InTime(FlushPackets(data, AllFds(ms)), ms) <==> BytesCoverFds(ms)
  {
    hide FlushPackets, SentFds, SentBytes, TotalSize, AllFds, BytesCoverFds;
    TimelyIff(ms);
    var ps := FlushPackets(data, AllFds(ms));
    forall p: nat | p < |ps| && ps[p].fd.Some?
      ensures |SentBytes(ps[..p])| == |SentFds(ps[..p])| == p
    {
      PacketsBefore(data, AllFds(ms), p);
    }
    if InTime(ps, ms) {
      forall j: nat, k: nat | Owns(ms, j, k)
        ensures k < TotalSize(ms[..j + 1])
      {
        assert ms[..|ms|] == ms;
        AllFdsMonotone(ms, j + 1, |ms|);
        FdTravelsWithByte(data, AllFds(ms), k);
        PacketsBefore(data, AllFds(ms), k);
      }
    }
  }

  lemma SentBehind(ps: seq<Packet>, qs: seq<Packet>, q: nat)
    requires q <= |qs|
    ensures (ps + qs)[..|ps| + q] == ps + qs[..q]
    ensures SentBytes((ps + qs)[..|ps| + q]) == SentBytes(ps) + SentBytes(qs[..q])
    ensures SentFds((ps + qs)[..|ps| + q]) == SentFds(ps) + SentFds(qs[..q])
  {
    assert (ps + qs)[..|ps| + q] == ps + qs[..q];
    FlatMapConcat(ps, qs[..q], BytesOf);
    FlatMapConcat(ps, qs[..q], FdOf);
  }

  /** Batches sent one after the other are in time together if each of them is, and only then. */
  lemma InTimeThenIff(ps: seq<Packet>, ms: seq<Message>, qs: seq<Packet>, more: seq<Message>)
    requires |SentFds(ps)| == |AllFds(ms)| && |SentBytes(ps)| == TotalSize(ms)
    ensures InTime(ps + qs, ms + more) <==> InTime(ps, ms) && InTime(qs, more)
  {
    hide SentFds, SentBytes, TotalSize, AllFds;
    InTimeMore(ps, ms, more);
    var all := ps + qs;
    assert forall p: nat | p < |ps| :: all[..p] == ps[..p] && all[p] == ps[p];
    if InTime(ps, ms) && InTime(qs, more) {
      forall p: nat, j: nat | p < |all| && all[p].fd.Some? && Owns(ms + more, j, |SentFds(all[..p])|)
        ensures |SentBytes(all[..p])| < TotalSize((ms + more)[..j + 1])
      {
        if p >= |ps| {
          var q := p - |ps|;
          SentBehind(ps, qs, q);
          OwnerBehind(ms, more, j, |SentFds(all[..p])|);
          OwnsBehind(ms, more, j - |ms|, |SentFds(qs[..q])|);
        }
      }
    }
    if InTime(all, ms + more) {
      forall p: nat, j: nat | p < |ps| && ps[p].fd.Some? && Owns(ms + more, j, |SentFds(ps[..p])|)
        ensures |SentBytes(ps[..p])| < TotalSize((ms + more)[..j + 1])
      {
        assert all[p] == ps[p];
      }
      forall q: nat, i: nat | q < |qs| && qs[q].fd.Some? && Owns(more, i, |SentFds(qs[..q])|)
        ensures |SentBytes(qs[..q])| < TotalSize(more[..i + 1])
      {
        SentBehind(ps, qs, q);
        OwnsBehind(ms, more, i, |SentFds(qs[..q])|);
        var p: nat, j: nat := |ps| + q, |ms| + i;
        assert all[p] == qs[q] && Owns(ms + more, j, |SentFds(all[..p])|);
      }
    }
  }

  lemma FlushCarries(s: Requests, next: Requests, flushed: seq<Message>)
    requires Carried(s, flushed) && s.registered != []
    requires RequestStep(s, FlushOp, next)
    ensures Carried(next, flushed + s.registered)
    ensures InTime(next.sent, flushed + s.registered) <==> InTime(s.sent, flushed) && BytesCoverFds(s.registered)
  {
    hide FlushPackets, InTime, IsFrame, BytesCoverFds;
    var ps := FlushPackets(s.data, AllFds(s.registered));
    BatchInTimeIff(s.data, s.registered);
    FlushSendsEverything(s.data, AllFds(s.registered));
    FlatMapConcat(s.sent, ps, BytesOf);
    FlatMapConcat(s.sent, ps, FdOf);
    ChunkedConcat(flushed, s.registered, SentBytes(s.sent), s.data, MessageSize, IsFrame);
    FlatMapConcat(flushed, s.registered, FdsOf);
    EncodedSize(flushed, SentBytes(s.sent));
    InTimeThenIff(s.sent, flushed, ps, s.registered);
  }

  lemma RegisterCarries(s: Requests, m: Message, next: Requests, flushed: seq<Message>)
    requires Carried(s, flushed) && RequestStep(s, RegisterOp(m), next)
    ensures Carried(next, flushed)
  {
    hide InTime, IsFrame;
    assert next.data == s.data + next.data[|s.data|..];
    FrameSize(m, next.data[|s.data|..]);
    ChunkedSnoc(s.registered, m, s.data, next.data[|s.data|..], MessageSize, IsFrame);
  }

  lemma FrameSize(m: Message, bs: seq<byte>)
    requires IsFrame(m, bs)
    ensures |bs| == MessageSize(m)
  {
  }

  // ---------- Runs ----------

  lemma {:induction false} RunCarries(s: Requests, ops: seq<RequestOp>, end: Requests, flushed: seq<Message>)
    returns (later: seq<Message>)
    requires RequestRun(s, ops, end) && Carried(s, flushed)
    ensures Carried(end, later)
    ensures later + end.registered == flushed + s.registered + RegisteredIn(ops)
    ensures InTime(end.sent, later) <==> InTime(s.sent, flushed) && EveryBatchCovered(s.registered, ops)
    decreases |ops|
  {
    hide Carried, RequestStep, FdsOf, InTime, BytesCoverFds, AllFds, TotalSize, RegisteredIn;
    if ops == [] {
      later := flushed;
      NothingRegistered();
    } else {
      var next :| RequestStep(s, ops[0], next) && RequestRun(next, ops[1..], end);
      StepRegistered(s, ops, next, flushed);
      match ops[0] {
        case RegisterOp(m) =>
          RegisterCarries(s, m, next, flushed);
          later := RunCarries(next, ops[1..], end, flushed);
        case FlushOp =>
          if s.registered == [] {
            NothingFlushed(s, next, flushed);
            later := RunCarries(next, ops[1..], end, flushed);
          } else {
            FlushCarries(s, next, flushed);
            later := RunCarries(next, ops[1..], end, flushed + s.registered);
          }
      }
    }
  }

  lemma NothingRegistered()
    ensures RegisteredIn([]) == []
  {
  }

  lemma StepRegistered(s: Requests, ops: seq<RequestOp>, next: Requests, flushed: seq<Message>)
    requires ops != [] && RequestStep(s, ops[0], next)
    ensures ops[0].RegisterOp? ==> next.registered == s.registered + [ops[0].m] && next.sent == s.sent
    ensures ops[0].FlushOp? ==> next.registered == []
    ensures
      var later := if ops[0].RegisterOp? then flushed else flushed + s.registered;
      later + next.registered + RegisteredIn(ops[1..]) == flushed + s.registered + RegisteredIn(ops)
  {
    hide FlushPackets, AllFds, IsFrame;
    assert RegisteredIn(ops) == MessageIn(ops[0]) + RegisteredIn(ops[1..]);
  }

  lemma NothingFlushed(s: Requests, next: Requests, flushed: seq<Message>)
    requires Carried(s, flushed) && s.registered == [] && RequestStep(s, FlushOp, next)
    ensures Carried(next, flushed) && next.sent == s.sent && BytesCoverFds(s.registered)
  {
  }

  /**
   The main theorem about requests. Over any sequence of registrations and
   flushes, what was sent and what is buffered are the frames of all requests ever
   registered, in order; the descriptors sent are the descriptors of the flushed
   ones, in order; and each arrives no later than the end of its own message if
   and only if every batch flushed has bytes enough for its descriptors.
   */
  lemma RequestsArriveInOrder(ops: seq<RequestOp>, end: Requests)
    requires RequestRun(Requests([], [], []), ops, end)
    ensures EncodesMessages(RegisteredIn(ops), SentBytes(end.sent) + end.data)
    ensures SentFds(end.sent) + AllFds(end.registered) == AllFds(RegisteredIn(ops))
    ensures InTime(end.sent, RegisteredIn(ops)) <==> EveryBatchCovered([], ops)
  {
    hide RequestRun, InTime, IsFrame, EveryBatchCovered;
    NothingSent();
    var flushed := RunCarries(Requests([], [], []), ops, end, []);
    assert [] + [] + RegisteredIn(ops) == RegisteredIn(ops);
    ChunkedConcat(flushed, end.registered, SentBytes(end.sent), end.data, MessageSize, IsFrame);
    FlatMapConcat(flushed, end.registered, FdsOf);
    InTimeMore(end.sent, flushed, end.registered);
  }

  lemma NothingSent()
    ensures Carried(Requests([], [], []), []) && InTime([], [])
  {
  }

  /** With at most seven descriptors in a message it has, however registrations and flushes are mixed. */
  lemma {:induction false} FewFdsCovered(registered: seq<Message>, ops: seq<RequestOp>)
    requires forall m <- registered + RegisteredIn(ops) :: FdCount(m) <= 7
    ensures EveryBatchCovered(registered, ops)
    decreases |ops|
  {
    hide FdCount, BytesCoverFds;
    if ops != [] {
      var rest := RegisteredIn(ops[1..]);
      assert RegisteredIn(ops) == MessageIn(ops[0]) + rest;
      match ops[0]
      case RegisterOp(m) =>
        assert registered + ([m] + rest) == registered + [m] + rest;
        FewFdsCovered(registered + [m], ops[1..]);
      case FlushOp =>
        assert forall m :: m in registered ==> m in registered + RegisteredIn(ops);
        FewFdsTimely(registered);
        TimelyIff(registered);
        assert [] + rest == rest && forall m :: m in rest ==> m in registered + RegisteredIn(ops);
        FewFdsCovered([], ops[1..]);
    }
  }
}
