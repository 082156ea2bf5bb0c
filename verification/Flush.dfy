/**
 `flush_registered_requests`: which bytes and descriptors leave the client, in
 which packets, and when each descriptor arrives.
 */
module Flush {
  import opened Bytes
  import opened Chunks
  import opened Sockets
  import opened Wire
  import opened Wrappers

  /** One byte from the front of the batch for each descriptor. */
  function FdPackets(data: seq<byte>, fds: seq<int>): (ps: seq<Packet>)
    requires |fds| <= |data|
    ensures |ps| == |fds|
  {
    seq(|fds|, k requires 0 <= k < |fds| => Packet([data[k]], Some(fds[k])))
  }

  lemma NextFdPacket(data: seq<byte>, fds: seq<int>, k: nat)
    requires k < |fds| <= |data|
    ensures FdPackets(data, fds)[..k + 1] == FdPackets(data, fds)[..k] + [Packet([data[k]], Some(fds[k]))]
  {
  }

  /** Then the rest of the bytes. */
  function FlushPackets(data: seq<byte>, fds: seq<int>): seq<Packet>
    requires |fds| <= |data|
  {
    FdPackets(data, fds) + [Packet(data[|fds|..], None)]
  }

  function BytesOf(p: Packet): seq<byte> { p.bytes }

  function FdOf(p: Packet): seq<int> {
    if p.fd.Some? then [p.fd.value] else []
  }

  lemma {:induction false} FdPacketsCarry(data: seq<byte>, fds: seq<int>)
    requires |fds| <= |data|
    ensures FlatMap(FdPackets(data, fds), BytesOf) == data[..|fds|]
    ensures FlatMap(FdPackets(data, fds), FdOf) == fds
  {
    if fds != [] {
      var ps := FdPackets(data, fds);
      assert ps[1..] == FdPackets(data[1..], fds[1..]);
      FdPacketsCarry(data[1..], fds[1..]);
      assert FlatMap(ps, BytesOf) == [data[0]] + data[1..][..|fds| - 1];
      assert FlatMap(ps, FdOf) == [fds[0]] + fds[1..];
    }
  }

  /** All bytes leave in order and all descriptors leave in order; none twice, none left out. */
  lemma FlushSendsEverything(data: seq<byte>, fds: seq<int>)
    requires |fds| <= |data|
    ensures FlatMap(FlushPackets(data, fds), BytesOf) == data
    ensures FlatMap(FlushPackets(data, fds), FdOf) == fds
  {
    var last := Packet(data[|fds|..], None);
    FdPacketsCarry(data, fds);
    FlatMapSnoc(FdPackets(data, fds), last, BytesOf);
    FlatMapSnoc(FdPackets(data, fds), last, FdOf);
  }

  /** Descriptor `k` travels with byte `k` of the batch. */
  lemma FdTravelsWithByte(data: seq<byte>, fds: seq<int>, k: nat)
    requires k < |fds| <= |data|
    ensures k < |FlushPackets(data, fds)|
    ensures FlushPackets(data, fds)[k] == Packet([data[k]], Some(fds[k]))
    ensures |FlatMap(FlushPackets(data, fds)[..k], BytesOf)| == k
  {
    assert FlushPackets(data, fds)[..k] == FdPackets(data, fds[..k]);
    FdPacketsCarry(data, fds[..k]);
  }

  // ---------- Descriptors against messages ----------

  function FdCount(m: Message): nat { |FdsOf(m)| }

  /** Descriptor `k` of the batch is an argument of message `j`. */
  ghost predicate Owns(ms: seq<Message>, j: nat, k: nat) {
    j < |ms| && |AllFds(ms[..j])| <= k < |AllFds(ms[..j + 1])|
  }

  lemma AllFdsPrefix(ms: seq<Message>, j: nat)
    requires j < |ms|
    ensures AllFds(ms[..j + 1]) == AllFds(ms[..j]) + FdsOf(ms[j])
    ensures TotalSize(ms[..j + 1]) == TotalSize(ms[..j]) + ms[j].Size()
  {
    assert ms[..j + 1] == ms[..j] + [ms[j]];
    FlatMapSnoc(ms[..j], ms[j], FdsOf);
    SizeSumSnoc(ms[..j], ms[j], MessageSize);
  }

  /** Every descriptor has an owner, and only one. */
  lemma {:induction false} OwnerExists(ms: seq<Message>, k: nat) returns (j: nat)
    requires k < |AllFds(ms)|
    ensures Owns(ms, j, k)
    decreases |ms|
  {
    var front := ms[..|ms| - 1];
    AllFdsPrefix(ms, |ms| - 1);
    assert ms[..|ms|] == ms;
    if |AllFds(front)| <= k {
      j := |ms| - 1;
    } else {
      j := OwnerExists(front, k);
      assert front[..j] == ms[..j] && front[..j + 1] == ms[..j + 1];
    }
  }

  lemma {:induction false} AllFdsMonotone(ms: seq<Message>, i: nat, j: nat)
    requires i <= j <= |ms|
    ensures |AllFds(ms[..i])| <= |AllFds(ms[..j])|
    decreases j
  {
    if i < j {
      AllFdsPrefix(ms, j - 1);
      AllFdsMonotone(ms, i, j - 1);
    }
  }

  lemma OwnerUnique(ms: seq<Message>, i: nat, j: nat, k: nat)
    requires Owns(ms, i, k) && Owns(ms, j, k)
    ensures i == j
  {
    if i < j {
      AllFdsMonotone(ms, i + 1, j);
    } else if j < i {
      AllFdsMonotone(ms, j + 1, i);
    }
  }

  /** Each descriptor travels with a byte at or before the last one of its own message. */
  ghost predicate Timely(ms: seq<Message>) {
    forall j: nat, k: nat :: Owns(ms, j, k) ==> k < TotalSize(ms[..j + 1])
  }

  /** Up to each message that has descriptors there are at least as many bytes as descriptors. */
  ghost predicate BytesCoverFds(ms: seq<Message>) {
    forall j :: 0 <= j < |ms| && FdCount(ms[j]) > 0 ==> |AllFds(ms[..j + 1])| <= TotalSize(ms[..j + 1])
  }

  /** Exactly when every descriptor is in time. */
  lemma TimelyIff(ms: seq<Message>)
    ensures Timely(ms) <==> BytesCoverFds(ms)
  {
    if Timely(ms) {
      forall j | 0 <= j < |ms| && FdCount(ms[j]) > 0
        ensures |AllFds(ms[..j + 1])| <= TotalSize(ms[..j + 1])
      {
        AllFdsPrefix(ms, j);
        assert Owns(ms, j, |AllFds(ms[..j + 1])| - 1);
      }
    }
    if BytesCoverFds(ms) {
      forall j: nat, k: nat | Owns(ms, j, k)
        ensures k < TotalSize(ms[..j + 1])
      {
        AllFdsPrefix(ms, j);
      }
    }
  }

  lemma {:induction false} FewFds(ms: seq<Message>, j: nat)
    requires forall m <- ms :: FdCount(m) <= 7
    requires j <= |ms|
    ensures |AllFds(ms[..j])| + j <= TotalSize(ms[..j])
    decreases j
  {
    if j > 0 {
      AllFdsPrefix(ms, j - 1);
      assert ms[j - 1] in ms;
      FewFds(ms, j - 1);
    }
  }

  /** With at most seven descriptors in a message, whatever is registered can be flushed. */
  lemma FewFdsFlushable(ms: seq<Message>, data: seq<byte>)
    requires EncodesMessages(ms, data)
    requires forall m <- ms :: FdCount(m) <= 7
    ensures |AllFds(ms)| <= |data|
    ensures ms != [] ==> |AllFds(ms)| < |data|
  {
    ChunkedSize(ms, data, MessageSize, IsFrame);
    assert ms[..|ms|] == ms;
    FewFds(ms, |ms|);
  }

  /** With at most seven descriptors in a message, every descriptor is in time. */
  lemma FewFdsTimely(ms: seq<Message>)
    requires forall m <- ms :: FdCount(m) <= 7
    ensures Timely(ms)
  {
    forall j | 0 <= j < |ms| && FdCount(ms[j]) > 0
      ensures |AllFds(ms[..j + 1])| <= TotalSize(ms[..j + 1])
    {
      FewFds(ms, j + 1);
    }
    TimelyIff(ms);
  }

  /**
   Descriptor `k` of message `j` in the flush of a batch: it leaves with byte `k`,
   which is one of the bytes up to the end of message `j`.
   */
  lemma DescriptorArrives(ms: seq<Message>, data: seq<byte>, j: nat, k: nat)
    requires EncodesMessages(ms, data) && Owns(ms, j, k)
    requires forall m <- ms :: FdCount(m) <= 7
    ensures |AllFds(ms)| <= |data| && k < |AllFds(ms)|
    ensures FlushPackets(data, AllFds(ms))[k] == Packet([data[k]], Some(AllFds(ms)[k]))
    ensures |FlatMap(FlushPackets(data, AllFds(ms))[..k], BytesOf)| == k
    ensures k < TotalSize(ms[..j + 1]) <= |data|
  {
    hide FlushPackets, AllFds, TotalSize;
    FewFdsFlushable(ms, data);
    AllFdsMonotone(ms, j + 1, |ms|);
    assert ms[..|ms|] == ms;
    FdTravelsWithByte(data, AllFds(ms), k);
    FewFdsTimely(ms);
    TotalSizePrefix(ms, j + 1);
    EncodedSize(ms, data);
  }

  /**
   Every descriptor argument in a batch travels, with the byte at its place among
   all descriptor arguments, and behind those packets goes one without a descriptor.
   */
  lemma ArgumentTravels(ms: seq<Message>, data: seq<byte>, j: nat, i: nat)
    requires |AllFds(ms)| <= |data|
    requires j < |ms| && i < |ms[j].args| && ms[j].args[i].Fd?
    ensures
      var packets, k := FlushPackets(data, AllFds(ms)), FdPlace(ms, j, i);
      && k < SizeSum(ms, FdArguments) == |packets| - 1
      && packets[k] == Packet([data[k]], Some(ms[j].args[i].fd))
      && packets[|packets| - 1].fd == None
  {
    DescriptorQueued(ms, j, i);
  }

  lemma EncodedSize(ms: seq<Message>, data: seq<byte>)
    requires EncodesMessages(ms, data)
    ensures |data| == TotalSize(ms)
  {
    ChunkedSize(ms, data, MessageSize, IsFrame);
  }

  lemma TotalSizePrefix(ms: seq<Message>, j: nat)
    requires j <= |ms|
    ensures TotalSize(ms[..j]) <= TotalSize(ms)
  {
    assert ms[..j] + ms[j..] == ms;
    SizeSumConcat(ms[..j], ms[j..], MessageSize);
  }

  // ---------- Registering and flushing, over and over ----------

  /** Requests not flushed yet, the bytes they are buffered as, and what was sent. */
  datatype Requests = Requests(registered: seq<Message>, data: seq<byte>, sent: seq<Packet>)

  datatype RequestOp = RegisterOp(m: Message) | FlushOp

  /** The effect of `register_request` and `flush_registered_requests`; padding bytes are open. */
  ghost predicate RequestStep(s: Requests, op: RequestOp, next: Requests) {
    match op
    case RegisterOp(m) =>
      && next.registered == s.registered + [m] && next.sent == s.sent
      && |s.data| <= |next.data| && next.data[..|s.data|] == s.data
      && IsFrame(m, next.data[|s.data|..])
    case FlushOp =>
      && next.registered == [] && next.data == []
      && (if s.registered == [] then next.sent == s.sent
          else
            && |AllFds(s.registered)| < |s.data|
            && next.sent == s.sent + FlushPackets(s.data, AllFds(s.registered)))
  }
}
