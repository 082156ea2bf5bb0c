/**
 The receive state machine as a function of what the socket will deliver.

 The peer's bytes are a fixed stream; an oracle decides how many of them each
 read returns. A property proved for every oracle holds for every schedule.
 */
module Receive {
  import opened Arithmetic
  import opened Bytes
  import opened Chunks
  import opened Framing
  import opened MessageParsers
  import opened OverloadSets
  import opened Wire
  import opened Wrappers

  const RECV_BLOCK_SIZE := 1000

  /** Proposes a length for each read call; `ReadLength` clamps it to a legal one. */
  type Oracle = nat -> nat

  /** What has been received but not consumed, what the peer still owes, and the reads so far. */
  datatype Conn = Conn(buff: seq<byte>, unread: seq<byte>, calls: nat) {
    function Pending(): seq<byte> { buff + unread }
  }

  /** Bytes returned by a read: at least one, at most what is asked for; none at the end only. */
  function ReadLength(o: Oracle, call: nat, requested: nat, available: nat): (n: nat)
    ensures n <= requested && n <= available
    ensures n == 0 <==> requested == 0 || available == 0
  {
    var most := if requested < available then requested else available;
    if most == 0 then 0 else 1 + o(call) % most
  }

  /** A legal length is returned if one less is proposed. */
  lemma Proposed(o: Oracle, call: nat, requested: nat, available: nat, n: nat)
    requires 0 < n <= requested && n <= available && o(call) == n - 1
    ensures ReadLength(o, call, requested, available) == n
  {
    SmallRemainder(n - 1, if requested < available then requested else available);
  }

  /** A read call, and a length it could return. */
  datatype ReadCall = ReadCall(requested: nat, available: nat, length: nat) {
    predicate Legal() {
      length <= requested && length <= available && (length == 0 <==> requested == 0 || available == 0)
    }
  }

  /** The read calls from number `first` on return the lengths in `rs`. */
  ghost predicate Realises(o: Oracle, first: nat, rs: seq<ReadCall>) {
    forall i :: 0 <= i < |rs| ==> ReadLength(o, first + i, rs[i].requested, rs[i].available) == rs[i].length
  }

  /** Any list of legal lengths is what some oracle picks, one read call after the other. */
  lemma EveryScheduleRealised(first: nat, rs: seq<ReadCall>)
    requires forall r <- rs :: r.Legal()
    ensures exists o: Oracle :: Realises(o, first, rs)
  {
    hide ReadLength;
    var o: Oracle :=
      k => if first <= k < first + |rs| && rs[k - first].length > 0 then rs[k - first].length - 1 else 0;
    forall i | 0 <= i < |rs|
      ensures ReadLength(o, first + i, rs[i].requested, rs[i].available) == rs[i].length
    {
      var r := rs[i];
      assert r in rs;
      if r.length > 0 {
        assert o(first + i) == r.length - 1;
        Proposed(o, first + i, r.requested, r.available, r.length);
      }
    }
    assert Realises(o, first, rs);
  }

  // ---------- recv_more_data ----------

  /** Bytes asked for with `unprocessed` bytes in the buffer; never filling up a 32-bit word. */
  function RequestSize(unprocessed: nat): (n: nat)
    ensures (unprocessed + n) % 4 != 0
    ensures RECV_BLOCK_SIZE <= n <= RECV_BLOCK_SIZE + 1
  {
    if (unprocessed + RECV_BLOCK_SIZE) % 4 == 0 then RECV_BLOCK_SIZE + 1 else RECV_BLOCK_SIZE
  }

  /** Looping back to read again: bytes in the buffer then, and bytes the peer has yet to deliver. */
  datatype Reread = Reread(position: nat, owed: nat)

  datatype Received = Received(conn: Conn, eof: bool, rereads: seq<Reread>)

  function RecvMore(o: Oracle, c: Conn): (r: Received)
    ensures r.conn.Pending() == c.Pending()
    ensures c.buff <= r.conn.buff
    ensures r.eof ==> r.conn.unread == []
    ensures !r.eof ==> |r.conn.unread| < |c.unread|
    decreases |c.unread|
  {
    var requested := RequestSize(|c.buff|);
    var n := ReadLength(o, c.calls, requested, |c.unread|);
    if n == 0 then Received(c.(calls := c.calls + 1), true, [])
    else
      var next := Conn(c.buff + c.unread[..n], c.unread[n..], c.calls + 1);
      assert next.Pending() == c.Pending();
      if n < requested then Received(next, false, [])
      else
        var r := RecvMore(o, next);
        Later([Reread(|next.buff|, |next.unread|)], r)
  }

  /** A result of the loop, after the given re-reads. */
  function Later(rereads: seq<Reread>, r: Received): Received {
    r.(rereads := rereads + r.rereads)
  }

  lemma LaterLater(xs: seq<Reread>, ys: seq<Reread>, r: Received)
    ensures Later(xs, Later(ys, r)) == Later(xs + ys, r)
  {
    Associative(xs, ys, r.rereads);
  }

  lemma LaterNothing(r: Received)
    ensures Later([], r) == r
  {
    assert [] + r.rereads == r.rereads;
  }

  lemma LaterLast(xs: seq<Reread>, c: Conn, eof: bool)
    ensures Later(xs, Received(c, eof, [])) == Received(c, eof, xs)
  {
    assert xs + [] == xs;
  }

  /** One turn of the loop. */
  lemma RecvMoreStep(o: Oracle, c: Conn)
    ensures
      var requested := RequestSize(|c.buff|);
      var n := ReadLength(o, c.calls, requested, |c.unread|);
      var next := Conn(c.buff + c.unread[..n], c.unread[n..], c.calls + 1);
      RecvMore(o, c) ==
      if n == 0 then Received(c.(calls := c.calls + 1), true, [])
      else if n < requested then Received(next, false, [])
      else Later([Reread(|next.buff|, |next.unread|)], RecvMore(o, next))
  {
  }

  /** Buffer sizes at which full reads end, one after the other. */
  ghost predicate FullReadsFrom(unprocessed: nat, rereads: seq<Reread>)
    decreases |rereads|
  {
    rereads != [] ==>
      && rereads[0].position == unprocessed + RequestSize(unprocessed)
      && FullReadsFrom(rereads[0].position, rereads[1..])
  }

  /** Every read but the last is a re-read, and each of them is recorded where it happens. */
  lemma {:induction false} RereadsRecorded(o: Oracle, c: Conn)
    ensures RecvMore(o, c).conn.calls == c.calls + |RecvMore(o, c).rereads| + 1
    ensures FullReadsFrom(|c.buff|, RecvMore(o, c).rereads)
    decreases |c.unread|
  {
    hide RequestSize, ReadLength, RecvMore;
    RecvMoreStep(o, c);
    var requested := RequestSize(|c.buff|);
    var n := ReadLength(o, c.calls, requested, |c.unread|);
    if n != 0 && n == requested {
      var next := Conn(c.buff + c.unread[..n], c.unread[n..], c.calls + 1);
      RereadsRecorded(o, next);
      assert RecvMore(o, c).rereads[1..] == RecvMore(o, next).rereads;
    }
  }

  /** A re-read never happens at a multiple of four, for any bytes and any schedule. */
  lemma {:induction false} RereadsUnaligned(o: Oracle, c: Conn)
    ensures forall x <- RecvMore(o, c).rereads ::
              x.position % 4 != 0 && x.position + x.owed == |c.Pending()|
    decreases |c.unread|
  {
    hide RequestSize, ReadLength, RecvMore;
    RecvMoreStep(o, c);
    var requested := RequestSize(|c.buff|);
    var n := ReadLength(o, c.calls, requested, |c.unread|);
    if n != 0 && n == requested {
      var next := Conn(c.buff + c.unread[..n], c.unread[n..], c.calls + 1);
      RereadsUnaligned(o, next);
    }
  }

  /**
   On a stream that ends at a multiple of four, end-of-file is reported only by a
   call that had nothing left to receive, and every re-read is owed more bytes.
   */
  lemma {:induction false} EofOnlyWhenDrained(o: Oracle, c: Conn)
    requires |c.Pending()| % 4 == 0
    ensures RecvMore(o, c).eof <==> c.unread == []
    ensures RecvMore(o, c).eof ==> RecvMore(o, c).conn.buff == c.buff
    ensures forall x <- RecvMore(o, c).rereads :: x.owed > 0
    decreases |c.unread|
  {
    hide RequestSize, ReadLength, RecvMore;
    RecvMoreStep(o, c);
    RereadsUnaligned(o, c);
    var requested := RequestSize(|c.buff|);
    var n := ReadLength(o, c.calls, requested, |c.unread|);
    if n != 0 && n == requested {
      var next := Conn(c.buff + c.unread[..n], c.unread[n..], c.calls + 1);
      assert next.Pending() == c.Pending();
      EofOnlyWhenDrained(o, next);
    }
  }

  // ---------- When a re-read runs into the end of the stream ----------

  /** Full reads, the first with `unprocessed` bytes in the buffer, use up `n` bytes exactly. */
  predicate Fills(unprocessed: nat, n: nat) {
    n >= RECV_BLOCK_SIZE && n % RECV_BLOCK_SIZE == RequestSize(unprocessed) - RECV_BLOCK_SIZE
  }

  /** The unread bytes are exactly used up by full reads. */
  predicate FillsReads(c: Conn) {
    Fills(|c.buff|, |c.unread|)
  }

  /** After one full read, all further requests are for a block. */
  lemma FullBlocks(unprocessed: nat)
    ensures RequestSize(unprocessed + RequestSize(unprocessed)) == RECV_BLOCK_SIZE
  {
  }

  lemma {:induction false} EofAfterProgress(o: Oracle, c: Conn)
    requires RecvMore(o, c).eof && c.unread != []
    ensures FillsReads(c)
    decreases |c.unread|
  {
    hide RequestSize, ReadLength, RecvMore;
    RecvMoreStep(o, c);
    var requested := RequestSize(|c.buff|);
    var n := ReadLength(o, c.calls, requested, |c.unread|);
    assert n == requested;
    var next := Conn(c.buff + c.unread[..n], c.unread[n..], c.calls + 1);
    assert RecvMore(o, next).eof;
    FullBlocks(|c.buff|);
    if next.unread != [] {
      EofAfterProgress(o, next);
    }
    WholeBlocks(requested, |c.unread|, |next.unread|);
  }

  lemma WholeBlocks(requested: nat, before: nat, after: nat)
    requires RECV_BLOCK_SIZE <= requested <= RECV_BLOCK_SIZE + 1 && before == requested + after
    requires after > 0 ==> after >= RECV_BLOCK_SIZE && after % RECV_BLOCK_SIZE == 0
    ensures before >= RECV_BLOCK_SIZE && before % RECV_BLOCK_SIZE == requested - RECV_BLOCK_SIZE
  {
  }

  /** Every read returns all it asks for: one byte more than the oracle's proposal. */
  lemma {:induction false} FullReadsReachEof(o: Oracle, c: Conn)
    requires FillsReads(c)
    requires o(c.calls) == RequestSize(|c.buff|) - 1
    requires forall k :: k > c.calls ==> o(k) == RECV_BLOCK_SIZE - 1
    ensures RecvMore(o, c).eof
    decreases |c.unread|
  {
    var requested := RequestSize(|c.buff|);
    var next := Conn(c.buff + c.unread[..requested], c.unread[requested..], c.calls + 1);
    Proposed(o, c.calls, requested, |c.unread|, requested);
    FullBlocks(|c.buff|);
    if next.unread != [] {
      FullReadsReachEof(o, next);
    }
  }

  /**
   Some schedule makes `recv_more_data` throw at end-of-file although it received
   bytes, if and only if full reads can use up the unread bytes exactly. By
   `EofOnlyWhenDrained` such a stream does not end at a multiple of four.
   */
  lemma EofDespiteProgressIff(c: Conn)
    ensures (exists o: Oracle :: RecvMore(o, c).eof && c.unread != []) <==> FillsReads(c)
  {
    if o: Oracle :| RecvMore(o, c).eof && c.unread != [] {
      EofAfterProgress(o, c);
    }
    if FillsReads(c) {
      var first := RequestSize(|c.buff|) - 1;
      var o: Oracle := k => if k == c.calls then first else RECV_BLOCK_SIZE - 1;
      FullReadsReachEof(o, c);
      assert RecvMore(o, c).eof && c.unread != [];
    }
  }

  // ---------- until ----------

  function IsFor(target: Key): ParsedMessage -> bool {
    (m: ParsedMessage) => KeyOf(m) == target
  }

  /** The index of the first message for `target`, or the number of messages. */
  function FirstMatch(ms: seq<ParsedMessage>, target: Key): (i: nat)
    ensures i <= |ms|
    ensures i < |ms| ==> ms[i].objectId == target.objectId && ms[i].opcode == target.opcode
    ensures forall j :: 0 <= j < i ==> ms[j].objectId != target.objectId || ms[j].opcode != target.opcode
  {
    var i := FirstIndex(ms, IsFor(target));
    assert forall j :: 0 <= j < i ==> !IsFor(target)(ms[j]);
    i
  }

  datatype Outcome = Found(payload: seq<byte>) | Eof | Malformed(error: ParseError)

  /** The effect of `until`: how it ends, the handlers run, and the messages taken out of the buffer. */
  datatype Visited = Visited(conn: Conn, outcome: Outcome, trace: seq<Event>,
                             consumed: seq<ParsedMessage>, rereads: seq<Reread>)

  function After(trace: seq<Event>, consumed: seq<ParsedMessage>, rereads: seq<Reread>, v: Visited): Visited {
    v.(trace := trace + v.trace, consumed := consumed + v.consumed, rereads := rereads + v.rereads)
  }

  /** The run of the callback given to `until`, if one was given. */
  function Called(callback: Option<Overload>, payload: seq<byte>): seq<Event> {
    match callback
    case None => []
    case Some(overload) => [Callback(overload, payload)]
  }

  lemma ParsedFits(b: seq<byte>, i: nat)
    requires i <= |ParseAll(Framed(b)).messages|
    ensures |Unparse(ParseAll(Framed(b)).messages[..i])| <= |b|
    ensures Unparse(ParseAll(Framed(b)).messages[..i]) == b[..|Unparse(ParseAll(Framed(b)).messages[..i])|]
  {
    hide ParseAll, FramedSize, FrameBytes;
    var ms := ParseAll(Framed(b)).messages;
    var rest := ParseAllIsPrefix(Framed(b));
    FlatMapConcat(ms[..i], ms[i..], FrameBytes);
    assert ms[..i] + ms[i..] == ms;
    Associative(Unparse(ms[..i]), Unparse(ms[i..]), rest);
    PrefixOfPrefix(b, FramedSize(b), Unparse(ms[..i]), Unparse(ms[i..]) + rest);
  }

  lemma PrefixOfPrefix(b: seq<byte>, k: nat, x: seq<byte>, y: seq<byte>)
    requires k <= |b| && b[..k] == x + y
    ensures |x| <= |b| && x == b[..|x|]
  {
    assert (x + y)[..|x|] == x;
  }

  function Until(o: Oracle, c: Conn, t: Table, target: Key, callback: Option<Overload>): Visited
    decreases |c.unread|
  {
    var parsed := ParseAll(Framed(c.buff));
    var ms := parsed.messages;
    var i := FirstMatch(ms, target);
    if i < |ms| then
      ParsedFits(c.buff, i + 1);
      Visited(c.(buff := c.buff[|Unparse(ms[..i + 1])|..]), Found(ms[i].arguments),
              Dispatch(t, ms[..i]) + Called(callback, ms[i].arguments), ms[..i + 1], [])
    else if parsed.error.Some? then
      Visited(c, Malformed(parsed.error.value), Dispatch(t, ms), [], [])
    else
      var r := RecvMore(o, c.(buff := c.buff[FramedSize(c.buff)..]));
      if r.eof then Visited(r.conn, Eof, Dispatch(t, ms), ms, r.rereads)
      else After(Dispatch(t, ms), ms, r.rereads, Until(o, r.conn, t, target, callback))
  }

  lemma AfterAfter(t: seq<Event>, ms: seq<ParsedMessage>, xs: seq<Reread>,
                   u: seq<Event>, ns: seq<ParsedMessage>, ys: seq<Reread>, v: Visited)
    ensures After(t, ms, xs, After(u, ns, ys, v)) == After(t + u, ms + ns, xs + ys, v)
  {
    Associative(t, u, v.trace);
    Associative(ms, ns, v.consumed);
    Associative(xs, ys, v.rereads);
  }

  lemma AfterNothing(v: Visited)
    ensures After([], [], [], v) == v
  {
    assert [] + v.trace == v.trace && [] + v.consumed == v.consumed && [] + v.rereads == v.rereads;
  }

  /** One turn of the loop of `until`. */
  lemma UntilStep(o: Oracle, c: Conn, t: Table, target: Key, callback: Option<Overload>)
    ensures
      var parsed := ParseAll(Framed(c.buff));
      var ms := parsed.messages;
      var i := FirstMatch(ms, target);
      var v := Until(o, c, t, target, callback);
      if i < |ms| then
        && |Unparse(ms[..i + 1])| <= |c.buff|
        && v == Visited(c.(buff := c.buff[|Unparse(ms[..i + 1])|..]), Found(ms[i].arguments),
                        Dispatch(t, ms[..i]) + Called(callback, ms[i].arguments), ms[..i + 1], [])
      else if parsed.error.Some? then
        v == Visited(c, Malformed(parsed.error.value), Dispatch(t, ms), [], [])
      else
        var r := RecvMore(o, c.(buff := c.buff[FramedSize(c.buff)..]));
        v == if r.eof then Visited(r.conn, Eof, Dispatch(t, ms), ms, r.rereads)
        else After(Dispatch(t, ms), ms, r.rereads, Until(o, r.conn, t, target, callback))
  {
    hide ParseAll, FramedSize, DispatchOne, RecvMore, FirstMatch, Called, FrameBytes;
    if FirstMatch(ParseAll(Framed(c.buff)).messages, target) < |ParseAll(Framed(c.buff)).messages| {
      ParsedFits(c.buff, FirstMatch(ParseAll(Framed(c.buff)).messages, target) + 1);
    }
  }

  /** How often a call of `until` receives more data. */
  function Receptions(o: Oracle, c: Conn, target: Key): nat
    decreases |c.unread|
  {
    var parsed := ParseAll(Framed(c.buff));
    if FirstMatch(parsed.messages, target) < |parsed.messages| || parsed.error.Some? then 0
    else
      var r := RecvMore(o, c.(buff := c.buff[FramedSize(c.buff)..]));
      if r.eof then 1 else 1 + Receptions(o, r.conn, target)
  }

  /** Every other read of a call of `until` is one of the re-reads recorded. */
  lemma {:induction false} UntilRereadsRecorded(o: Oracle, c: Conn, t: Table, target: Key, callback: Option<Overload>)
    ensures
      var v := Until(o, c, t, target, callback);
      v.conn.calls == c.calls + Receptions(o, c, target) + |v.rereads|
    decreases |c.unread|
  {
    hide ParseAll, FramedSize, DispatchOne, RecvMore, FirstMatch, Called, Until;
    UntilStep(o, c, t, target, callback);
    var r := RecvMore(o, c.(buff := c.buff[FramedSize(c.buff)..]));
    RereadsRecorded(o, c.(buff := c.buff[FramedSize(c.buff)..]));
    if !r.eof {
      UntilRereadsRecorded(o, r.conn, t, target, callback);
    }
  }

  // ---------- When the framing loop always returns ----------

  /** Messages framed without an error stay in front, and what follows them is framed as if alone. */
  lemma FramedInFront(b: seq<byte>, more: seq<byte>)
    requires ParseAll(Framed(b)).error.None?
    ensures
      var ms := ParseAll(Framed(b)).messages;
      var left := b[FramedSize(b)..] + more;
      && AllFit(ms)
      && b + more == Unparse(ms) + left
      && ParseAll(b + more).messages == ms + ParseAll(left).messages
      && ParseAll(Framed(b + more)) == Parsed(ms + ParseAll(Framed(left)).messages, ParseAll(Framed(left)).error)
      && (b + more)[FramedSize(b + more)..] == left[FramedSize(left)..]
      && (SizesOk(b + more) <==> SizesOk(left))
      && (MeetsZero(b + more) <==> MeetsZero(left))
      && (StopsShort(b + more) <==> StopsShort(left))
  {
    hide FramedSize, ParseAll, FrameBytes, SizesOk, MeetsZero, StopsShort;
    var ms := ParseAll(Framed(b)).messages;
    var rest := ParseAllIsPrefix(Framed(b));
    var left := b[FramedSize(b)..] + more;
    assert Framed(b) == Unparse(ms) by {
      assert Unparse(ms) + [] == Unparse(ms);
    }
    assert b == Framed(b) + b[FramedSize(b)..];
    Associative(Unparse(ms), b[FramedSize(b)..], more);
    ParseAllOfFrames(ms, left);
    FramedSizeOfFrames(ms, left);
    FramedBehind(Unparse(ms), left);
    ParseAllOfFrames(ms, Framed(left));
  }

  lemma FramedBehind(front: seq<byte>, left: seq<byte>)
    requires FramedSize(front + left) == |front| + FramedSize(left)
    ensures Framed(front + left) == front + Framed(left)
    ensures (front + left)[FramedSize(front + left)..] == left[FramedSize(left)..]
  {
    hide FramedSize;
  }

  /** Every buffer `until` frames on this schedule is one the framing loop returns for. */
  ghost predicate UntilReturns(o: Oracle, c: Conn, t: Table, target: Key)
    decreases |c.unread|
  {
    var parsed := ParseAll(Framed(c.buff));
    var r := RecvMore(o, c.(buff := c.buff[FramedSize(c.buff)..]));
    && !MeetsZero(c.buff)
    && (FirstMatch(parsed.messages, target) == |parsed.messages| && parsed.error.None? && !r.eof ==>
          UntilReturns(o, r.conn, t, target))
  }

  /** No declared size of zero among the pending bytes is enough on every schedule. */
  lemma {:induction false} NoZeroReturns(o: Oracle, c: Conn, t: Table, target: Key)
    requires !MeetsZero(c.Pending())
    ensures UntilReturns(o, c, t, target)
    ensures !MeetsZero(RecvMore(o, c).conn.buff)
    decreases |c.unread|
  {
    hide MeetsZero, FramedSize, ParseAll, FirstMatch, RecvMore;
    var received := RecvMore(o, c).conn;
    MeetsZeroExtends(received.buff, received.unread);
    MeetsZeroExtends(c.buff, c.unread);
    var r := RecvMore(o, c.(buff := c.buff[FramedSize(c.buff)..]));
    if !r.eof {
      NoZeroReturns(o, r.conn, t, target);
    }
  }

  /** Only the proposals for reads still to come matter. */
  lemma {:induction false} RecvMoreDependsOn(o: Oracle, p: Oracle, c: Conn)
    requires forall k :: k >= c.calls ==> o(k) == p(k)
    ensures RecvMore(o, c) == RecvMore(p, c)
    decreases |c.unread|
  {
    hide RequestSize, RecvMore, Later;
    var requested := RequestSize(|c.buff|);
    var n := ReadLength(o, c.calls, requested, |c.unread|);
    assert n == ReadLength(p, c.calls, requested, |c.unread|);
    hide ReadLength;
    RecvMoreStep(o, c);
    RecvMoreStep(p, c);
    if n != 0 && n == requested {
      RecvMoreDependsOn(o, p, Conn(c.buff + c.unread[..n], c.unread[n..], c.calls + 1));
    }
  }

  // ---------- recv_events, and runs of client calls ----------

  datatype Op = UntilOp(table: Table, target: Key, callback: Option<Overload>) | RecvEventsOp

  /**
   The effect of client calls: messages taken by handlers or parsers, the bytes
   they were, and the handlers run.
   */
  datatype Effect = Effect(conn: Conn, delivered: seq<ParsedMessage>, taken: seq<byte>,
                           trace: seq<Event>, rereads: seq<Reread>)

  function Then(first: Effect, rest: Effect): Effect {
    Effect(rest.conn, first.delivered + rest.delivered, first.taken + rest.taken,
           first.trace + rest.trace, first.rereads + rest.rereads)
  }

  function RecvEvents(o: Oracle, c: Conn): Effect {
    var r := RecvMore(o, c);
    if r.eof then Effect(r.conn, [], [], [], r.rereads)
    else
      var b := r.conn.buff;
      Effect(r.conn.(buff := b[FramedSize(b)..]), ParseAll(Framed(b)).messages, Framed(b), [], r.rereads)
  }

  function Execute(o: Oracle, c: Conn, op: Op): Effect {
    match op
    case RecvEventsOp => RecvEvents(o, c)
    case UntilOp(t, target, callback) =>
      var v := Until(o, c, t, target, callback);
      Effect(v.conn, v.consumed, Unparse(v.consumed), v.trace, v.rereads)
  }

  function Run(o: Oracle, c: Conn, ops: seq<Op>): Effect
    decreases |ops|
  {
    if ops == [] then Effect(c, [], [], [], [])
    else
      var first := Execute(o, c, ops[0]);
      Then(first, Run(o, first.conn, ops[1..]))
  }
}
