/**
 What holds over whole runs of client calls, on arbitrary bytes and on streams
 of messages, for every schedule of read lengths.
 */
module RunProperties {
  import opened Arithmetic
  import opened Bytes
  import opened Chunks
  import opened Framing
  import opened MessageParsers
  import opened OverloadSets
  import opened Receive
  import opened ReceiveProperties
  import opened Wire
  import opened Wrappers

  // ---------- Arbitrary bytes ----------

  /** The last of the messages `ms` is the first for the target; `trace` is what runs for them. */
  ghost predicate EndsAtTarget(ms: seq<ParsedMessage>, trace: seq<Event>, payload: seq<byte>,
                               t: Table, target: Key, callback: Option<Overload>) {
    var last := |ms| - 1;
    && last >= 0
    && FirstMatch(ms, target) == last
    && ms[last].arguments == payload
    && trace == Dispatch(t, ms[..last]) + Called(callback, payload)
  }

  /** How the handlers that ran relate to the messages taken out of the buffer. */
  ghost predicate Accounted(v: Visited, t: Table, target: Key, callback: Option<Overload>) {
    match v.outcome
    case Found(payload) => EndsAtTarget(v.consumed, v.trace, payload, t, target, callback)
    case Eof =>
      && FirstMatch(v.consumed, target) == |v.consumed|
      && v.trace == Dispatch(t, v.consumed)
      && v.conn.unread == []
    case Malformed(e) =>
      var stuck := ParseAll(Framed(v.conn.buff));
      && FirstMatch(v.consumed, target) == |v.consumed|
      && FirstMatch(stuck.messages, target) == |stuck.messages|
      && stuck.error == Some(e)
      && v.trace == Dispatch(t, v.consumed) + Dispatch(t, stuck.messages)
  }

  lemma {:induction false} FirstMatchConcat(ms: seq<ParsedMessage>, ns: seq<ParsedMessage>, target: Key)
    requires FirstMatch(ms, target) == |ms|
    ensures FirstMatch(ms + ns, target) == |ms| + FirstMatch(ns, target)
  {
    FirstMatchSplit(ms + ns, |ms|, target);
    assert (ms + ns)[..|ms|] == ms && (ms + ns)[|ms|..] == ns;
  }

  lemma LastOfConcat<T>(a: seq<T>, b: seq<T>)
    requires b != []
    ensures (a + b)[..|a + b| - 1] == a + b[..|b| - 1]
    ensures (a + b)[|a + b| - 1] == b[|b| - 1]
  {
  }

  lemma EndsLater(ms: seq<ParsedMessage>, ns: seq<ParsedMessage>, trace: seq<Event>, payload: seq<byte>,
                  t: Table, target: Key, callback: Option<Overload>)
    requires EndsAtTarget(ns, trace, payload, t, target, callback)
    requires FirstMatch(ms + ns, target) == |ms| + FirstMatch(ns, target)
    ensures EndsAtTarget(ms + ns, Dispatch(t, ms) + trace, payload, t, target, callback)
  {
    hide FirstMatch, DispatchOne, Called, FlatMap;
    var before := ns[..|ns| - 1];
    LastOfConcat(ms, ns);
    FlatMapConcat(ms, before, DispatchOne(t));
    Associative(Dispatch(t, ms), Dispatch(t, before), Called(callback, payload));
  }

  lemma EofAfter(v: Visited, ms: seq<ParsedMessage>, rereads: seq<Reread>,
                 t: Table, target: Key, callback: Option<Overload>)
    requires v.outcome.Eof? && Accounted(v, t, target, callback)
    requires FirstMatch(ms + v.consumed, target) == |ms| + FirstMatch(v.consumed, target)
    ensures Accounted(After(Dispatch(t, ms), ms, rereads, v), t, target, callback)
  {
    hide FirstMatch, DispatchOne;
    FlatMapConcat(ms, v.consumed, DispatchOne(t));
  }

  lemma MalformedAfter(v: Visited, ms: seq<ParsedMessage>, rereads: seq<Reread>,
                       t: Table, target: Key, callback: Option<Overload>)
    requires v.outcome.Malformed? && Accounted(v, t, target, callback)
    requires FirstMatch(ms + v.consumed, target) == |ms| + FirstMatch(v.consumed, target)
    ensures Accounted(After(Dispatch(t, ms), ms, rereads, v), t, target, callback)
  {
    hide FirstMatch, DispatchOne, ParseAll, Framed;
    FlatMapConcat(ms, v.consumed, DispatchOne(t));
    Associative(Dispatch(t, ms), Dispatch(t, v.consumed), Dispatch(t, ParseAll(Framed(v.conn.buff)).messages));
  }

  lemma AccountedAfter(v: Visited, ms: seq<ParsedMessage>, rereads: seq<Reread>,
                       t: Table, target: Key, callback: Option<Overload>)
    requires Accounted(v, t, target, callback) && FirstMatch(ms, target) == |ms|
    ensures Accounted(After(Dispatch(t, ms), ms, rereads, v), t, target, callback)
  {
    hide FirstMatch, ParseAll, Framed, Dispatch, Called, EndsAtTarget;
    FirstMatchConcat(ms, v.consumed, target);
    match v.outcome
    case Found(payload) => EndsLater(ms, v.consumed, v.trace, payload, t, target, callback);
    case Eof => EofAfter(v, ms, rereads, t, target, callback);
    case Malformed(e) => MalformedAfter(v, ms, rereads, t, target, callback);
  }

  /** Whatever the bytes, every handler run is accounted for by the messages taken or still stuck. */
  lemma {:induction false} UntilAccounted(o: Oracle, c: Conn, t: Table, target: Key, callback: Option<Overload>)
    ensures Accounted(Until(o, c, t, target, callback), t, target, callback)
    decreases |c.unread|
  {
    hide ParseAll, Framed, FramedSize, DispatchOne, RecvMore, Called, FirstMatch;
    var ms := ParseAll(Framed(c.buff)).messages;
    var i := FirstMatch(ms, target);
    if i < |ms| {
      FirstMatchSplit(ms, i + 1, target);
      assert ms[..i + 1][..i] == ms[..i];
    } else if ParseAll(Framed(c.buff)).error.Some? {
      assert Dispatch(t, ms) == Dispatch(t, []) + Dispatch(t, ms);
    } else {
      var r := RecvMore(o, c.(buff := c.buff[FramedSize(c.buff)..]));
      if !r.eof {
        UntilAccounted(o, r.conn, t, target, callback);
        AccountedAfter(Until(o, r.conn, t, target, callback), ms, r.rereads, t, target, callback);
      }
    }
  }

  /** `until` takes whole messages from the front of what is pending and touches nothing else. */
  lemma {:induction false} UntilConserves(o: Oracle, c: Conn, t: Table, target: Key, callback: Option<Overload>)
    ensures Unparse(Until(o, c, t, target, callback).consumed) + Until(o, c, t, target, callback).conn.Pending()
            == c.Pending()
    decreases |c.unread|
  {
    hide FramedSize, ParseAll, FrameBytes, DispatchOne, Called;
    var parsed := ParseAll(Framed(c.buff));
    var ms := parsed.messages;
    var i := FirstMatch(ms, target);
    if i < |ms| {
      ParsedFits(c.buff, i + 1);
      var taken := Unparse(ms[..i + 1]);
      assert c.buff == taken + c.buff[|taken|..];
      Associative(taken, c.buff[|taken|..], c.unread);
    } else if parsed.error.Some? {
      assert Unparse([]) + c.Pending() == c.Pending();
    } else {
      var rest := ParseAllIsPrefix(Framed(c.buff));
      assert Framed(c.buff) + [] == Framed(c.buff) == Unparse(ms);
      var left := c.buff[FramedSize(c.buff)..];
      assert c.buff == Unparse(ms) + left;
      Associative(Unparse(ms), left, c.unread);
      var r := RecvMore(o, c.(buff := left));
      if !r.eof {
        UntilConserves(o, r.conn, t, target, callback);
        var v := Until(o, r.conn, t, target, callback);
        FlatMapConcat(ms, v.consumed, FrameBytes);
        Associative(Unparse(ms), Unparse(v.consumed), v.conn.Pending());
      }
    }
  }

  lemma ExecuteConserves(o: Oracle, c: Conn, op: Op)
    ensures Execute(o, c, op).taken + Execute(o, c, op).conn.Pending() == c.Pending()
  {
    hide FramedSize, ParseAll, Until;
    match op
    case UntilOp(t, target, callback) =>
      UntilConserves(o, c, t, target, callback);
    case RecvEventsOp =>
      var r := RecvMore(o, c);
      var b := r.conn.buff;
      if r.eof {
        assert [] + r.conn.Pending() == r.conn.Pending();
      } else {
        assert b == Framed(b) + b[FramedSize(b)..];
        Associative(Framed(b), b[FramedSize(b)..], r.conn.unread);
      }
  }

  /** No run of client calls loses, duplicates or reorders a byte, whatever the peer sends. */
  lemma {:induction false} RunConserves(o: Oracle, c: Conn, ops: seq<Op>)
    ensures Run(o, c, ops).taken + Run(o, c, ops).conn.Pending() == c.Pending()
    decreases |ops|
  {
    hide Execute;
    if ops == [] {
      assert [] + c.Pending() == c.Pending();
    } else {
      var first := Execute(o, c, ops[0]);
      ExecuteConserves(o, c, ops[0]);
      RunConserves(o, first.conn, ops[1..]);
      var rest := Run(o, first.conn, ops[1..]);
      Associative(first.taken, rest.taken, rest.conn.Pending());
    }
  }

  // ---------- Streams of messages ----------

  /** Looping back to read happens strictly inside a message, with bytes still to come. */
  ghost predicate InsideMessage(x: Reread, ms: seq<ParsedMessage>, tail: seq<byte>) {
    x.owed > 0 && forall j :: 0 <= j <= |ms| ==> |Unparse(ms[j..])| + |tail| != x.owed
  }

  lemma UnalignedIsInside(x: Reread, s: seq<byte>, ms: seq<ParsedMessage>, tail: seq<byte>)
    requires IsStream(s, ms, tail) && x.owed % 4 != 0
    requires AllAligned(ms) && |tail| % 4 == 0
    ensures InsideMessage(x, ms, tail)
  {
    forall j | 0 <= j <= |ms|
      ensures |Unparse(ms[j..])| + |tail| != x.owed
    {
      AlignedSlice(ms, j);
      UnparseAligned(ms[j..]);
      SumAligned(|Unparse(ms[j..])|, |tail|);
    }
  }

  lemma RecvRereads(o: Oracle, c: Conn)
    requires |c.Pending()| % 4 == 0
    ensures forall x <- RecvMore(o, c).rereads :: x.owed % 4 != 0
  {
    hide RecvMore;
    RereadsUnaligned(o, c);
    forall x | x in RecvMore(o, c).rereads
      ensures x.owed % 4 != 0
    {
      OwedUnaligned(x, |c.Pending()|);
    }
  }

  lemma OwedUnaligned(x: Reread, total: nat)
    requires x.position % 4 != 0 && x.position + x.owed == total && total % 4 == 0
    ensures x.owed % 4 != 0
  {
  }

  lemma {:induction false} UntilRereads(o: Oracle, c: Conn, t: Table, target: Key, callback: Option<Overload>,
                                        ms: seq<ParsedMessage>, tail: seq<byte>)
    requires IsStream(c.Pending(), ms, tail)
    requires AllAligned(ms) && |tail| % 4 == 0
    ensures forall x <- Until(o, c, t, target, callback).rereads :: x.owed % 4 != 0
    decreases |c.unread|
  {
    hide IsStream, FramedSize, ParseAll, DispatchOne, RecvMore;
    var j := FramedOfStream(c.Pending(), ms, tail, c.buff, c.unread);
    if FirstMatch(ms[..j], target) == j {
      var erased := c.(buff := c.buff[FramedSize(c.buff)..]);
      AlignedSlice(ms, j);
      StreamLength(erased.Pending(), ms[j..], tail);
      RecvRereads(o, erased);
      var r := RecvMore(o, erased);
      if !r.eof {
        UntilRereads(o, r.conn, t, target, callback, ms[j..], tail);
      }
    }
  }

  /** One or more client calls took the messages `delivered` off the front of a stream. */
  ghost predicate Delivers(e: Effect, ms: seq<ParsedMessage>, tail: seq<byte>) {
    && e.delivered <= ms
    && e.taken == Unparse(e.delivered)
    && IsStream(e.conn.Pending(), ms[|e.delivered|..], tail)
  }

  /** The parser reads from a stream the messages in it. */
  lemma ParseAllOfStream(s: seq<byte>, ms: seq<ParsedMessage>, tail: seq<byte>)
    requires IsStream(s, ms, tail)
    ensures ParseAll(s).messages == ms
  {
    ParseAllOfFrames(ms, tail);
    assert ParseAll(tail).messages == [];
    assert ms + [] == ms;
  }

  /** Whole messages taken off the front of a stream are the first messages in it. */
  lemma TakenDelivers(s: seq<byte>, ms: seq<ParsedMessage>, tail: seq<byte>, e: Effect)
    requires IsStream(s, ms, tail)
    requires AllFit(e.delivered) && e.taken == Unparse(e.delivered) && e.taken + e.conn.Pending() == s
    ensures Delivers(e, ms, tail)
  {
    hide IsStream, ParseAll, FrameBytes, FlatMap;
    ParseAllOfStream(s, ms, tail);
    ParseAllIsLongest(s, e.delivered, e.conn.Pending());
    assert ms[..|e.delivered|] == e.delivered;
    StreamSuffix(s, ms, tail, |e.delivered|, e.conn.Pending());
  }

  lemma {:induction false} ConsumedFit(o: Oracle, c: Conn, t: Table, target: Key, callback: Option<Overload>)
    ensures AllFit(Until(o, c, t, target, callback).consumed)
    decreases |c.unread|
  {
    hide ParseAll, Framed, FramedSize, DispatchOne, RecvMore, Called;
    var rest := ParseAllIsPrefix(Framed(c.buff));
    var parsed := ParseAll(Framed(c.buff));
    var r := RecvMore(o, c.(buff := c.buff[FramedSize(c.buff)..]));
    if FirstMatch(parsed.messages, target) == |parsed.messages| && parsed.error.None? && !r.eof {
      ConsumedFit(o, r.conn, t, target, callback);
    }
  }

  lemma EventsTakeWholeMessages(o: Oracle, c: Conn, ms: seq<ParsedMessage>, tail: seq<byte>)
    requires IsStream(c.Pending(), ms, tail)
    ensures
      var e := RecvEvents(o, c);
      AllFit(e.delivered) && e.taken == Unparse(e.delivered)
  {
    hide IsStream, FramedSize, ParseAll, RecvMore, FrameBytes;
    var r := RecvMore(o, c);
    if !r.eof {
      var j := FramedOfStream(r.conn.Pending(), ms, tail, r.conn.buff, r.conn.unread);
      var rest := ParseAllIsPrefix(Framed(r.conn.buff));
    }
  }

  lemma ExecuteDelivers(o: Oracle, c: Conn, op: Op, ms: seq<ParsedMessage>, tail: seq<byte>)
    requires IsStream(c.Pending(), ms, tail)
    ensures Delivers(Execute(o, c, op), ms, tail)
  {
    hide IsStream, Until, RecvEvents, Delivers;
    ExecuteConserves(o, c, op);
    match op {
      case UntilOp(t, target, callback) => ConsumedFit(o, c, t, target, callback);
      case RecvEventsOp => EventsTakeWholeMessages(o, c, ms, tail);
    }
    TakenDelivers(c.Pending(), ms, tail, Execute(o, c, op));
  }

  lemma DeliversThen(first: Effect, rest: Effect, ms: seq<ParsedMessage>, tail: seq<byte>)
    requires Delivers(first, ms, tail)
    requires Delivers(rest, ms[|first.delivered|..], tail)
    ensures Delivers(Then(first, rest), ms, tail)
  {
    hide IsStream, FrameBytes;
    var n, m := |first.delivered|, |rest.delivered|;
    assert ms[n..][m..] == ms[n + m..];
    assert first.delivered + rest.delivered <= ms by {
      assert first.delivered == ms[..n] && rest.delivered == ms[n..][..m];
      SliceJoin(ms, n, m);
    }
    FlatMapConcat(first.delivered, rest.delivered, FrameBytes);
  }

  /**
   The main theorem about runs. However `until` and `recv_events` are interleaved,
   however the stream is chunked and wherever it breaks off, also for a client
   that keeps calling after end-of-file was reported: the messages delivered are a
   prefix of the messages sent, each once and in order, and the client's buffer
   begins where the next one does.
   */
  lemma {:induction false} RunDeliversInOrder(o: Oracle, c: Conn, ops: seq<Op>, ms: seq<ParsedMessage>, tail: seq<byte>)
    requires IsStream(c.Pending(), ms, tail)
    ensures Delivers(Run(o, c, ops), ms, tail)
    decreases |ops|
  {
    hide IsStream, Execute, FrameBytes;
    if ops == [] {
      assert ms[0..] == ms;
    } else {
      var first := Execute(o, c, ops[0]);
      ExecuteDelivers(o, c, ops[0], ms, tail);
      var left := ms[|first.delivered|..];
      RunDeliversInOrder(o, first.conn, ops[1..], left, tail);
      DeliversThen(first, Run(o, first.conn, ops[1..]), ms, tail);
    }
  }

  lemma {:induction false} RunRereads(o: Oracle, c: Conn, ops: seq<Op>, ms: seq<ParsedMessage>, tail: seq<byte>)
    requires IsStream(c.Pending(), ms, tail)
    requires AllAligned(ms) && |tail| % 4 == 0
    ensures forall x <- Run(o, c, ops).rereads :: x.owed % 4 != 0
    decreases |ops|
  {
    hide IsStream, Until, RecvMore, FramedSize, ParseAll, FrameBytes;
    if ops != [] {
      var first := Execute(o, c, ops[0]);
      ExecuteDelivers(o, c, ops[0], ms, tail);
      match ops[0] {
        case UntilOp(t, target, callback) =>
          UntilRereads(o, c, t, target, callback, ms, tail);
        case RecvEventsOp =>
          StreamLength(c.Pending(), ms, tail);
          RecvRereads(o, c);
      }
      AlignedSlice(ms, |first.delivered|);
      RunRereads(o, first.conn, ops[1..], ms[|first.delivered|..], tail);
    }
  }

  /** The read-again loop is safe in every run: it never asks a peer that owes nothing. */
  lemma RereadsInsideMessages(o: Oracle, c: Conn, ops: seq<Op>, ms: seq<ParsedMessage>, tail: seq<byte>)
    requires IsStream(c.Pending(), ms, tail)
    requires AllAligned(ms) && |tail| % 4 == 0
    ensures forall x <- Run(o, c, ops).rereads :: InsideMessage(x, ms, tail)
  {
    hide IsStream, Run, InsideMessage;
    RunRereads(o, c, ops, ms, tail);
    forall x | x in Run(o, c, ops).rereads
      ensures InsideMessage(x, ms, tail)
    {
      UnalignedIsInside(x, c.Pending(), ms, tail);
    }
  }

  /**
   `recv_events` delivers everything it can: when it returns, no whole message is
   left in the buffer; when it throws it changes nothing pending, and on a stream
   that ends at a multiple of four it throws exactly when nothing is unread.
   */
  lemma RecvEventsDelivers(o: Oracle, c: Conn, ms: seq<ParsedMessage>, tail: seq<byte>)
    requires IsStream(c.Pending(), ms, tail)
    ensures |c.Pending()| % 4 == 0 ==> (RecvMore(o, c).eof <==> c.unread == [])
    ensures
      var e := RecvEvents(o, c);
      if RecvMore(o, c).eof then e.delivered == [] && e.conn.buff == c.Pending() && e.conn.unread == []
      else Incomplete(e.conn.buff) && |e.conn.unread| < |c.unread|
  {
    hide IsStream, FramedSize, ParseAll, RecvMore, FrameBytes, Incomplete;
    if |c.Pending()| % 4 == 0 {
      EofOnlyWhenDrained(o, c);
    }
    var r := RecvMore(o, c);
    assert r.conn.buff + [] == r.conn.buff;
    if !r.eof {
      var j := FramedOfStream(r.conn.Pending(), ms, tail, r.conn.buff, r.conn.unread);
    }
  }

  // ---------- One `until` after the other ----------

  /** Handlers run by successive calls of `until` on a list of messages, and the messages they leave. */
  datatype Splitting = Splitting(trace: seq<Event>, left: seq<ParsedMessage>)

  function SplitOnce(ms: seq<ParsedMessage>, t: Table, target: Key, callback: Option<Overload>): Splitting {
    var i := FirstMatch(ms, target);
    if i < |ms| then Splitting(Dispatch(t, ms[..i]) + Called(callback, ms[i].arguments), ms[i + 1..])
    else Splitting(Dispatch(t, ms), [])
  }

  ghost predicate OnlyUntils(ops: seq<Op>) {
    forall op <- ops :: op.UntilOp?
  }

  function SplitAll(ms: seq<ParsedMessage>, ops: seq<Op>): Splitting
    requires OnlyUntils(ops)
    decreases |ops|
  {
    if ops == [] then Splitting([], ms)
    else
      assert ops[0] in ops;
      var first := SplitOnce(ms, ops[0].table, ops[0].target, ops[0].callback);
      var rest := SplitAll(first.left, ops[1..]);
      Splitting(first.trace + rest.trace, rest.left)
  }

  lemma UntilSplitsOnce(o: Oracle, c: Conn, t: Table, target: Key, callback: Option<Overload>,
                        ms: seq<ParsedMessage>, tail: seq<byte>)
    requires IsStream(c.Pending(), ms, tail)
    requires AllAligned(ms) && |tail| % 4 == 0
    ensures
      var e := Execute(o, c, UntilOp(t, target, callback));
      var s := SplitOnce(ms, t, target, callback);
      e.trace == s.trace && IsStream(e.conn.Pending(), s.left, tail) && AllAligned(s.left)
  {
    hide IsStream, Until, Dispatch, FirstMatch, Called;
    UntilSplitsAtTarget(o, c, t, target, callback, ms, tail);
    var v := Until(o, c, t, target, callback);
    if FirstMatch(ms, target) == |ms| {
      ExecuteDelivers(o, c, UntilOp(t, target, callback), ms, tail);
      assert ms[..|ms|] == ms && ms[|ms|..] == [];
    }
  }

  /**
   A client that only calls `until` behaves, over any number of calls and for
   every schedule, like the program that splits the list of messages sent: same
   handlers, same arguments, same order, same messages left.
   */
  lemma {:induction false} UntilsRefineSplitting(o: Oracle, c: Conn, ops: seq<Op>,
                                                 ms: seq<ParsedMessage>, tail: seq<byte>)
    requires IsStream(c.Pending(), ms, tail)
    requires AllAligned(ms) && |tail| % 4 == 0 && OnlyUntils(ops)
    ensures Run(o, c, ops).trace == SplitAll(ms, ops).trace
    ensures IsStream(Run(o, c, ops).conn.Pending(), SplitAll(ms, ops).left, tail)
    decreases |ops|
  {
    hide IsStream, Execute, SplitOnce;
    if ops != [] {
      assert ops[0] in ops;
      var op := ops[0];
      UntilSplitsOnce(o, c, op.table, op.target, op.callback, ms, tail);
      var first := Execute(o, c, op);
      var left := SplitOnce(ms, op.table, op.target, op.callback).left;
      UntilsRefineSplitting(o, first.conn, ops[1..], left, tail);
    }
  }
}
