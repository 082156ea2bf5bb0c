/**
 From the messages a peer appends to the arguments its handlers are called with.
 */
module EndToEnd {
  import opened Bytes
  import opened Chunks
  import opened MessageInterpreters
  import opened MessageParsers
  import opened OverloadSets
  import opened Receive
  import opened ReceiveProperties
  import opened RunProperties
  import opened Wire
  import opened Wrappers

  // ---------- Printer against parser ----------

  /** `p` is what the parser should make of `m`: its header, and an encoding of its arguments. */
  ghost predicate Carries(m: Message, p: ParsedMessage) {
    p.objectId == m.objectId && p.opcode == m.opcode && EncodesAll(m.args, p.arguments)
  }

  ghost predicate CarriesAll(ms: seq<Message>, ps: seq<ParsedMessage>) {
    |ps| == |ms| && forall i :: 0 <= i < |ms| ==> Carries(ms[i], ps[i])
  }

  predicate AllMessagesFit(ms: seq<Message>) {
    forall i :: 0 <= i < |ms| ==> ms[i].Fits()
  }

  lemma CarriesSize(m: Message, p: ParsedMessage)
    requires Carries(m, p)
    ensures p.Size() == m.Size()
  {
    ChunkedSize(m.args, p.arguments, ElementSize, Encodes);
  }

  lemma FrameCarries(m: Message, bs: seq<byte>) returns (p: ParsedMessage)
    requires IsFrame(m, bs) && m.Fits()
    ensures Carries(m, p) && p.Fits() && FrameBytes(p) == bs
  {
    p := ParsedMessage(m.objectId, m.opcode, bs[HEADER_SIZE..]);
    CarriesSize(m, p);
    assert bs == bs[..HEADER_SIZE] + bs[HEADER_SIZE..];
  }

  /** The bytes of messages that fit are the frames of parsed messages that carry them. */
  lemma {:induction false} FramesCarry(ms: seq<Message>, bs: seq<byte>) returns (ps: seq<ParsedMessage>)
    requires EncodesMessages(ms, bs) && AllMessagesFit(ms)
    ensures CarriesAll(ms, ps) && bs == Unparse(ps)
    ensures AllFit(ps) && AllAligned(ps)
    decreases |ms|
  {
    hide Carries, FrameBytes, IsFrame;
    if ms == [] {
      ps := [];
    } else {
      var n := ms[0].Size();
      ChunkedUncons(ms, bs, MessageSize, IsFrame);
      var p := FrameCarries(ms[0], bs[..n]);
      CarriesSize(ms[0], p);
      var rest := FramesCarry(ms[1..], bs[n..]);
      ps := [p] + rest;
      UnparseCons(p, rest);
      assert bs[..n] + bs[n..] == bs;
      forall i | 0 <= i < |ms|
        ensures Carries(ms[i], ps[i])
      {
        if i > 0 {
          assert ms[1..][i - 1] == ms[i] && rest[i - 1] == ps[i];
        }
      }
    }
  }

  /**
   The 16-bit size field is enough exactly for messages of at most 65535 bytes:
   the parser recovers the messages that were appended if and only if all fit.
   */
  lemma FramingRoundTripIff(ms: seq<Message>, bs: seq<byte>)
    requires EncodesMessages(ms, bs)
    ensures (exists ps :: CarriesAll(ms, ps) && ParseAll(bs) == Parsed(ps, None)) <==> AllMessagesFit(ms)
  {
    if AllMessagesFit(ms) {
      var ps := FramesCarry(ms, bs);
      ParseUnparse(ps);
      assert CarriesAll(ms, ps) && ParseAll(bs) == Parsed(ps, None);
    }
    if ps :| CarriesAll(ms, ps) && ParseAll(bs) == Parsed(ps, None) {
      var rest := ParseAllIsPrefix(bs);
      forall i | 0 <= i < |ms|
        ensures ms[i].Fits()
      {
        assert Carries(ms[i], ps[i]);
        CarriesSize(ms[i], ps[i]);
        assert ps[i] in ps;
      }
    }
  }

  /** A payload that carries arguments is interpreted as those arguments. */
  lemma CarriedIsUnderstood(m: Message, p: ParsedMessage)
    requires Carries(m, p) && FdFree(m.args) && m.Fits()
    ensures Receivable(Kinds(m.args))
    ensures ReadAll(Kinds(m.args), p.arguments) == Some(Interpreted(m.args, |p.arguments|))
  {
    CarriesSize(m, p);
    InterpretEncoded(m.args, p.arguments);
  }

  /**
   Append any messages without descriptors that fit, release the bytes, parse and
   interpret them: the same objects, opcodes and arguments come back, in order.
   */
  lemma CodecRoundTrip(ms: seq<Message>, bs: seq<byte>)
    requires EncodesMessages(ms, bs) && AllMessagesFit(ms)
    requires forall i :: 0 <= i < |ms| ==> FdFree(ms[i].args)
    ensures
      var parsed := ParseAll(bs);
      && parsed.error == None && |parsed.messages| == |ms|
      && forall i :: 0 <= i < |ms| ==>
                       && parsed.messages[i].objectId == ms[i].objectId
                       && parsed.messages[i].opcode == ms[i].opcode
                       && Receivable(Kinds(ms[i].args))
                       && ReadAll(Kinds(ms[i].args), parsed.messages[i].arguments)
                          == Some(Interpreted(ms[i].args, |parsed.messages[i].arguments|))
  {
    var ps := FramesCarry(ms, bs);
    ParseUnparse(ps);
    forall i | 0 <= i < |ms|
      ensures Receivable(Kinds(ms[i].args))
      ensures ReadAll(Kinds(ms[i].args), ps[i].arguments) == Some(Interpreted(ms[i].args, |ps[i].arguments|))
    {
      assert Carries(ms[i], ps[i]) && ms[i].Fits();
      CarriedIsUnderstood(ms[i], ps[i]);
    }
  }

  // ---------- Handlers ----------

  function KeyOfMessage(m: Message): Key {
    Key(m.objectId, m.opcode)
  }

  /** A run of user code: a handler or the callback with arguments, or an undefined interpretation. */
  datatype Call = Handled(id: nat, args: seq<Arg>) | CalledBack(id: nat, args: seq<Arg>) | Undefined | NotCalled

  /** What user code sees of an event. */
  ghost function Seen(): Event -> seq<Call> {
    (e: Event) =>
      match e
      case Invoked(overload, payload) => [Handle(overload, payload)]
      case Callback(overload, payload) => [CallBack(overload, payload)]
      case Defaulted(_) => [NotCalled]
  }

  ghost function Handle(overload: Overload, payload: seq<byte>): Call {
    if Receivable(overload.schema) && ReadAll(overload.schema, payload).Some?
    then Handled(overload.id, ReadAll(overload.schema, payload).value.args)
    else Undefined
  }

  ghost function CallBack(overload: Overload, payload: seq<byte>): Call {
    if Receivable(overload.schema) && ReadAll(overload.schema, payload).Some?
    then CalledBack(overload.id, ReadAll(overload.schema, payload).value.args)
    else Undefined
  }

  ghost function Calls(events: seq<Event>): seq<Call> {
    FlatMap(events, Seen())
  }

  /** The runs of handlers the original messages ask for. */
  function Intended(t: Table): Message -> seq<Call> {
    (m: Message) => if KeyOfMessage(m) in t then [Handled(t[KeyOfMessage(m)].id, m.args)] else []
  }

  function IntendedCalls(t: Table, ms: seq<Message>): seq<Call> {
    FlatMap(ms, Intended(t))
  }

  /** The object and the opcode of a message select its handler, which is to get the arguments. */
  lemma IntendedMore(t: Table, ms: seq<Message>, m: Message)
    ensures IntendedCalls(t, []) == []
    ensures
      var key := Key(m.objectId, m.opcode);
      IntendedCalls(t, ms + [m]) ==
      if key in t then IntendedCalls(t, ms) + [Handled(t[key].id, m.args)] else IntendedCalls(t, ms)
  {
    FlatMapSnoc(ms, m, Intended(t));
  }

  /** User code sees the arguments a payload encodes, in handlers and in the callback. */
  lemma CallsMore(events: seq<Event>, overload: Overload, args: seq<Arg>, payload: seq<byte>)
    requires FdFree(args) && EncodesAll(args, payload) && |payload| < 0x1_0000_0000
    requires overload.schema == Kinds(args)
    ensures Calls([]) == []
    ensures Calls(events + [Invoked(overload, payload)]) == Calls(events) + [Handled(overload.id, args)]
    ensures Calls(events + [Callback(overload, payload)]) == Calls(events) + [CalledBack(overload.id, args)]
  {
    hide ReadAll, Receivable;
    InterpretEncoded(args, payload);
    FlatMapSnoc(events, Invoked(overload, payload), Seen());
    FlatMapSnoc(events, Callback(overload, payload), Seen());
  }

  /** Every message with a handler is of the type the handler was registered for, without descriptors. */
  ghost predicate WellTyped(t: Table, ms: seq<Message>) {
    forall i :: 0 <= i < |ms| && KeyOfMessage(ms[i]) in t ==>
                  FdFree(ms[i].args) && t[KeyOfMessage(ms[i])].schema == Kinds(ms[i].args)
  }

  lemma OneDispatched(t: Table, m: Message, p: ParsedMessage)
    requires Carries(m, p) && m.Fits()
    requires KeyOfMessage(m) in t ==> FdFree(m.args) && t[KeyOfMessage(m)].schema == Kinds(m.args)
    ensures Calls(DispatchOne(t)(p)) == Intended(t)(m)
  {
    hide Carries, ReadAll, Receivable;
    assert KeyOf(p) == KeyOfMessage(m) by {
      CarriesKey(m, p);
    }
    if KeyOfMessage(m) in t {
      CarriedIsUnderstood(m, p);
      FlatMapSingle(Invoked(t[KeyOf(p)], p.arguments), Seen());
    }
  }

  lemma CarriesKey(m: Message, p: ParsedMessage)
    requires Carries(m, p)
    ensures KeyOf(p) == KeyOfMessage(m)
  {
  }

  /** Dispatching the parsed messages calls the handlers with the original arguments. */
  lemma {:induction false} DispatchedIsIntended(t: Table, ms: seq<Message>, ps: seq<ParsedMessage>)
    requires CarriesAll(ms, ps) && AllMessagesFit(ms) && WellTyped(t, ms)
    ensures Calls(Dispatch(t, ps)) == IntendedCalls(t, ms)
    decreases |ms|
  {
    hide Carries, DispatchOne, Intended, Seen, FdFree;
    if ms != [] {
      assert Carries(ms[0], ps[0]) && ms[0].Fits();
      OneDispatched(t, ms[0], ps[0]);
      TailCarries(t, ms, ps);
      DispatchedIsIntended(t, ms[1..], ps[1..]);
      FlatMapConcat(DispatchOne(t)(ps[0]), Dispatch(t, ps[1..]), Seen());
    }
  }

  lemma TailCarries(t: Table, ms: seq<Message>, ps: seq<ParsedMessage>)
    requires CarriesAll(ms, ps) && AllMessagesFit(ms) && WellTyped(t, ms) && ms != []
    ensures CarriesAll(ms[1..], ps[1..]) && AllMessagesFit(ms[1..]) && WellTyped(t, ms[1..])
  {
    hide Carries, FdFree;
    forall i | 0 <= i < |ms| - 1
      ensures Carries(ms[1..][i], ps[1..][i])
    {
      assert Carries(ms[i + 1], ps[i + 1]);
    }
  }

  lemma PrefixCarries(ms: seq<Message>, ps: seq<ParsedMessage>, i: nat)
    requires CarriesAll(ms, ps) && AllMessagesFit(ms) && i <= |ms|
    ensures CarriesAll(ms[..i], ps[..i]) && AllMessagesFit(ms[..i])
    ensures CarriesAll(ms[i..], ps[i..]) && AllMessagesFit(ms[i..])
  {
    hide Carries;
    forall k | 0 <= k < |ms| - i
      ensures Carries(ms[i..][k], ps[i..][k])
    {
      assert Carries(ms[i + k], ps[i + k]);
    }
  }

  lemma FrameOfCarried(m: Message, p: ParsedMessage)
    requires Carries(m, p)
    ensures IsFrame(m, FrameBytes(p))
  {
    CarriesSize(m, p);
    var header := HeaderBytes(p.objectId, p.opcode, Narrow16(p.Size()));
    assert FrameBytes(p)[..HEADER_SIZE] == header && FrameBytes(p)[HEADER_SIZE..] == p.arguments;
  }

  /** The frames of parsed messages that carry messages encode them. */
  lemma {:induction false} CarriedEncodes(ms: seq<Message>, ps: seq<ParsedMessage>)
    requires CarriesAll(ms, ps)
    ensures EncodesMessages(ms, Unparse(ps))
    decreases |ms|
  {
    hide Carries, FrameBytes, IsFrame;
    if ms != [] {
      assert Carries(ms[0], ps[0]);
      CarriesSize(ms[0], ps[0]);
      FrameOfCarried(ms[0], ps[0]);
      assert CarriesAll(ms[1..], ps[1..]) by {
        forall i | 0 <= i < |ms| - 1
          ensures Carries(ms[1..][i], ps[1..][i])
        {
          assert Carries(ms[i + 1], ps[i + 1]);
        }
      }
      CarriedEncodes(ms[1..], ps[1..]);
      UnparseUncons(ps);
      ChunkedCons(ms[0], ms[1..], FrameBytes(ps[0]), Unparse(ps[1..]), MessageSize, IsFrame);
      assert [ms[0]] + ms[1..] == ms;
    }
  }

  function IsMessageFor(target: Key): Message -> bool {
    (m: Message) => KeyOfMessage(m) == target
  }

  /** The index of the first message for `target`, or the number of messages. */
  function FirstFor(ms: seq<Message>, target: Key): (i: nat)
    ensures i <= |ms|
    ensures i < |ms| ==> ms[i].objectId == target.objectId && ms[i].opcode == target.opcode
    ensures forall j :: 0 <= j < i ==> ms[j].objectId != target.objectId || ms[j].opcode != target.opcode
  {
    var i := FirstIndex(ms, IsMessageFor(target));
    assert forall j :: 0 <= j < i ==> !IsMessageFor(target)(ms[j]);
    i
  }

  lemma SameFirst(ms: seq<Message>, ps: seq<ParsedMessage>, target: Key)
    requires CarriesAll(ms, ps)
    ensures FirstFor(ms, target) == FirstMatch(ps, target)
  {
    hide Carries;
    forall i | 0 <= i < |ms|
      ensures KeyOf(ps[i]) == KeyOfMessage(ms[i])
    {
      assert Carries(ms[i], ps[i]);
      CarriesKey(ms[i], ps[i]);
    }
  }

  /** The run of the callback the target message asks for. */
  function IntendedCallback(callback: Option<Overload>, m: Message): seq<Call> {
    match callback
    case None => []
    case Some(overload) => [CalledBack(overload.id, m.args)]
  }

  /** What one `until` should call, and the messages it should leave. */
  datatype Intention = Intention(calls: seq<Call>, left: seq<Message>)

  function IntendedUntil(t: Table, target: Key, callback: Option<Overload>, ms: seq<Message>): Intention {
    var i := FirstFor(ms, target);
    if i < |ms| then Intention(IntendedCalls(t, ms[..i]) + IntendedCallback(callback, ms[i]), ms[i + 1..])
    else Intention(IntendedCalls(t, ms), [])
  }

  /** The messages one `until` interprets are of the types its handlers and callback take. */
  ghost predicate UntilTyped(t: Table, target: Key, callback: Option<Overload>, ms: seq<Message>) {
    var i := FirstFor(ms, target);
    && WellTyped(t, ms[..i])
    && (i < |ms| && callback.Some? ==> FdFree(ms[i].args) && callback.value.schema == Kinds(ms[i].args))
  }

  /**
   End to end. A peer appends any messages that fit; whatever the padding bytes
   hold and however the bytes arrive, `until` calls the handlers of the messages
   before the first one for its target with exactly the original arguments and in
   order, gives that one's arguments to the callback if there is one, and leaves
   encodings of the messages behind it. Without such a message all handlers are
   called before end-of-file is reported, and nothing is left.
   */
  lemma UntilEndToEnd(ms: seq<Message>, bs: seq<byte>, o: Oracle, c: Conn,
                      t: Table, target: Key, callback: Option<Overload>)
    requires EncodesMessages(ms, bs) && AllMessagesFit(ms) && c.Pending() == bs
    requires UntilTyped(t, target, callback, ms)
    ensures
      var v := Until(o, c, t, target, callback);
      var intended := IntendedUntil(t, target, callback, ms);
      && (if FirstFor(ms, target) < |ms| then v.outcome.Found? else v.outcome == Eof && v.conn.Pending() == [])
      && Calls(v.trace) == intended.calls
      && EncodesMessages(intended.left, v.conn.Pending()) && AllMessagesFit(intended.left)
  {
    hide Carries, Until, IsStream, DispatchOne, Intended, FdFree, WellTyped, FrameBytes, FirstMatch, FirstFor,
         Called, IntendedCallback;
    var ps := FramesCarry(ms, bs);
    BytesAreStream(ps, bs);
    UntilSplitsAtTarget(o, c, t, target, callback, ps, []);
    SameFirst(ms, ps, target);
    var v := Until(o, c, t, target, callback);
    var i := FirstFor(ms, target);
    if i < |ms| {
      PrefixCarries(ms, ps, i);
      DispatchedIsIntended(t, ms[..i], ps[..i]);
      assert Carries(ms[i], ps[i]) && ms[i].Fits();
      CallbackUnderstood(ms[i], ps[i], callback);
      FlatMapConcat(Dispatch(t, ps[..i]), Called(callback, ps[i].arguments), Seen());
      PrefixCarries(ms, ps, i + 1);
      CarriedEncodes(ms[i + 1..], ps[i + 1..]);
      StreamIsBytes(ps[i + 1..], v.conn.Pending());
    } else {
      assert ms[..i] == ms;
      DispatchedIsIntended(t, ms, ps);
    }
  }

  lemma BytesAreStream(ps: seq<ParsedMessage>, bs: seq<byte>)
    requires AllFit(ps) && AllAligned(ps) && bs == Unparse(ps)
    ensures IsStream(bs, ps, [])
  {
    assert Unparse(ps) + [] == Unparse(ps);
  }

  lemma StreamIsBytes(ps: seq<ParsedMessage>, bs: seq<byte>)
    requires IsStream(bs, ps, [])
    ensures bs == Unparse(ps)
  {
    assert Unparse(ps) + [] == Unparse(ps);
  }

  lemma CallbackUnderstood(m: Message, p: ParsedMessage, callback: Option<Overload>)
    requires Carries(m, p) && m.Fits()
    requires callback.Some? ==> FdFree(m.args) && callback.value.schema == Kinds(m.args)
    ensures Calls(Called(callback, p.arguments)) == IntendedCallback(callback, m)
  {
    hide Carries, ReadAll, Receivable;
    if callback.Some? {
      CarriedIsUnderstood(m, p);
      FlatMapSingle(Callback(callback.value, p.arguments), Seen());
    }
  }

  // ---------- Any number of calls ----------

  /** What successive calls of `until` should call, and leave. */
  function IntendedRun(ms: seq<Message>, ops: seq<Op>): Intention
    requires OnlyUntils(ops)
    decreases |ops|
  {
    if ops == [] then Intention([], ms)
    else
      assert ops[0] in ops;
      var first := IntendedUntil(ops[0].table, ops[0].target, ops[0].callback, ms);
      var rest := IntendedRun(first.left, ops[1..]);
      Intention(first.calls + rest.calls, rest.left)
  }

  ghost predicate RunTyped(ms: seq<Message>, ops: seq<Op>)
    requires OnlyUntils(ops)
    decreases |ops|
  {
    ops == [] ||
    (assert ops[0] in ops;
     && UntilTyped(ops[0].table, ops[0].target, ops[0].callback, ms)
     && RunTyped(IntendedUntil(ops[0].table, ops[0].target, ops[0].callback, ms).left, ops[1..]))
  }

  /**
   The same over any number of `until` calls with their own tables, targets and
   callbacks: user code sees the messages the peer appended, and nothing of how
   their bytes were padded or cut.
   */
  lemma {:induction false} UntilsEndToEnd(ms: seq<Message>, bs: seq<byte>, o: Oracle, c: Conn, ops: seq<Op>)
    requires EncodesMessages(ms, bs) && AllMessagesFit(ms) && c.Pending() == bs
    requires OnlyUntils(ops) && RunTyped(ms, ops)
    ensures Calls(Run(o, c, ops).trace) == IntendedRun(ms, ops).calls
    ensures EncodesMessages(IntendedRun(ms, ops).left, Run(o, c, ops).conn.Pending())
    decreases |ops|
  {
    hide Until, UntilTyped, IntendedUntil, AllMessagesFit, EncodesMessages;
    if ops != [] {
      assert ops[0] in ops;
      var op := ops[0];
      UntilEndToEnd(ms, bs, o, c, op.table, op.target, op.callback);
      var first := Execute(o, c, op);
      var left := IntendedUntil(op.table, op.target, op.callback, ms).left;
      UntilsEndToEnd(left, first.conn.Pending(), o, first.conn, ops[1..]);
      FlatMapConcat(first.trace, Run(o, first.conn, ops[1..]).trace, Seen());
    }
  }
}
