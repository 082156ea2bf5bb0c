/**
 `connected_client`: the methods that move bytes between the socket, the two
 buffers and the handlers, each proved to have the effect the receive state
 machine and the flush specification give it.
 */
module ConnectedClients {
  import opened Bytes
  import opened Chunks
  import opened Flush
  import opened Framing
  import opened MessageBuffers
  import opened MessageParsers
  import opened OverloadSets
  import opened Receive
  import opened ReceiveProperties
  import opened RunProperties
  import opened Sockets
  import opened Wire
  import opened Wrappers

  /** How the loop over the buffered messages ends: at the target, in an exception, or at the end. */
  datatype Step = Stopped(parsedBytes: nat, payload: seq<byte>) | Thrown(error: ParseError) | Exhausted

  /** What was received is stored behind the old bytes, in storage that may be larger. */
  lemma FilledPart(was: seq<byte>, storage: seq<byte>, data: seq<byte>)
    requires |was| + |data| <= |storage| && storage[..|was|] == was
    ensures Overwrite(storage, |was|, data)[..|was| + |data|] == was + data
    ensures |was| + |data| == |storage| ==> Overwrite(storage, |was|, data) == was + data
    ensures data == [] ==> was + data == was
  {
  }

  /** The generator has yielded `seen` of `b` and has `unparsed` left. */
  ghost predicate Continues(b: seq<byte>, seen: seq<ParsedMessage>, unparsed: seq<byte>) {
    ParseAll(b) == Parsed(seen + ParseAll(unparsed).messages, ParseAll(unparsed).error)
  }

  lemma NothingSeen(b: seq<byte>, t: Table, target: Key)
    ensures Continues(b, [], b) && FirstMatch([], target) == 0
    ensures Unparse([]) == [] && Dispatch(t, []) == []
  {
    assert [] + ParseAll(b).messages == ParseAll(b).messages;
  }

  lemma EndOfMessages(b: seq<byte>, seen: seq<ParsedMessage>, unparsed: seq<byte>)
    requires Continues(b, seen, unparsed)
    requires unparsed == [] || ParseHead(unparsed).Failure?
    ensures ParseAll(b) == Parsed(seen, if unparsed == [] then None else Some(ParseHead(unparsed).error))
  {
    assert seen + [] == seen;
  }

  lemma NextMessage(b: seq<byte>, seen: seq<ParsedMessage>, unparsed: seq<byte>, m: ParsedMessage, t: Table)
    requires Continues(b, seen, unparsed)
    requires unparsed != [] && ParseHead(unparsed) == Success(m)
    ensures Continues(b, seen + [m], unparsed[m.Size()..])
    ensures |Unparse(seen + [m])| == |Unparse(seen)| + m.Size()
    ensures Dispatch(t, seen + [m]) == Dispatch(t, seen) + DispatchOne(t)(m)
  {
    hide ParseHead, FrameBytes, DispatchOne;
    var rest := ParseAll(unparsed[m.Size()..]).messages;
    Associative(seen, [m], rest);
    FlatMapSnoc(seen, m, FrameBytes);
    FlatMapSnoc(seen, m, DispatchOne(t));
  }

  lemma NotTheTarget(seen: seq<ParsedMessage>, m: ParsedMessage, target: Key)
    requires FirstMatch(seen, target) == |seen| && KeyOf(m) != target
    ensures FirstMatch(seen + [m], target) == |seen + [m]|
  {
    FirstMatchConcat(seen, [m], target);
  }

  lemma TheTarget(b: seq<byte>, seen: seq<ParsedMessage>, unparsed: seq<byte>, m: ParsedMessage, target: Key)
    requires Continues(b, seen + [m], unparsed)
    requires FirstMatch(seen, target) == |seen| && KeyOf(m) == target
    ensures FirstMatch(ParseAll(b).messages, target) == |seen| < |ParseAll(b).messages|
    ensures ParseAll(b).messages[..|seen|] == seen && ParseAll(b).messages[|seen|] == m
    ensures ParseAll(b).messages[..|seen| + 1] == seen + [m]
  {
    var rest := ParseAll(unparsed).messages;
    Associative(seen, [m], rest);
    FirstMatchConcat(seen, [m] + rest, target);
  }

  /** The request buffer is empty exactly when nothing is registered. */
  lemma NothingEncodesNothing(ms: seq<Message>, data: seq<byte>)
    requires EncodesMessages(ms, data)
    ensures ms == [] <==> data == []
    ensures ms == [] ==> AllFds(ms) == []
  {
  }

  lemma DispatchOneOf(t: Table, m: ParsedMessage)
    ensures DispatchOne(t)(m) == if KeyOf(m) in t then [Invoked(t[KeyOf(m)], m.arguments)] else []
  {
  }

  class ConnectedClient {
    const serverSock: LocalStreamSocket
    const requestBuff: MessageBuffer
    /** Begins at the beginning of a message. */
    var recvBuff: seq<byte>

    constructor (serverSock: LocalStreamSocket)
      ensures this.serverSock == serverSock
      ensures fresh(requestBuff) && RequestsValid() && Registered() == []
      ensures recvBuff == []
    {
      this.serverSock := serverSock;
      requestBuff := new MessageBuffer();
      recvBuff := [];
    }

    // ---------- Requests ----------

    /** Bytes and descriptors in the request buffer belong to the same messages. */
    ghost predicate RequestsValid()
      reads requestBuff
    {
      requestBuff.Valid() && requestBuff.unreleasedData == requestBuff.unreleasedFds
    }

    /** The requests registered since the last flush. */
    ghost function Registered(): seq<Message>
      reads requestBuff
    {
      requestBuff.unreleasedData
    }

    /** The state `Flush.RequestStep` and the theorems over runs of requests are about. */
    ghost function RequestState(): Requests
      reads requestBuff, serverSock
    {
      Requests(requestBuff.unreleasedData, requestBuff.buff, serverSock.sent)
    }

    method HasRegisteredRequests() returns (b: bool)
      requires RequestsValid()
      ensures b <==> Registered() != []
    {
      NothingEncodesNothing(requestBuff.unreleasedData, requestBuff.buff);
      b := !requestBuff.Empty();
    }

    method RegisterRequest(m: Message)
      requires RequestsValid()
      modifies requestBuff
      ensures RequestsValid() && Registered() == old(Registered()) + [m]
      ensures RequestStep(old(RequestState()), RegisterOp(m), RequestState())
    {
      requestBuff.Append(m);
    }

    /** The precondition is the method's own assertion; `Flush.FewFdsFlushable` gives it. */
    method FlushRegisteredRequests()
      requires RequestsValid()
      requires Registered() != [] ==> |requestBuff.buff| > |requestBuff.fdBuff|
      modifies requestBuff, serverSock`sent
      ensures RequestsValid() && Registered() == []
      ensures RequestStep(old(RequestState()), FlushOp, RequestState())
    {
      NothingEncodesNothing(requestBuff.unreleasedData, requestBuff.buff);
      if requestBuff.Empty() {
        return;
      }
      var data := requestBuff.ReleaseData();
      var fds := requestBuff.ReleaseFds();
      assert |data| > |fds|;
      ghost var before := serverSock.sent;
      var bytesWritten := 0;
      hide FdPackets;
      for k := 0 to |fds|
        invariant bytesWritten == k
        invariant serverSock.sent == before + FdPackets(data, fds)[..k]
        invariant RequestsValid() && Registered() == []
      {
        var written := serverSock.Send(data[bytesWritten], fds[k]);
        bytesWritten := bytesWritten + written;
        NextFdPacket(data, fds, k);
        Associative(before, FdPackets(data, fds)[..k], [Packet([data[k]], Some(fds[k]))]);
      }
      Associative(before, FdPackets(data, fds), [Packet(data[bytesWritten..], None)]);
      serverSock.Write(data[bytesWritten..]);
    }

    // ---------- Events ----------

    /** The state the receive functions work on. */
    ghost function State(): Conn
      reads this, serverSock
    {
      Conn(recvBuff, serverSock.unread, serverSock.calls)
    }

    /** Returns true where the original throws at end-of-file. */
    method RecvMoreData() returns (eof: bool, ghost rereads: seq<Reread>)
      modifies this`recvBuff, serverSock`unread, serverSock`calls
      ensures RecvMore(serverSock.oracle, old(State())) == Received(State(), eof, rereads)
    {
      hide RecvMore, Later, Overwrite;
      ghost var start := State();
      var unprocessedBytes := |recvBuff|;
      rereads := [];
      LaterNothing(RecvMore(serverSock.oracle, start));
      while true
        invariant |recvBuff| == unprocessedBytes
        invariant RecvMore(serverSock.oracle, start) == Later(rereads, RecvMore(serverSock.oracle, State()))
        decreases |serverSock.unread|
      {
        ghost var c := State();
        var m := unprocessedBytes + RECV_BLOCK_SIZE;
        var isAligned := m % 4 == 0;
        var pad := if isAligned then 1 else 0;
        recvBuff := Resize(recvBuff, m + pad);
        var whereToRead := |recvBuff| - unprocessedBytes;
        var data := serverSock.ReadSome(whereToRead);
        RecvMoreStep(serverSock.oracle, c);
        FilledPart(c.buff, recvBuff, data);
        recvBuff := Overwrite(recvBuff, unprocessedBytes, data);
        if |data| == 0 {
          assert c.unread[0..] == c.unread;
          recvBuff := Resize(recvBuff, unprocessedBytes);
          LaterLast(rereads, State(), true);
          return true, rereads;
        }
        unprocessedBytes := unprocessedBytes + |data|;
        if |data| == whereToRead {
          LaterLater(rereads, [Reread(|recvBuff|, |serverSock.unread|)], RecvMore(serverSock.oracle, State()));
          rereads := rereads + [Reread(|recvBuff|, |serverSock.unread|)];
        } else {
          recvBuff := Resize(recvBuff, unprocessedBytes);
          LaterLast(rereads, State(), false);
          return false, rereads;
        }
      }
    }

    /** The precondition is what the loop needs to return, by `Framing.LoopReturnsIff`. */
    method GetRecdBytesFormingWholeMessages() returns (bytes: seq<byte>)
      requires !MeetsZero(recvBuff)
      ensures bytes == Framed(recvBuff)
    {
      var wholeMessages := 0;
      assert recvBuff[0..] == recvBuff;
      while true
        invariant wholeMessages <= |recvBuff|
        invariant !MeetsZero(recvBuff[wholeMessages..])
        invariant FramedSize(recvBuff) == wholeMessages + FramedSize(recvBuff[wholeMessages..])
        decreases |recvBuff| - wholeMessages
      {
        var requiredForNextSize := wholeMessages + HEADER_SIZE;
        if |recvBuff| < requiredForNextSize {
          return recvBuff[..wholeMessages];
        }
        var sizeOfNext := DeclaredSize(recvBuff[wholeMessages..]);
        var potentiallyWhole := wholeMessages + sizeOfNext;
        if |recvBuff| >= potentiallyWhole {
          assert recvBuff[wholeMessages..][sizeOfNext..] == recvBuff[potentiallyWhole..];
          wholeMessages := potentiallyWhole;
        } else {
          return recvBuff[..wholeMessages];
        }
      }
    }

    /** `None` where the original throws at end-of-file. */
    method RecvEvents() returns (parser: Option<MessageParser>, ghost rereads: seq<Reread>)
      requires
        var r := RecvMore(serverSock.oracle, State());
        !r.eof ==> !MeetsZero(r.conn.buff)
      modifies this`recvBuff, serverSock`unread, serverSock`calls
      ensures
        var e := Receive.RecvEvents(serverSock.oracle, old(State()));
        && State() == e.conn && rereads == e.rereads
        && (parser.None? <==> RecvMore(serverSock.oracle, old(State())).eof)
        && (parser.Some? ==> fresh(parser.value) && parser.value.unparsedMessages == e.taken)
      ensures
        var r := RecvMore(serverSock.oracle, old(State()));
        if r.eof then recvBuff == r.conn.buff
        else parser.Some? && parser.value.unparsedMessages + recvBuff == r.conn.buff && FramedSize(recvBuff) == 0
    {
      hide RecvMore;
      var eof;
      eof, rereads := RecvMoreData();
      if eof {
        return None, rereads;
      }
      var bytesToParse := GetRecdBytesFormingWholeMessages();
      var p := new MessageParser(bytesToParse);
      FramedRest(recvBuff);
      recvBuff := recvBuff[|bytesToParse|..];
      parser := Some(p);
    }

    /** The loop of `until` over the messages the generator yields. */
    method VisitWholeMessages(bytesToParse: seq<byte>, mos: MessageOverloadSet, target: Key, callback: Option<Overload>)
      returns (step: Step)
      modifies mos`trace
      ensures
        var parsed := ParseAll(bytesToParse);
        var ms := parsed.messages;
        var i := FirstMatch(ms, target);
        if i < |ms| then
          && step == Stopped(|Unparse(ms[..i + 1])|, ms[i].arguments)
          && mos.trace == old(mos.trace) + (Dispatch(mos.overloads, ms[..i]) + Called(callback, ms[i].arguments))
        else
          && step == (if parsed.error.Some? then Thrown(parsed.error.value) else Exhausted)
          && mos.trace == old(mos.trace) + Dispatch(mos.overloads, ms)
      ensures
        step.Stopped? <==> exists m <- ParseAll(bytesToParse).messages ::
                             m.objectId == target.objectId && m.opcode == target.opcode
      ensures step.Stopped? && callback.Some? ==>
                mos.trace != [] && mos.trace[|mos.trace| - 1] == Callback(callback.value, step.payload)
    {
      hide ParseHead, ParseAll, Unparse, Dispatch, FirstMatch, KeyOf, DispatchOne, Continues;
      var parsedMessages := new ParsedMessageGenerator(bytesToParse);
      var totalNumParsedMessages, totalParsedArgumentBytes := 0, 0;
      ghost var seen: seq<ParsedMessage> := [];
      NothingSeen(bytesToParse, mos.overloads, target);
      while true
        invariant fresh(parsedMessages) && parsedMessages.Valid()
        invariant Continues(bytesToParse, seen, parsedMessages.Unparsed())
        invariant FirstMatch(seen, target) == |seen|
        invariant HEADER_SIZE * totalNumParsedMessages + totalParsedArgumentBytes == |Unparse(seen)|
        invariant mos.trace == old(mos.trace) + Dispatch(mos.overloads, seen)
        decreases |parsedMessages.Unparsed()|
      {
        ghost var before := parsedMessages.Unparsed();
        var resumption := parsedMessages.Resume();
        match resumption
        case Done =>
          EndOfMessages(bytesToParse, seen, before);
          return Exhausted;
        case Throw(e) =>
          EndOfMessages(bytesToParse, seen, before);
          return Thrown(e);
        case Yield(msg) =>
          NextMessage(bytesToParse, seen, before, msg, mos.overloads);
          totalNumParsedMessages := totalNumParsedMessages + 1;
          totalParsedArgumentBytes := totalParsedArgumentBytes + |msg.arguments|;
          if KeyOf(msg) == target {
            TheTarget(bytesToParse, seen, parsedMessages.Unparsed(), msg, target);
            if callback.Some? {
              mos.trace := mos.trace + [Callback(callback.value, msg.arguments)];
            }
            Associative(old(mos.trace), Dispatch(mos.overloads, seen), Called(callback, msg.arguments));
            return Stopped(HEADER_SIZE * totalNumParsedMessages + totalParsedArgumentBytes, msg.arguments);
          }
          NotTheTarget(seen, msg, target);
          DispatchOneOf(mos.overloads, msg);
          var resolution := mos.OverloadResolution(KeyOf(msg));
          if resolution.Some? {
            mos.Invoke(resolution.value, msg.arguments);
          }
          Associative(old(mos.trace), Dispatch(mos.overloads, seen), DispatchOne(mos.overloads)(msg));
          seen := seen + [msg];
      }
    }

    /**
     `recvis_closure::until`. The precondition is what the framing loops it enters
     need to return; `NoZeroReturns` gives it for every schedule.
     */
    method Until(mos: MessageOverloadSet, target: Key, callback: Option<Overload>)
      returns (outcome: Outcome, ghost rereads: seq<Reread>)
      requires UntilReturns(serverSock.oracle, State(), mos.overloads, target)
      modifies this`recvBuff, serverSock`unread, serverSock`calls, mos`trace
      ensures
        var v := Receive.Until(serverSock.oracle, old(State()), mos.overloads, target, callback);
        && State() == v.conn && outcome == v.outcome && rereads == v.rereads
        && mos.trace == old(mos.trace) + v.trace
    {
      hide RecvMore, Receive.Until, ParseAll, FramedSize, MeetsZero, Dispatch, Called, FirstMatch, Unparse;
      ghost var o, t := serverSock.oracle, mos.overloads;
      ghost var start, trace0 := State(), mos.trace;
      ghost var dispatched: seq<Event>, consumed: seq<ParsedMessage> := [], [];
      rereads := [];
      AfterNothing(Receive.Until(o, start, t, target, callback));
      while true
        invariant UntilReturns(o, State(), t, target)
        invariant mos.overloads == t && mos.trace == trace0 + dispatched
        invariant Receive.Until(o, start, t, target, callback) ==
                  After(dispatched, consumed, rereads, Receive.Until(o, State(), t, target, callback))
        decreases |serverSock.unread|
      {
        ghost var c := State();
        UntilStep(o, c, t, target, callback);
        var bytesToParse := GetRecdBytesFormingWholeMessages();
        var step := VisitWholeMessages(bytesToParse, mos, target, callback);
        ghost var ms := ParseAll(bytesToParse).messages;
        Associative(trace0, dispatched, mos.trace[|trace0 + dispatched|..]);
        match step
        case Stopped(parsedBytes, payload) =>
          recvBuff := recvBuff[parsedBytes..];
          return Found(payload), rereads;
        case Thrown(e) =>
          return Malformed(e), rereads;
        case Exhausted =>
          recvBuff := recvBuff[|bytesToParse|..];
          var eof: bool;
          ghost var more: seq<Reread>;
          eof, more := RecvMoreData();
          if eof {
            rereads := rereads + more;
            return Eof, rereads;
          }
          AfterAfter(dispatched, consumed, rereads, Dispatch(t, ms), ms, more,
                     Receive.Until(o, State(), t, target, callback));
          dispatched, consumed, rereads := dispatched + Dispatch(t, ms), consumed + ms, rereads + more;
      }
    }
  }
}
