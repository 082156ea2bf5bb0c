/**
 How many bytes calls of `recv_more_data` can receive, and from that exactly when
 every schedule lets `until` return.
 */
module Schedules {
  import opened Arithmetic
  import opened Bytes
  import opened Chunks
  import opened Framing
  import opened MessageParsers
  import opened OverloadSets
  import opened Receive
  import opened Wire
  import opened Wrappers

  // ---------- What one or two calls can receive ----------

  /** The state with the next `n` unread bytes moved to the buffer. */
  function Advance(c: Conn, n: nat): Conn
    requires n <= |c.unread|
  {
    Conn(c.buff + c.unread[..n], c.unread[n..], c.calls + 1)
  }

  /** One call of `recv_more_data` receives `n` bytes and returns. */
  ghost predicate Gets(o: Oracle, c: Conn, n: nat)
    requires n <= |c.unread|
  {
    var r := RecvMore(o, c);
    !r.eof && r.conn.buff == c.buff + c.unread[..n] && r.conn.unread == c.unread[n..]
  }

  lemma FillsFrom(unprocessed: nat, requested: nat, n: nat)
    requires requested == RequestSize(unprocessed) && n > 0
    ensures Fills(unprocessed, requested + n) <==> Fills(unprocessed + requested, n)
  {
    FullBlocks(unprocessed);
    hide RequestSize;
    if n % RECV_BLOCK_SIZE == 0 {
      WholeBlocks(requested, requested + n, n);
    } else {
      NotWholeBlocks(requested, n);
    }
  }

  lemma NotWholeBlocks(requested: nat, n: nat)
    requires RECV_BLOCK_SIZE <= requested <= RECV_BLOCK_SIZE + 1 && n % RECV_BLOCK_SIZE != 0
    ensures (requested + n) % RECV_BLOCK_SIZE != requested - RECV_BLOCK_SIZE
  {
  }

  /** Any number of bytes that full reads do not use up exactly can be received by one call. */
  lemma {:induction false} AtOnce(c: Conn, n: nat) returns (o: Oracle)
    requires 0 < n <= |c.unread| && !Fills(|c.buff|, n)
    ensures Gets(o, c, n)
    decreases |c.unread|
  {
    hide RequestSize, RecvMore, ReadLength, Fills;
    var requested := RequestSize(|c.buff|);
    if n < requested {
      o := _ => n - 1;
      Proposed(o, c.calls, requested, |c.unread|, n);
      RecvMoreStep(o, c);
    } else {
      var next := Advance(c, requested);
      assert n > requested by { FillsOne(|c.buff|); }
      FillsFrom(|c.buff|, requested, n - requested);
      var later := AtOnce(next, n - requested);
      o := k => if k <= c.calls then requested - 1 else later(k);
      Proposed(o, c.calls, requested, |c.unread|, requested);
      RecvMoreStep(o, c);
      RecvMoreDependsOn(o, later, next);
      TakeTwice(c.buff, c.unread, requested, n - requested);
    }
  }

  lemma FillsOne(unprocessed: nat)
    ensures Fills(unprocessed, RequestSize(unprocessed))
  {
  }

  lemma TakeTwice(buff: seq<byte>, unread: seq<byte>, i: nat, j: nat)
    requires i + j <= |unread|
    ensures (buff + unread[..i]) + unread[i..][..j] == buff + unread[..i + j]
    ensures unread[i..][j..] == unread[i + j..]
  {
  }

  /** And nothing else can be. */
  lemma {:induction false} GetsSome(o: Oracle, c: Conn) returns (n: nat)
    requires !RecvMore(o, c).eof
    ensures 0 < n <= |c.unread| && !Fills(|c.buff|, n)
    ensures Gets(o, c, n)
    decreases |c.unread|
  {
    hide RequestSize, RecvMore, ReadLength, Fills;
    var requested := RequestSize(|c.buff|);
    n := ReadLength(o, c.calls, requested, |c.unread|);
    RecvMoreStep(o, c);
    if n < requested {
      FillsNot(|c.buff|, n);
    } else {
      var next := Advance(c, requested);
      var more := GetsSome(o, next);
      FillsFrom(|c.buff|, requested, more);
      TakeTwice(c.buff, c.unread, requested, more);
      n := requested + more;
    }
  }

  lemma FillsNot(unprocessed: nat, n: nat)
    requires n < RequestSize(unprocessed)
    ensures !Fills(unprocessed, n)
  {
  }

  /**
   The bytes that have to be received by a call of their own before another call
   can receive the rest of `n`: none, unless full reads use up `n` exactly.
   */
  function Detour(unprocessed: nat, n: nat): (d: nat)
    ensures d <= n
  {
    if !Fills(unprocessed, n) then 0 else if n % RECV_BLOCK_SIZE == 0 then 1 else 2
  }

  lemma DetourEnds(unprocessed: nat, n: nat)
    requires Fills(unprocessed, n)
    ensures 0 < Detour(unprocessed, n) < RECV_BLOCK_SIZE - 1
    ensures Detour(unprocessed, n) < n
    ensures (n - Detour(unprocessed, n)) % RECV_BLOCK_SIZE == RECV_BLOCK_SIZE - 1
  {
  }

  lemma NothingFills(unprocessed: nat, n: nat)
    requires n % RECV_BLOCK_SIZE == RECV_BLOCK_SIZE - 1
    ensures !Fills(unprocessed, n)
  {
  }

  /** The buffer with its framed messages erased: where `until` reads on. */
  function Erased(c: Conn): Conn {
    c.(buff := c.buff[FramedSize(c.buff)..])
  }

  /** One call receives `n` bytes; or one receives the detour and, from what is then left, another the rest. */
  ghost predicate Reaches(o: Oracle, e: Conn, n: nat)
    requires n <= |e.unread|
  {
    var d := Detour(|e.buff|, n);
    if d == 0 then Gets(o, e, n)
    else
      && Gets(o, e, d)
      && n - d <= |Erased(RecvMore(o, e).conn).unread|
      && Gets(o, Erased(RecvMore(o, e).conn), n - d)
  }

  lemma ReachableInTwo(e: Conn, n: nat) returns (o: Oracle)
    requires 0 < n <= |e.unread|
    ensures Reaches(o, e, n)
  {
    hide RequestSize, RecvMore, ReadLength, Fills, FramedSize, Detour;
    var d := Detour(|e.buff|, n);
    NoDetour(|e.buff|, n);
    if d == 0 {
      o := AtOnce(e, n);
    } else {
      var next := Advance(e, d);
      DetourEnds(|e.buff|, n);
      NothingFills(|Erased(next).buff|, n - d);
      var later := AtOnce(Erased(next), n - d);
      o := k => if k <= e.calls then d - 1 else later(k);
      Proposed(o, e.calls, RequestSize(|e.buff|), |e.unread|, d);
      RecvMoreStep(o, e);
      RecvMoreDependsOn(o, later, Erased(next));
    }
  }

  lemma NoDetour(unprocessed: nat, n: nat)
    ensures Detour(unprocessed, n) == 0 <==> !Fills(unprocessed, n)
  {
  }

  /**
   A detour is never longer than what a first call receives, with one exception:
   of two bytes that first call may receive one. Then either that byte ended a
   message, or the rest needs a detour of one byte itself.
   */
  lemma DetourLater(e: Conn, first: nat, rest: nat)
    requires 0 < first <= |e.unread| && rest <= |e.unread| - first
    requires !Fills(|e.buff|, first) && FramedSize(e.buff) == 0
    requires
      var next := Advance(e, first);
      !MeetsZero(next.buff) && ParseAll(Framed(next.buff)).error.None?
    ensures
      var d, next := Detour(|e.buff|, first + rest), Advance(e, first);
      || d <= first
      || (d == first + 1 && FramedSize(next.buff) == |next.buff|)
      || (d == first + 1 && FramedSize(next.buff) == 0 && Detour(|next.buff|, rest) == 1)
  {
    hide FramedSize, MeetsZero, ParseAll;
    if Detour(|e.buff|, first + rest) > first {
      SecondOfTwo(|e.buff|, rest);
      assert e.buff + e.unread[..1] == e.buff + [e.unread[0]];
      OneByteFrames(e.buff, e.unread[0]);
    }
  }

  lemma SecondOfTwo(unprocessed: nat, rest: nat)
    requires Detour(unprocessed, 1 + rest) > 1
    ensures Detour(unprocessed, 1 + rest) == 2
    ensures Detour(unprocessed + 1, rest) == 1
  {
    assert (1 + rest) % RECV_BLOCK_SIZE == 1;
    assert rest % RECV_BLOCK_SIZE == 0;
  }

  /** One more byte completes nothing, or one message and nothing behind it. */
  lemma OneByteFrames(left: seq<byte>, x: byte)
    requires FramedSize(left) == 0
    requires !MeetsZero(left + [x]) && ParseAll(Framed(left + [x])).error.None?
    ensures FramedSize(left + [x]) == 0 || FramedSize(left + [x]) == |left| + 1
  {
    hide DeclaredSize, ParseAll, FramedSize, MeetsZero;
    var b := left + [x];
    if |b| > HEADER_SIZE {
      SameSize(left, [x]);
      FirstFramed(left);
      FirstFramed(b);
    } else if |b| == HEADER_SIZE {
      FirstFramed(b);
      if FramedSize(b) < HEADER_SIZE && FramedSize(b) > 0 {
        ShortThrows(Framed(b));
      }
    } else {
      FramesNothing(b);
    }
  }

  lemma SameSize(b: seq<byte>, more: seq<byte>)
    requires |b| >= HEADER_SIZE
    ensures DeclaredSize(b + more) == DeclaredSize(b)
  {
    assert (b + more)[6..8] == b[6..8];
  }

  lemma FramesNothing(b: seq<byte>)
    requires |b| < HEADER_SIZE
    ensures FramedSize(b) == 0
  {
  }

  lemma FirstFramed(b: seq<byte>)
    requires |b| >= HEADER_SIZE
    ensures DeclaredSize(b) == 0 ==> MeetsZero(b)
    ensures DeclaredSize(b) > |b| || DeclaredSize(b) == 0 <==> FramedSize(b) == 0
    ensures 0 < DeclaredSize(b) <= |b| ==> FramedSize(b) == DeclaredSize(b) + FramedSize(b[DeclaredSize(b)..])
    ensures 0 < DeclaredSize(b) && |b| - HEADER_SIZE < DeclaredSize(b) <= |b| ==> FramedSize(b) == DeclaredSize(b)
  {
    hide DeclaredSize;
  }

  lemma ShortThrows(f: seq<byte>)
    requires 0 < |f| < HEADER_SIZE
    ensures ParseAll(f).error.Some?
  {
  }

  // ---------- When until returns ----------

  /** The framed messages end the call: the target is among them, or an exception. */
  predicate EndsCall(b: seq<byte>, target: Key) {
    var parsed := ParseAll(Framed(b));
    FirstMatch(parsed.messages, target) < |parsed.messages| || parsed.error.Some?
  }

  /** A turn of `until` that neither ends the call nor runs into the end of the stream. */
  lemma NextTurn(o: Oracle, c: Conn, t: Table, target: Key)
    requires !MeetsZero(c.buff) && !EndsCall(c.buff, target)
    ensures
      var r := RecvMore(o, Erased(c));
      UntilReturns(o, c, t, target) <==> (r.eof || UntilReturns(o, r.conn, t, target))
  {
    hide MeetsZero, FramedSize, ParseAll, FirstMatch, RecvMore;
  }

  /** More bytes do not keep a buffer from ending the call. */
  lemma EndsCallExtends(b: seq<byte>, more: seq<byte>, target: Key)
    requires !MeetsZero(b + more) && EndsCall(b, target)
    ensures EndsCall(b + more, target)
  {
    hide MeetsZero, FramedSize, ParseAll, FirstMatch, SizesOk, StopsShort;
    MeetsZeroExtends(b, more);
    if ParseAll(Framed(b)).error.None? {
      FramedInFront(b, more);
      var ms, ns := ParseAll(Framed(b)).messages, ParseAll(Framed(b + more)).messages;
      FirstIndexSplit(ns, |ms|, IsFor(target));
      assert ns[..|ms|] == ms;
      FirstMatchIsFirstIndex(ms, ns, target);
    } else {
      ParserNeverThrowsIff(b);
      ParserNeverThrowsIff(b + more);
      if SizesOk(b + more) {
        SizesOkPrefix(b, more);
      }
    }
  }

  lemma FirstMatchIsFirstIndex(ms: seq<ParsedMessage>, ns: seq<ParsedMessage>, target: Key)
    ensures FirstMatch(ms, target) == FirstIndex(ms, IsFor(target))
    ensures FirstMatch(ns, target) == FirstIndex(ns, IsFor(target))
  {
  }

  lemma {:induction false} SizesOkPrefix(b: seq<byte>, more: seq<byte>)
    requires SizesOk(b + more)
    ensures SizesOk(b)
    decreases |b|
  {
    if |b| >= HEADER_SIZE {
      SameSize(b, more);
      var size := DeclaredSize(b);
      if size <= |b| {
        assert (b + more)[size..] == b[size..] + more;
        SizesOkPrefix(b[size..], more);
      }
    }
  }

  /** What a turn has in the buffer after the first call on the way to `n` more bytes. */
  function FirstReceived(c: Conn, n: nat): seq<byte>
    requires n <= |c.unread|
  {
    var e := Erased(c);
    e.buff + e.unread[..Detour(|e.buff|, n)]
  }

  /**
   No size of zero is in the buffer, and unless the buffer ends the call: wherever
   the unread bytes bring one in, the detour needed to get there ends the call.
   */
  predicate SafeFromZero(c: Conn, target: Key) {
    && !MeetsZero(c.buff)
    && (EndsCall(c.buff, target) ||
        forall n :: 0 <= n <= |c.unread| && MeetsZero(c.buff + c.unread[..n]) ==> EndsCall(FirstReceived(c, n), target))
  }

  lemma ErasedEndsNothing(c: Conn, target: Key)
    ensures FramedSize(Erased(c).buff) == 0
    ensures !EndsCall(Erased(c).buff, target)
  {
    FramedRest(c.buff);
  }

  /** Otherwise some schedule makes the framing loop run forever. */
  lemma Hangs(c: Conn, t: Table, target: Key) returns (o: Oracle)
    requires !SafeFromZero(c, target)
    ensures !UntilReturns(o, c, t, target)
  {
    hide MeetsZero, FramedSize, EndsCall, RecvMore, Detour;
    o := _ => 0;
    if !MeetsZero(c.buff) {
      var n :| 0 <= n <= |c.unread| && MeetsZero(c.buff + c.unread[..n]) && !EndsCall(FirstReceived(c, n), target);
      assert c.buff + c.unread[..0] == c.buff;
      var e := Erased(c);
      ZeroBehind(c.buff, c.unread[..n], target);
      o := ReachableInTwo(e, n);
      NextTurn(o, c, t, target);
      if Detour(|e.buff|, n) > 0 {
        HangsBehind(o, e, n, t, target);
      }
    }
  }

  lemma HangsBehind(o: Oracle, e: Conn, n: nat, t: Table, target: Key)
    requires n <= |e.unread| && Reaches(o, e, n) && Detour(|e.buff|, n) > 0
    requires MeetsZero(e.buff + e.unread[..n])
    requires !EndsCall(e.buff + e.unread[..Detour(|e.buff|, n)], target)
    ensures !UntilReturns(o, RecvMore(o, e).conn, t, target)
  {
    hide MeetsZero, FramedSize, EndsCall, RecvMore, Detour;
    var d, next := Detour(|e.buff|, n), RecvMore(o, e).conn;
    if !MeetsZero(next.buff) {
      TakeTwice(e.buff, e.unread, d, n - d);
      ZeroBehind(next.buff, next.unread[..n - d], target);
      NextTurn(o, next, t, target);
    }
  }

  lemma ZeroBehind(b: seq<byte>, more: seq<byte>, target: Key)
    requires !EndsCall(b, target)
    ensures MeetsZero(b + more) <==> MeetsZero(b[FramedSize(b)..] + more)
  {
    hide MeetsZero, FramedSize, ParseAll, FirstMatch;
    FramedInFront(b, more);
  }

  lemma SafeNext(o: Oracle, c: Conn, target: Key)
    requires SafeFromZero(c, target) && !EndsCall(c.buff, target)
    requires !RecvMore(o, Erased(c)).eof
    ensures SafeFromZero(RecvMore(o, Erased(c)).conn, target)
  {
    hide MeetsZero, FramedSize, EndsCall, RecvMore, Detour, Fills;
    var e := Erased(c);
    var k := GetsSome(o, e);
    var next := RecvMore(o, e).conn;
    ErasedEndsNothing(c, target);
    ZeroBehind(c.buff, c.unread[..k], target);
    NoDetour(|e.buff|, k);
    assert e.buff + e.unread[..0] == e.buff;
    if !EndsCall(next.buff, target) {
      forall n | 0 <= n <= |next.unread| && MeetsZero(next.buff + next.unread[..n])
        ensures EndsCall(FirstReceived(next, n), target)
      {
        TakeTwice(e.buff, e.unread, k, n);
        ZeroBehind(c.buff, c.unread[..k + n], target);
        assert EndsCall(FirstReceived(c, k + n), target);
        EndsAtDetour(e, k, n, target);
      }
    }
  }

  lemma EndsAtDetour(e: Conn, first: nat, rest: nat, target: Key)
    requires 0 < first <= |e.unread| && rest <= |e.unread| - first
    requires !Fills(|e.buff|, first) && FramedSize(e.buff) == 0
    requires
      var next := Advance(e, first);
      !MeetsZero(next.buff) && !EndsCall(next.buff, target)
    requires EndsCall(e.buff + e.unread[..Detour(|e.buff|, first + rest)], target)
    ensures EndsCall(FirstReceived(Advance(e, first), rest), target)
  {
    hide MeetsZero, FramedSize, ParseAll, FirstMatch, Detour, Fills;
    var d, next := Detour(|e.buff|, first + rest), Advance(e, first);
    DetourLater(e, first, rest);
    if d <= first {
      hide EndsCall;
      TakeTwice(e.buff, e.unread, d, first - d);
      EndsCallExtends(e.buff + e.unread[..d], e.unread[d..][..first - d], target);
    } else {
      hide EndsCall;
      TakeTwice(e.buff, e.unread, first, 1);
      if FramedSize(next.buff) == 0 {
        assert next.buff[0..] == next.buff;
      } else {
        OneByteBehind(next.buff, next.unread[..1], target);
      }
    }
  }

  lemma OneByteBehind(b: seq<byte>, x: seq<byte>, target: Key)
    requires |x| == 1 && FramedSize(b) == |b| && !EndsCall(b, target)
    ensures !EndsCall(b + x, target)
  {
    assert ParseAll([]) == Parsed([], None);
    hide FramedSize, ParseAll, FirstMatch, SizesOk, MeetsZero, StopsShort;
    FramesNothing(b[|b|..] + x);
    FramedInFront(b, x);
    assert ParseAll(Framed(b)).messages + [] == ParseAll(Framed(b)).messages;
  }

  lemma {:induction false} SafeReturns(o: Oracle, c: Conn, t: Table, target: Key)
    requires SafeFromZero(c, target)
    ensures UntilReturns(o, c, t, target)
    decreases |c.unread|
  {
    hide MeetsZero, FramedSize, RecvMore, SafeFromZero, FirstMatch, ParseAll;
    SafeNow(c, target);
    if !EndsCall(c.buff, target) {
      NextTurn(o, c, t, target);
      if !RecvMore(o, Erased(c)).eof {
        SafeNext(o, c, target);
        SafeReturns(o, RecvMore(o, Erased(c)).conn, t, target);
      }
    }
  }

  lemma SafeNow(c: Conn, target: Key)
    requires SafeFromZero(c, target)
    ensures !MeetsZero(c.buff)
  {
  }

  /**
   Every schedule lets `until` return if and only if no size of zero can be met:
   none is in the buffer, and the buffer ends the call, or none is pending, or what
   has to be received before it ends the call.
   */
  lemma UntilReturnsIff(c: Conn, t: Table, target: Key)
    ensures (forall o: Oracle :: UntilReturns(o, c, t, target)) <==> SafeFromZero(c, target)
  {
    hide UntilReturns, SafeFromZero;
    if SafeFromZero(c, target) {
      forall o: Oracle
        ensures UntilReturns(o, c, t, target)
      {
        SafeReturns(o, c, t, target);
      }
    } else {
      var o := Hangs(c, t, target);
    }
  }
}
