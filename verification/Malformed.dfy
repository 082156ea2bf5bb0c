/**
 Bytes that are not messages: exactly when `until` throws the exception of the
 parser, and exactly when the next call then runs a handler a second time.
 */
module Malformed {
  import opened Bytes
  import opened Chunks
  import opened Framing
  import opened MessageParsers
  import opened OverloadSets
  import opened Receive
  import opened ReceiveProperties
  import opened RunProperties
  import opened Schedules
  import opened Wire
  import opened Wrappers

  // ---------- An unsound size ends the parse, whatever follows ----------

  lemma {:induction false} UnsoundExtends(b: seq<byte>, more: seq<byte>)
    requires !SizesOk(b)
    ensures !SizesOk(b + more)
    ensures StopsShort(b) <==> StopsShort(b + more)
    ensures ParseAll(b + more).messages == ParseAll(b).messages
    decreases |b|
  {
    var size := DeclaredSize(b);
    SameHeader(b, more);
    if size >= HEADER_SIZE {
      UnsoundExtends(b[size..], more);
      assert (b + more)[size..] == b[size..] + more;
    }
  }

  lemma SameHeader(b: seq<byte>, more: seq<byte>)
    requires |b| >= HEADER_SIZE
    ensures DeclaredSize(b + more) == DeclaredSize(b)
    ensures ParseHead(b).Success? ==> ParseHead(b + more) == ParseHead(b)
  {
    assert (b + more)[6..8] == b[6..8];
    assert (b + more)[0..4] == b[0..4];
    assert (b + more)[4..6] == b[4..6];
    if ParseHead(b).Success? {
      var size := DeclaredSize(b);
      assert (b + more)[HEADER_SIZE..size] == b[HEADER_SIZE..size];
    }
  }

  /** The framing walk keeps every message in front of an unsound size. */
  lemma {:induction false} UnsoundFramed(b: seq<byte>)
    requires !SizesOk(b)
    ensures ParseAll(Framed(b)).messages == ParseAll(b).messages
    decreases |b|
  {
    var size := DeclaredSize(b);
    var f := Framed(b);
    assert b == f + b[|f|..];
    if size >= HEADER_SIZE {
      var rest := b[size..];
      UnsoundFramed(rest);
      SameHeader(f, b[|f|..]);
      assert b[..size + FramedSize(rest)][size..] == rest[..FramedSize(rest)];
      assert f[size..] == Framed(rest);
      assert ParseHead(f).Success? && ParseHead(b) == ParseHead(f);
    } else if |f| >= HEADER_SIZE {
      SameHeader(f, b[|f|..]);
    }
  }

  /** Where the header that declares too little ends: that far, nothing else is wrong. */
  lemma {:induction false} StopsAt(b: seq<byte>) returns (k: nat)
    requires StopsShort(b)
    ensures k <= |b| && StopsShort(b[..k]) && !MeetsZero(b[..k])
    decreases |b|
  {
    var size := DeclaredSize(b);
    if size < HEADER_SIZE {
      k := HEADER_SIZE;
      assert b[..k][6..8] == b[6..8];
    } else {
      var j := StopsAt(b[size..]);
      k := size + j;
      assert b[..k][6..8] == b[6..8];
      assert b[..k][size..] == b[size..][..j];
    }
  }

  lemma StopsShortUnsound(b: seq<byte>)
    requires StopsShort(b)
    ensures !SizesOk(b)
  {
    var k := StopsAt(b);
    UnsoundStopsShort(b[..k]);
    assert b[..k] + b[k..] == b;
    UnsoundExtends(b[..k], b[k..]);
  }

  // ---------- Bytes on which until throws ----------

  predicate NoneFor(ms: seq<ParsedMessage>, target: Key) {
    FirstMatch(ms, target) == |ms|
  }

  /**
   The first declared size below eight is not zero, and no message in front of it
   is for the target.
   */
  predicate Poisoned(s: seq<byte>, target: Key) {
    StopsShort(s) && NoneFor(ParseAll(s).messages, target)
  }

  /** With these bytes in the buffer `until` throws. */
  predicate Throwing(b: seq<byte>, target: Key) {
    !MeetsZero(b) && Poisoned(b, target)
  }

  predicate FramesError(b: seq<byte>) {
    ParseAll(Framed(b)).error.Some?
  }

  lemma NoneForPrefix(ms: seq<ParsedMessage>, ns: seq<ParsedMessage>, target: Key)
    ensures NoneFor(ms + ns, target) <==> NoneFor(ms, target) && NoneFor(ns, target)
  {
    FirstMatchSplit(ms + ns, |ms|, target);
    assert (ms + ns)[..|ms|] == ms && (ms + ns)[|ms|..] == ns;
  }

  /** With an error among the framed messages, it does not matter what follows. */
  lemma ErrorInBuffer(b: seq<byte>, more: seq<byte>, target: Key)
    requires !MeetsZero(b) && FramesError(b)
    ensures ParseAll(Framed(b)).messages == ParseAll(b).messages == ParseAll(b + more).messages
    ensures Throwing(b, target) <==> Poisoned(b + more, target)
    ensures NoneFor(ParseAll(Framed(b)).messages, target) <==> Throwing(b, target)
  {
    hide FramedSize, ParseAll, SizesOk, MeetsZero, StopsShort, FirstMatch;
    ParserNeverThrowsIff(b);
    UnsoundStopsShort(b);
    UnsoundExtends(b, more);
    UnsoundFramed(b);
  }

  /** Without one, the framed messages do not matter if none is for the target. */
  lemma ErrorBehind(b: seq<byte>, more: seq<byte>, target: Key)
    requires !FramesError(b)
    ensures
      var ms, left := ParseAll(Framed(b)).messages, b[FramedSize(b)..] + more;
      && (Poisoned(b + more, target) <==> Poisoned(left, target) && NoneFor(ms, target))
      && (Throwing(b + more, target) <==> Throwing(left, target) && NoneFor(ms, target))
  {
    hide FramedSize, ParseAll, SizesOk, MeetsZero, StopsShort, NoneFor;
    FramedInFront(b, more);
    NoneForPrefix(ParseAll(Framed(b)).messages, ParseAll(b[FramedSize(b)..] + more).messages, target);
  }

  /** Throwing buffers are those with an error and no target in front of it. */
  lemma ThrowingFramesError(b: seq<byte>, target: Key)
    requires Throwing(b, target)
    ensures FramesError(b)
  {
    hide FramedSize, ParseAll, SizesOk, MeetsZero, StopsShort;
    StopsShortUnsound(b);
    ParserNeverThrowsIff(b);
  }

  /** Pending bytes that are poisoned can be received so far that the buffer is throwing. */
  lemma PoisonedSomewhere(c: Conn, target: Key) returns (n: nat)
    requires !MeetsZero(c.buff) && Poisoned(c.Pending(), target)
    ensures n <= |c.unread| && Throwing(c.buff + c.unread[..n], target)
  {
    hide ParseAll, SizesOk, MeetsZero, StopsShort, NoneFor;
    var s := c.Pending();
    var k := StopsAt(s);
    UnsoundStopsShort(s[..k]);
    assert s[..k] + s[k..] == s;
    UnsoundExtends(s[..k], s[k..]);
    if k <= |c.buff| {
      n := 0;
      var more := c.buff[k..];
      assert s[..k] + more == c.buff == c.buff + c.unread[..0];
      UnsoundExtends(s[..k], more);
    } else {
      n := k - |c.buff|;
      assert c.buff + c.unread[..n] == s[..k];
    }
  }

  // ---------- When until throws ----------

  /** `until` throws the exception of the parser, and some handler runs again in the next call. */
  ghost predicate Reruns(o: Oracle, c: Conn, t: Table, target: Key, callback: Option<Overload>) {
    var v := Until(o, c, t, target, callback);
    v.outcome.Malformed? && Dispatch(t, StuckIn(v)) != []
  }

  /** The messages visited but left in the buffer. */
  function StuckIn(v: Visited): seq<ParsedMessage> {
    ParseAll(Framed(v.conn.buff)).messages
  }

  /** The bytes whose messages stay in the buffer if the next turn throws. */
  function NotYetHandled(c: Conn): seq<byte> {
    if FramesError(c.buff) then c.Pending() else Erased(c).Pending()
  }

  /** Where the call that brings in byte `n` of the unread ones begins, unless that call comes first. */
  function BeforeLast(c: Conn, n: nat): Conn
    requires n <= |c.unread|
  {
    if FramesError(c.buff) then c else Advance(Erased(c), Detour(|Erased(c).buff|, n))
  }

  /** The messages that stay in the buffer if `until` throws on the next `n` unread bytes. */
  function Stuck(c: Conn, n: nat): seq<ParsedMessage>
    requires n <= |c.unread|
  {
    ParseAll(NotYetHandled(BeforeLast(c, n))).messages
  }

  lemma ThrowsNow(o: Oracle, c: Conn, t: Table, target: Key, callback: Option<Overload>)
    requires !MeetsZero(c.buff) && FramesError(c.buff) && Throwing(c.buff, target)
    ensures UntilReturns(o, c, t, target)
    ensures
      var v := Until(o, c, t, target, callback);
      v.outcome.Malformed? && v.conn == c && StuckIn(v) == ParseAll(c.Pending()).messages
  {
    hide FramedSize, ParseAll, MeetsZero, FirstMatch, RecvMore, Throwing, Called, DispatchOne;
    ErrorInBuffer(c.buff, c.unread, target);
  }

  /** A turn that finds neither the target nor an error, and is not the last. */
  lemma Continues(o: Oracle, c: Conn, t: Table, target: Key, callback: Option<Overload>)
    requires !MeetsZero(c.buff) && !FramesError(c.buff) && NoneFor(ParseAll(Framed(c.buff)).messages, target)
    ensures
      var r := RecvMore(o, Erased(c));
      var v, w := Until(o, c, t, target, callback), Until(o, r.conn, t, target, callback);
      && (r.eof ==> v.outcome == Eof)
      && (!r.eof ==> v.outcome == w.outcome && v.conn == w.conn)
      && (!r.eof ==> (UntilReturns(o, c, t, target) <==> UntilReturns(o, r.conn, t, target)))
  {
    hide FramedSize, ParseAll, MeetsZero, FirstMatch, RecvMore, Called, DispatchOne;
  }

  // ---------- Messages handled on the way ----------

  ghost predicate EndsWith(ms: seq<ParsedMessage>, ns: seq<ParsedMessage>) {
    |ns| <= |ms| && ms[|ms| - |ns|..] == ns
  }

  lemma EndsWithConcat(ms: seq<ParsedMessage>, ns: seq<ParsedMessage>)
    ensures EndsWith(ms + ns, ns) && EndsWith(ns, ns)
  {
  }

  lemma EndsWithThrough(ms: seq<ParsedMessage>, ns: seq<ParsedMessage>, ks: seq<ParsedMessage>)
    requires EndsWith(ms, ns) && EndsWith(ns, ks)
    ensures EndsWith(ms, ks)
  {
  }

  lemma DispatchEndsWith(t: Table, ms: seq<ParsedMessage>, ns: seq<ParsedMessage>)
    requires EndsWith(ms, ns) && Dispatch(t, ns) != []
    ensures Dispatch(t, ms) != []
  {
    var front := ms[..|ms| - |ns|];
    assert ms == front + ns;
    FlatMapConcat(front, ns, DispatchOne(t));
  }

  /** With more bytes received, no more messages are left to handle. */
  lemma HandledLater(e: Conn, n: nat)
    requires n <= |e.unread|
    ensures EndsWith(ParseAll(e.Pending()).messages, ParseAll(NotYetHandled(Advance(e, n))).messages)
  {
    hide FramedSize, ParseAll, SizesOk, MeetsZero, StopsShort, FramesError, EndsWith;
    var a := Advance(e, n);
    assert a.Pending() == e.Pending();
    var ms, left := ParseAll(Framed(a.buff)).messages, ParseAll(Erased(a).Pending()).messages;
    EndsWithConcat(ms, left);
    if FramesError(a.buff) {
      EndsWithConcat([], ParseAll(e.Pending()).messages);
    } else {
      FramesNoError(a.buff);
      FramedInFront(a.buff, a.unread);
    }
  }

  lemma FramesNoError(b: seq<byte>)
    ensures !FramesError(b) <==> ParseAll(Framed(b)).error.None?
  {
  }

  /** An error does not go away when more bytes come. */
  lemma FramesErrorExtends(b: seq<byte>, more: seq<byte>)
    requires !MeetsZero(b + more) && !FramesError(b + more)
    ensures !MeetsZero(b) && !FramesError(b)
  {
    hide FramedSize, ParseAll, SizesOk, MeetsZero;
    MeetsZeroExtends(b, more);
    ParserNeverThrowsIff(b + more);
    ParserNeverThrowsIff(b);
    SizesOkPrefix(b, more);
  }

  lemma HandledInBetween(e: Conn, d: nat, n: nat)
    requires d <= n <= |e.unread|
    requires !MeetsZero(Advance(e, n).buff) && !FramesError(Advance(e, n).buff)
    ensures EndsWith(ParseAll(NotYetHandled(Advance(e, d))).messages,
                     ParseAll(NotYetHandled(Advance(e, n))).messages)
  {
    hide FramedSize, ParseAll, SizesOk, MeetsZero, StopsShort, EndsWith;
    var a, more := Advance(e, d), e.unread[d..][..n - d];
    TakeTwice(e.buff, e.unread, d, n - d);
    FramesErrorExtends(a.buff, more);
    FramedInFront(a.buff, more);
    HandledLater(Erased(a), n - d);
  }

  /** What a later turn leaves in the buffer was not handled earlier. */
  lemma StuckLater(c: Conn, first: nat, rest: nat, next: Conn)
    requires !FramesError(c.buff)
    requires
      var e := Erased(c);
      && 0 < first <= |e.unread| && rest <= |e.unread| - first && !Fills(|e.buff|, first)
      && next.buff == e.buff + e.unread[..first] && next.unread == e.unread[first..]
    requires !MeetsZero(next.buff) && !FramesError(next.buff)
    ensures EndsWith(Stuck(c, first + rest), Stuck(next, rest))
  {
    hide FramedSize, ParseAll, MeetsZero, EndsWith, Detour, Fills;
    var e := Erased(c);
    var d := Detour(|e.buff|, first + rest);
    FramedRest(c.buff);
    DetourLater(e, first, rest);
    HandledLater(Erased(next), Detour(|Erased(next).buff|, rest));
    var between := ParseAll(Erased(next).Pending()).messages;
    if d <= first {
      HandledInBetween(e, d, first);
      EndsWithThrough(Stuck(c, first + rest), between, Stuck(next, rest));
    } else {
      TakeTwice(e.buff, e.unread, first, 1);
      if FramedSize(next.buff) == 0 {
        assert next.buff[0..] == next.buff;
        EndsWithConcat([], Stuck(next, rest));
      } else {
        var a := Advance(e, d);
        NothingBehind(next, a);
        assert NotYetHandled(a) == Erased(next).Pending();
      }
    }
  }

  lemma NothingBehind(next: Conn, a: Conn)
    requires next.unread != [] && FramedSize(next.buff) == |next.buff| && !FramesError(next.buff)
    requires a.buff == next.buff + next.unread[..1] && a.unread == next.unread[1..]
    ensures NotYetHandled(a) == Erased(next).Pending()
  {
    var x := next.unread[..1];
    assert ParseAll([]) == Parsed([], None);
    hide FramedSize, ParseAll, SizesOk, MeetsZero, StopsShort;
    FramesNothing(next.buff[|next.buff|..] + x);
    FramedInFront(next.buff, x);
    assert x + next.unread[1..] == next.unread;
  }

  // ---------- The exact conditions ----------

  lemma {:induction false} ThrowsAfter(o: Oracle, c: Conn, t: Table, target: Key, callback: Option<Overload>)
    returns (n: nat)
    requires UntilReturns(o, c, t, target) && Until(o, c, t, target, callback).outcome.Malformed?
    ensures n <= |c.unread| && Throwing(c.buff + c.unread[..n], target)
    ensures EndsWith(Stuck(c, n), StuckIn(Until(o, c, t, target, callback)))
    decreases |c.unread|
  {
    hide FramedSize, ParseAll, MeetsZero, RecvMore, EndsWith, Until, UntilReturns, Fills, Detour, Throwing, NoneFor,
         FramesError, Stuck;
    ReturnsNow(o, c, t, target);
    MalformedTurn(o, c, t, target, callback);
    if FramesError(c.buff) {
      n := 0;
      ThrowsFirst(o, c, t, target, callback);
    } else {
      Continues(o, c, t, target, callback);
      var e := Erased(c);
      var k := GetsSome(o, e);
      var next := RecvMore(o, e).conn;
      var more := ThrowsAfter(o, next, t, target, callback);
      if FramesError(next.buff) {
        n := k;
        ThrowsNext(o, c, t, target, callback, n);
      } else {
        n := k + more;
        ReturnsNow(o, next, t, target);
        ThrowingLater(c, k, more, next, target);
        StuckLater(c, k, more, next);
        EndsWithThrough(Stuck(c, n), Stuck(next, more), StuckIn(Until(o, next, t, target, callback)));
      }
    }
  }

  lemma ThrowsFirst(o: Oracle, c: Conn, t: Table, target: Key, callback: Option<Overload>)
    requires FramesError(c.buff) && UntilReturns(o, c, t, target)
    requires Until(o, c, t, target, callback).outcome.Malformed?
    ensures Throwing(c.buff + c.unread[..0], target)
    ensures EndsWith(Stuck(c, 0), StuckIn(Until(o, c, t, target, callback)))
  {
    hide FramedSize, ParseAll, MeetsZero, EndsWith, Until, UntilReturns, Throwing, NoneFor, StuckIn;
    assert c.buff + c.unread[..0] == c.buff;
    ReturnsNow(o, c, t, target);
    MalformedTurn(o, c, t, target, callback);
    ErrorInBuffer(c.buff, c.unread, target);
    ThrowsNow(o, c, t, target, callback);
    EndsWithConcat([], Stuck(c, 0));
  }

  lemma ThrowingLater(c: Conn, first: nat, rest: nat, next: Conn, target: Key)
    requires !FramesError(c.buff) && NoneFor(ParseAll(Framed(c.buff)).messages, target)
    requires first <= |c.unread| && rest <= |c.unread| - first
    requires next.buff == Erased(c).buff + c.unread[..first] && next.unread == c.unread[first..]
    requires Throwing(next.buff + next.unread[..rest], target)
    ensures Throwing(c.buff + c.unread[..first + rest], target)
  {
    hide FramedSize, ParseAll, Throwing, NoneFor, FramesError;
    TakeTwice(Erased(c).buff, c.unread, first, rest);
    ErrorBehind(c.buff, c.unread[..first + rest], target);
  }

  /** A first call receives `n` bytes on which the parser throws. */
  lemma ThrowsNext(o: Oracle, c: Conn, t: Table, target: Key, callback: Option<Overload>, n: nat)
    requires !FramesError(c.buff) && NoneFor(ParseAll(Framed(c.buff)).messages, target)
    requires 0 < n <= |c.unread| && Gets(o, Erased(c), n) && !Fills(|Erased(c).buff|, n)
    requires
      var next := RecvMore(o, Erased(c)).conn;
      && FramesError(next.buff) && UntilReturns(o, next, t, target)
      && Until(o, next, t, target, callback).outcome.Malformed?
    ensures Throwing(c.buff + c.unread[..n], target)
    ensures EndsWith(Stuck(c, n), StuckIn(Until(o, RecvMore(o, Erased(c)).conn, t, target, callback)))
  {
    hide FramedSize, ParseAll, MeetsZero, RecvMore, EndsWith, Until, UntilReturns, Fills, Detour, Throwing, NoneFor,
         StuckIn, Stuck;
    var e, next := Erased(c), RecvMore(o, Erased(c)).conn;
    MalformedTurn(o, next, t, target, callback);
    ReturnsNow(o, next, t, target);
    ErrorInBuffer(next.buff, next.unread, target);
    ThrowsNow(o, next, t, target, callback);
    ErrorBehind(c.buff, c.unread[..n], target);
    NoDetour(|e.buff|, n);
    StuckAtOnce(c, n);
    EndsWithConcat([], Stuck(c, n));
    assert next.Pending() == e.Pending();
  }

  lemma ReturnsNow(o: Oracle, c: Conn, t: Table, target: Key)
    requires UntilReturns(o, c, t, target)
    ensures !MeetsZero(c.buff)
  {
    hide MeetsZero, FramedSize, ParseAll, FirstMatch, RecvMore;
  }

  lemma MalformedTurn(o: Oracle, c: Conn, t: Table, target: Key, callback: Option<Overload>)
    requires Until(o, c, t, target, callback).outcome.Malformed?
    ensures NoneFor(ParseAll(Framed(c.buff)).messages, target)
  {
    hide FramedSize, ParseAll, FirstMatch, RecvMore, Called, DispatchOne;
  }

  /** Without a detour, nothing is handled between the first turn and the one that throws. */
  lemma StuckAtOnce(c: Conn, n: nat)
    requires n <= |c.unread| && Detour(|Erased(c).buff|, n) == 0
    ensures Stuck(c, n) == ParseAll(NotYetHandled(c)).messages
  {
    hide FramedSize, ParseAll, Detour;
    if !FramesError(c.buff) {
      var e := Erased(c);
      FramedRest(c.buff);
      assert e.buff + e.unread[..0] == e.buff && e.unread[0..] == e.unread && e.buff[0..] == e.buff;
    }
  }

  lemma ThrowsWhen(c: Conn, t: Table, target: Key, callback: Option<Overload>, n: nat) returns (o: Oracle)
    requires !MeetsZero(c.buff) && n <= |c.unread| && Throwing(c.buff + c.unread[..n], target)
    ensures UntilReturns(o, c, t, target) && Until(o, c, t, target, callback).outcome.Malformed?
    ensures StuckIn(Until(o, c, t, target, callback)) == Stuck(c, n)
  {
    hide FramedSize, ParseAll, MeetsZero, RecvMore, Until, UntilReturns, Fills, Detour, Throwing, NoneFor, FramesError;
    if FramesError(c.buff) {
      o := _ => 0;
      ErrorInBuffer(c.buff, c.unread[..n], target);
      ThrowingIsPoisoned(c.buff + c.unread[..n], target);
      ThrowsNow(o, c, t, target, callback);
    } else {
      var e := Erased(c);
      assert c.buff + c.unread[..0] == c.buff;
      if n == 0 {
        ThrowingFramesError(c.buff, target);
      }
      ErrorBehind(c.buff, c.unread[..n], target);
      o := ReachableInTwo(e, n);
      Continues(o, c, t, target, callback);
      var d, next := Detour(|e.buff|, n), RecvMore(o, e).conn;
      if d == 0 {
        ThrowsHere(o, next, t, target, callback);
        StuckAtOnce(c, n);
      } else {
        ThrowsBehind(o, e, t, target, callback, n);
      }
    }
  }

  lemma ThrowingIsPoisoned(b: seq<byte>, target: Key)
    ensures Throwing(b, target) <==> !MeetsZero(b) && Poisoned(b, target)
  {
  }

  lemma ThrowsHere(o: Oracle, c: Conn, t: Table, target: Key, callback: Option<Overload>)
    requires Throwing(c.buff, target)
    ensures UntilReturns(o, c, t, target)
    ensures
      var v := Until(o, c, t, target, callback);
      v.outcome.Malformed? && v.conn == c && StuckIn(v) == ParseAll(c.Pending()).messages
  {
    hide FramedSize, ParseAll, MeetsZero, RecvMore, Until, UntilReturns, StuckIn;
    ThrowingFramesError(c.buff, target);
    ThrowsNow(o, c, t, target, callback);
  }

  lemma ThrowsBehind(o: Oracle, e: Conn, t: Table, target: Key, callback: Option<Overload>, n: nat)
    requires n <= |e.unread| && Throwing(e.buff + e.unread[..n], target)
    requires Detour(|e.buff|, n) > 0 && Reaches(o, e, n)
    ensures
      var next := RecvMore(o, e).conn;
      var v := Until(o, next, t, target, callback);
      && UntilReturns(o, next, t, target) && v.outcome.Malformed?
      && StuckIn(v) == ParseAll(NotYetHandled(Advance(e, Detour(|e.buff|, n)))).messages
  {
    hide FramedSize, ParseAll, MeetsZero, RecvMore, Until, UntilReturns, Detour, NoneFor, FramesError, StopsShort;
    var d, next := Detour(|e.buff|, n), RecvMore(o, e).conn;
    var more := next.unread[..n - d];
    TakeTwice(e.buff, e.unread, d, n - d);
    MeetsZeroExtends(next.buff, more);
    if FramesError(next.buff) {
      ErrorInBuffer(next.buff, more, target);
      ThrowsHere(o, next, t, target, callback);
    } else {
      ErrorBehind(next.buff, more, target);
      Continues(o, next, t, target, callback);
      ThrowsHere(o, RecvMore(o, Erased(next)).conn, t, target, callback);
    }
  }

  /** `until` throws and runs nothing else, and so does the next call, on the same handlers. */
  ghost predicate ThrowsTwice(o: Oracle, c: Conn, t: Table, target: Key, callback: Option<Overload>) {
    var v := Until(o, c, t, target, callback);
    && v.outcome.Malformed?
    && v.trace == Dispatch(t, v.consumed) + Dispatch(t, StuckIn(v))
    && Until(o, v.conn, t, target, callback) == Visited(v.conn, v.outcome, Dispatch(t, StuckIn(v)), [], [])
  }

  /** After any throw the next call runs the handlers of the messages left in the buffer, and throws again. */
  lemma ThrowsAgain(o: Oracle, c: Conn, t: Table, target: Key, callback: Option<Overload>)
    requires Until(o, c, t, target, callback).outcome.Malformed?
    ensures ThrowsTwice(o, c, t, target, callback)
  {
    hide ParseAll, Framed, FramedSize, DispatchOne, RecvMore, Called;
    UntilAccounted(o, c, t, target, callback);
  }

  lemma ThrowsOnlyIf(o: Oracle, c: Conn, t: Table, target: Key, callback: Option<Overload>)
    requires UntilReturns(o, c, t, target) && Until(o, c, t, target, callback).outcome.Malformed?
    ensures !MeetsZero(c.buff) && Poisoned(c.Pending(), target)
  {
    hide Until, UntilReturns, MeetsZero, ParseAll, EndsWith, Throwing, Poisoned, FramesError, Stuck;
    ReturnsNow(o, c, t, target);
    var n := ThrowsAfter(o, c, t, target, callback);
    var b := c.buff + c.unread[..n];
    assert c.Pending() == b + c.unread[n..];
    ThrowingFramesError(b, target);
    ThrowingIsPoisoned(b, target);
    ErrorInBuffer(b, c.unread[n..], target);
  }

  /**
   On arbitrary bytes: some schedule makes `until` throw the parser's exception, if
   and only if no size of zero is in the buffer, and the first size below eight that
   is pending is not zero and has no message for the target in front.
   */
  lemma MalformedRepeats(c: Conn, t: Table, target: Key, callback: Option<Overload>)
    ensures (exists o: Oracle :: UntilReturns(o, c, t, target) && ThrowsTwice(o, c, t, target, callback))
            <==> !MeetsZero(c.buff) && Poisoned(c.Pending(), target)
    ensures forall o: Oracle :: Until(o, c, t, target, callback).outcome.Malformed?
                            ==> ThrowsTwice(o, c, t, target, callback)
  {
    hide Until, UntilReturns, ThrowsTwice, Poisoned, MeetsZero, Stuck;
    forall o: Oracle | Until(o, c, t, target, callback).outcome.Malformed?
      ensures ThrowsTwice(o, c, t, target, callback)
    {
      ThrowsAgain(o, c, t, target, callback);
    }
    if o: Oracle :| UntilReturns(o, c, t, target) && ThrowsTwice(o, c, t, target, callback) {
      TwiceIsOnce(o, c, t, target, callback);
      ThrowsOnlyIf(o, c, t, target, callback);
    }
    if !MeetsZero(c.buff) && Poisoned(c.Pending(), target) {
      var n := PoisonedSomewhere(c, target);
      var o := ThrowsWhen(c, t, target, callback, n);
      assert UntilReturns(o, c, t, target) && ThrowsTwice(o, c, t, target, callback);
    }
  }

  lemma TwiceIsOnce(o: Oracle, c: Conn, t: Table, target: Key, callback: Option<Overload>)
    requires ThrowsTwice(o, c, t, target, callback)
    ensures Until(o, c, t, target, callback).outcome.Malformed?
  {
  }

  /** The next `n` unread bytes make `until` throw with a handled message still in the buffer. */
  predicate HandledAndStuck(c: Conn, t: Table, target: Key, n: nat)
    requires n <= |c.unread|
  {
    Throwing(c.buff + c.unread[..n], target) && Dispatch(t, Stuck(c, n)) != []
  }

  /**
   When is a message handled twice? On arbitrary bytes: some schedule makes `until`
   throw and the next call run a handler again, if and only if no size of zero is
   in the buffer, and it can go on to bytes on which it throws with a message in
   the buffer that has an overload and that it had not handled before.
   */
  lemma HandledTwiceIff(c: Conn, t: Table, target: Key, callback: Option<Overload>)
    ensures (exists o: Oracle :: UntilReturns(o, c, t, target) && Reruns(o, c, t, target, callback)) <==>
            !MeetsZero(c.buff) && exists n :: 0 <= n <= |c.unread| && HandledAndStuck(c, t, target, n)
  {
    hide Until, UntilReturns, MeetsZero, Stuck, StuckIn, Throwing, EndsWith, DispatchOne;
    if o: Oracle :| UntilReturns(o, c, t, target) && Reruns(o, c, t, target, callback) {
      ReturnsNow(o, c, t, target);
      var n := ThrowsAfter(o, c, t, target, callback);
      DispatchEndsWith(t, Stuck(c, n), StuckIn(Until(o, c, t, target, callback)));
      assert HandledAndStuck(c, t, target, n);
    }
    if !MeetsZero(c.buff) {
      if n :| 0 <= n <= |c.unread| && HandledAndStuck(c, t, target, n) {
        var o := ThrowsWhen(c, t, target, callback, n);
        assert UntilReturns(o, c, t, target) && Reruns(o, c, t, target, callback);
      }
    }
  }

  /**
   In short, when no size of zero is pending and full reads do not use up the
   unread bytes exactly: the pending bytes are poisoned, and a message behind those
   already framed has an overload.
   */
  lemma HandledTwiceUsuallyIff(c: Conn, t: Table, target: Key, callback: Option<Overload>)
    requires !MeetsZero(c.Pending()) && !FillsReads(Erased(c))
    ensures (exists o: Oracle :: Reruns(o, c, t, target, callback)) <==>
            Poisoned(c.Pending(), target) && Dispatch(t, ParseAll(NotYetHandled(c)).messages) != []
  {
    hide Until, UntilReturns, MeetsZero, Stuck, StuckIn, DispatchOne, ParseAll, FramedSize, Fills, Poisoned, Throwing;
    MeetsZeroExtends(c.buff, c.unread);
    var n := |c.unread|;
    assert c.unread[..n] == c.unread;
    ThrowingIsPoisoned(c.Pending(), target);
    NoDetour(|Erased(c).buff|, n);
    StuckAtOnce(c, n);
    if o: Oracle :| Reruns(o, c, t, target, callback) {
      NoZeroReturns(o, c, t, target);
      ThrowsOnlyIf(o, c, t, target, callback);
      var k := ThrowsAfter(o, c, t, target, callback);
      StuckSooner(c, k);
      EndsWithThrough(ParseAll(NotYetHandled(c)).messages, Stuck(c, k), StuckIn(Until(o, c, t, target, callback)));
      DispatchEndsWith(t, ParseAll(NotYetHandled(c)).messages, StuckIn(Until(o, c, t, target, callback)));
    }
    if Poisoned(c.Pending(), target) && Dispatch(t, ParseAll(NotYetHandled(c)).messages) != [] {
      var o := ThrowsWhen(c, t, target, callback, n);
      assert Reruns(o, c, t, target, callback);
    }
  }

  lemma StuckSooner(c: Conn, n: nat)
    requires n <= |c.unread|
    ensures EndsWith(ParseAll(NotYetHandled(c)).messages, Stuck(c, n))
  {
    hide ParseAll, FramedSize, EndsWith, Detour;
    if FramesError(c.buff) {
      EndsWithConcat([], Stuck(c, n));
    } else {
      HandledLater(Erased(c), Detour(|Erased(c).buff|, n));
    }
  }

  /**
   An input on which a handler runs twice for one message: any message with an
   overload, and behind it a header that declares a size from one to seven.
   */
  lemma HandlerRunsTwice(m: ParsedMessage, header: seq<byte>, more: seq<byte>, o: Oracle, calls: nat,
                         t: Table, target: Key, callback: Option<Overload>)
    requires m.Fits() && KeyOf(m) in t && KeyOf(m) != target
    requires |header| == HEADER_SIZE && 1 <= DeclaredSize(header) < HEADER_SIZE
    ensures
      var c := Conn(FrameBytes(m) + header, more, calls);
      var run := [Invoked(t[KeyOf(m)], m.arguments)];
      && UntilReturns(o, c, t, target)
      && Until(o, c, t, target, callback) == Visited(c, Outcome.Malformed(HeaderIncomplete), run, [], [])
      && Until(o, Until(o, c, t, target, callback).conn, t, target, callback).trace == run
  {
    hide FrameBytes, RecvMore, DeclaredSize;
    var b := FrameBytes(m) + header;
    var size := DeclaredSize(header);
    UnparseOne(m);
    FramedSizeOfFrames([m], header);
    assert FramedSize(header) == size && !MeetsZero(header);
    ParseAllOfFrames([m], header[..size]);
    assert Framed(b) == FrameBytes(m) + header[..size];
    assert ParseAll(header[..size]) == Parsed([], Some(HeaderIncomplete));
    assert ParseAll(Framed(b)).messages == [m];
    FlatMapSingle(m, DispatchOne(t));
  }

  lemma UnparseOne(m: ParsedMessage)
    ensures Unparse([m]) == FrameBytes(m)
  {
    FlatMapSingle(m, FrameBytes);
  }
}
