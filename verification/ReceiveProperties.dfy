/**
 What the receive state machine guarantees, for every schedule of read lengths.
 */
module ReceiveProperties {
  import opened Arithmetic
  import opened Bytes
  import opened Chunks
  import opened Framing
  import opened MessageParsers
  import opened OverloadSets
  import opened Receive
  import opened Wire
  import opened Wrappers

  // ---------- Streams ----------

  /** Messages of whole words, as `append` writes them. */
  ghost predicate AllAligned(ms: seq<ParsedMessage>) {
    forall m <- ms :: m.Size() % 4 == 0
  }

  /** The beginning of a message of which the rest never arrives, or nothing. */
  predicate Incomplete(tail: seq<byte>) {
    |tail| < HEADER_SIZE || DeclaredSize(tail) > |tail|
  }

  /** `s` is whole messages, and possibly the beginning of a last one. */
  ghost predicate IsStream(s: seq<byte>, ms: seq<ParsedMessage>, tail: seq<byte>) {
    && AllFit(ms)
    && Incomplete(tail)
    && s == Unparse(ms) + tail
  }

  lemma {:induction false} UnparseAligned(ms: seq<ParsedMessage>)
    requires AllAligned(ms)
    ensures |Unparse(ms)| % 4 == 0
  {
    if ms != [] {
      UnparseUncons(ms);
      AlignedSlice(ms, 1);
      UnparseAligned(ms[1..]);
      SumAligned(ms[0].Size(), |Unparse(ms[1..])|);
    }
  }

  lemma AlignedSlice(ms: seq<ParsedMessage>, j: nat)
    requires j <= |ms|
    ensures AllFit(ms) ==> AllFit(ms[..j]) && AllFit(ms[j..])
    ensures AllAligned(ms) ==> AllAligned(ms[..j]) && AllAligned(ms[j..])
  {
  }

  lemma UnparseSplit(ms: seq<ParsedMessage>, j: nat)
    requires j <= |ms|
    ensures Unparse(ms) == Unparse(ms[..j]) + Unparse(ms[j..])
  {
    FlatMapConcat(ms[..j], ms[j..], FrameBytes);
    assert ms[..j] + ms[j..] == ms;
  }

  /** The first `j` messages of a stream gone, a stream is left. */
  lemma StreamSuffix(s: seq<byte>, ms: seq<ParsedMessage>, tail: seq<byte>, j: nat, rest: seq<byte>)
    requires IsStream(s, ms, tail) && j <= |ms|
    requires s == Unparse(ms[..j]) + rest
    ensures IsStream(rest, ms[j..], tail)
  {
    AlignedSlice(ms, j);
    UnparseSplit(ms, j);
    Associative(Unparse(ms[..j]), Unparse(ms[j..]), tail);
    SuffixUnique(Unparse(ms[..j]), rest, Unparse(ms[j..]) + tail);
  }

  lemma SuffixUnique<T>(a: seq<T>, x: seq<T>, y: seq<T>)
    requires a + x == a + y
    ensures x == y
  {
    assert x == (a + x)[|a|..];
    assert y == (a + y)[|a|..];
  }

  lemma StreamLength(s: seq<byte>, ms: seq<ParsedMessage>, tail: seq<byte>)
    requires IsStream(s, ms, tail) && AllAligned(ms)
    ensures |s| % 4 == |tail| % 4
  {
    hide FrameBytes, AllAligned, Incomplete;
    UnparseAligned(ms);
    SumModFour(|Unparse(ms)|, |tail|);
  }

  // ---------- Where a buffer cuts a stream ----------

  /** A beginning of incomplete bytes is itself incomplete. */
  lemma IncompletePrefix(b: seq<byte>, u: seq<byte>)
    requires Incomplete(b + u)
    ensures Incomplete(b) && FramedSize(b) == 0 && SizesOk(b) && !MeetsZero(b)
  {
    if |b| >= HEADER_SIZE {
      assert (b + u)[6..8] == b[6..8];
    }
  }

  /** A proper beginning of a frame is incomplete. */
  lemma PartOfFrame(m: ParsedMessage, b: seq<byte>, u: seq<byte>, rest: seq<byte>)
    requires m.Fits() && |b| < m.Size()
    requires b + u == FrameBytes(m) + rest
    ensures Incomplete(b) && FramedSize(b) == 0 && SizesOk(b) && !MeetsZero(b)
  {
    if |b| >= HEADER_SIZE {
      DeclaredSizeOfFrame(m, rest);
      assert (b + u)[6..8] == b[6..8];
    }
  }

  lemma SplitAtFrame(f: seq<byte>, rest: seq<byte>, b: seq<byte>, u: seq<byte>)
    requires b + u == f + rest && |b| >= |f|
    ensures b == f + b[|f|..] && b[|f|..] + u == rest
  {
    assert (b + u)[..|f|] == f;
    assert b[..|f|] == f;
    assert b[|f|..] + u == (b + u)[|f|..] == rest;
  }

  /** A buffer `b` that begins a stream holds `j` whole messages and an incomplete rest. */
  lemma {:induction false} CutStream(s: seq<byte>, ms: seq<ParsedMessage>, tail: seq<byte>, b: seq<byte>, u: seq<byte>)
    returns (j: nat, rest: seq<byte>)
    requires IsStream(s, ms, tail) && s == b + u
    ensures j <= |ms| && b == Unparse(ms[..j]) + rest && Incomplete(rest)
    ensures FramedSize(rest) == 0 && SizesOk(rest) && !MeetsZero(rest)
    ensures u == [] ==> j == |ms|
    decreases |ms|
  {
    if ms == [] {
      assert s == tail by { assert Unparse(ms) == []; }
      IncompletePrefix(b, u);
      j, rest := 0, b;
      assert b == [] + rest;
    } else {
      var f := FrameBytes(ms[0]);
      UnparseUncons(ms);
      Associative(f, Unparse(ms[1..]), tail);
      if |b| < |f| {
        PartOfFrame(ms[0], b, u, Unparse(ms[1..]) + tail);
        j, rest := 0, b;
        assert b == [] + rest;
        assert |s| >= |f|;
      } else {
        SplitAtFrame(f, Unparse(ms[1..]) + tail, b, u);
        AlignedSlice(ms, 1);
        j, rest := CutStream(b[|f|..] + u, ms[1..], tail, b[|f|..], u);
        var front := ms[1..][..j];
        assert ms[..j + 1] == [ms[0]] + front;
        UnparseCons(ms[0], front);
        Associative(f, Unparse(front), rest);
        j := j + 1;
      }
    }
  }

  /** The framing walk and the parser on such a buffer. */
  lemma FramedOfStream(s: seq<byte>, ms: seq<ParsedMessage>, tail: seq<byte>, b: seq<byte>, u: seq<byte>)
    returns (j: nat)
    requires IsStream(s, ms, tail) && s == b + u
    ensures j <= |ms|
    ensures ParseAll(Framed(b)) == Parsed(ms[..j], None)
    ensures Framed(b) == Unparse(ms[..j])
    ensures IsStream(b[FramedSize(b)..] + u, ms[j..], tail)
    ensures Incomplete(b[FramedSize(b)..])
    ensures u == [] ==> j == |ms| && b[FramedSize(b)..] == tail
  {
    hide ParseAll, FrameBytes;
    var rest: seq<byte>;
    j, rest := CutStream(s, ms, tail, b, u);
    AlignedSlice(ms, j);
    FramedSizeOfFrames(ms[..j], rest);
    ParseUnparse(ms[..j]);
    assert Framed(b) == Unparse(ms[..j]);
    assert b[FramedSize(b)..] == rest;
    Associative(Unparse(ms[..j]), rest, u);
    StreamSuffix(s, ms, tail, j, rest + u);
    if u == [] {
      assert ms[..j] == ms;
      assert b + u == b;
      SuffixUnique(Unparse(ms), rest, tail);
    }
  }

  /** On a stream the framing loop always returns. */
  lemma StreamNeverMeetsZero(s: seq<byte>, ms: seq<ParsedMessage>, tail: seq<byte>)
    requires IsStream(s, ms, tail)
    ensures !MeetsZero(s) && SizesOk(s)
  {
    FramedSizeOfFrames(ms, tail);
    assert tail + [] == tail;
    IncompletePrefix(tail, []);
  }

  // ---------- until ----------

  lemma FirstMatchSplit(ms: seq<ParsedMessage>, j: nat, target: Key)
    requires j <= |ms|
    ensures FirstMatch(ms[..j], target) < j ==> FirstMatch(ms, target) == FirstMatch(ms[..j], target)
    ensures FirstMatch(ms[..j], target) == j ==> FirstMatch(ms, target) == j + FirstMatch(ms[j..], target)
  {
    FirstIndexSplit(ms, j, IsFor(target));
  }

  /**
   What `until` has to do with a list of messages, however they arrive: split it
   at the first message for the target.
   */
  ghost predicate SplitsAtTarget(v: Visited, ms: seq<ParsedMessage>, tail: seq<byte>,
                                 t: Table, target: Key, callback: Option<Overload>) {
    var i := FirstMatch(ms, target);
    if i < |ms| then
      && v.outcome == Found(ms[i].arguments)
      && v.trace == Dispatch(t, ms[..i]) + Called(callback, ms[i].arguments)
      && v.consumed == ms[..i + 1]
      && IsStream(v.conn.Pending(), ms[i + 1..], tail)
    else
      && v.outcome == Eof
      && v.trace == Dispatch(t, ms)
      && v.consumed == ms
      && v.conn.buff == tail && v.conn.unread == []
  }

  lemma SplitLater(v: Visited, ms: seq<ParsedMessage>, j: nat, tail: seq<byte>, t: Table, target: Key,
                   callback: Option<Overload>, rereads: seq<Reread>)
    requires j <= |ms| && FirstMatch(ms[..j], target) == j
    requires SplitsAtTarget(v, ms[j..], tail, t, target, callback)
    ensures SplitsAtTarget(After(Dispatch(t, ms[..j]), ms[..j], rereads, v), ms, tail, t, target, callback)
  {
    hide IsStream, DispatchOne, Called, FirstMatch;
    FirstMatchSplit(ms, j, target);
    var i := FirstMatch(ms[j..], target);
    DispatchJoin(t, ms, j, i);
    if i < |ms[j..]| {
      SliceJoin(ms, j, i + 1);
      Associative(Dispatch(t, ms[..j]), Dispatch(t, ms[j..][..i]), Called(callback, ms[j + i].arguments));
    } else {
      assert ms[j..][..i] == ms[j..];
      assert ms[..j + i] == ms;
      assert ms[..j] + ms[j..] == ms;
    }
  }

  lemma SliceJoin(ms: seq<ParsedMessage>, j: nat, i: nat)
    requires j + i <= |ms|
    ensures ms[..j] + ms[j..][..i] == ms[..j + i]
    ensures ms[j..][i..] == ms[j + i..]
    ensures i > 0 ==> ms[j..][i - 1] == ms[j + i - 1]
  {
  }

  lemma DispatchJoin(t: Table, ms: seq<ParsedMessage>, j: nat, i: nat)
    requires j + i <= |ms|
    ensures Dispatch(t, ms[..j]) + Dispatch(t, ms[j..][..i]) == Dispatch(t, ms[..j + i])
  {
    SliceJoin(ms, j, i);
    FlatMapConcat(ms[..j], ms[j..][..i], DispatchOne(t));
  }

  lemma FoundInBuffer(o: Oracle, c: Conn, t: Table, target: Key, callback: Option<Overload>,
                      ms: seq<ParsedMessage>, tail: seq<byte>, j: nat)
    requires IsStream(c.Pending(), ms, tail) && j <= |ms|
    requires ParseAll(Framed(c.buff)) == Parsed(ms[..j], None)
    requires FirstMatch(ms[..j], target) < j
    ensures SplitsAtTarget(Until(o, c, t, target, callback), ms, tail, t, target, callback)
  {
    hide IsStream, FramedSize, ParseAll, DispatchOne, FrameBytes;
    FirstMatchSplit(ms, j, target);
    var i := FirstMatch(ms, target);
    var taken := Unparse(ms[..i + 1]);
    assert ms[..j][..i + 1] == ms[..i + 1] && ms[..j][..i] == ms[..i];
    ParsedFits(c.buff, i + 1);
    assert c.buff == taken + c.buff[|taken|..];
    Associative(taken, c.buff[|taken|..], c.unread);
    StreamSuffix(c.Pending(), ms, tail, i + 1, c.buff[|taken|..] + c.unread);
  }

  /**
   The main theorem about `until`. On every stream that ends at a multiple of four,
   in particular on every stream of whole messages, and for every schedule, it
   dispatches the messages before the first one for its target, once and in
   order, hands that one to the callback only, and leaves exactly what follows;
   if there is none it reports end-of-file after handling every message, with no
   whole message left behind.
   */
  lemma {:induction false} UntilSplitsAtTarget(o: Oracle, c: Conn, t: Table, target: Key, callback: Option<Overload>,
                                               ms: seq<ParsedMessage>, tail: seq<byte>)
    requires IsStream(c.Pending(), ms, tail) && AllAligned(ms)
    requires |tail| % 4 == 0
    ensures SplitsAtTarget(Until(o, c, t, target, callback), ms, tail, t, target, callback)
    decreases |c.unread|
  {
    hide IsStream, FramedSize, ParseAll, DispatchOne, RecvMore, SplitsAtTarget;
    var j := FramedOfStream(c.Pending(), ms, tail, c.buff, c.unread);
    if FirstMatch(ms[..j], target) < j {
      FoundInBuffer(o, c, t, target, callback, ms, tail, j);
    } else {
      var erased := c.(buff := c.buff[FramedSize(c.buff)..]);
      AlignedSlice(ms, j);
      StreamLength(erased.Pending(), ms[j..], tail);
      EofOnlyWhenDrained(o, erased);
      var r := RecvMore(o, erased);
      if r.eof {
        EndReached(o, c, t, target, callback, ms, tail, j);
      } else {
        UntilSplitsAtTarget(o, r.conn, t, target, callback, ms[j..], tail);
        SplitLater(Until(o, r.conn, t, target, callback), ms, j, tail, t, target, callback, r.rereads);
      }
    }
  }

  lemma EndReached(o: Oracle, c: Conn, t: Table, target: Key, callback: Option<Overload>,
                   ms: seq<ParsedMessage>, tail: seq<byte>, j: nat)
    requires j <= |ms| && ParseAll(Framed(c.buff)) == Parsed(ms[..j], None)
    requires FirstMatch(ms[..j], target) == j
    requires c.unread == [] ==> j == |ms| && c.buff[FramedSize(c.buff)..] == tail
    requires
      var r := RecvMore(o, c.(buff := c.buff[FramedSize(c.buff)..]));
      r.eof && c.unread == [] && r.conn.buff == c.buff[FramedSize(c.buff)..]
    ensures SplitsAtTarget(Until(o, c, t, target, callback), ms, tail, t, target, callback)
  {
    hide FramedSize, ParseAll, DispatchOne, RecvMore;
    assert ms[..j] == ms;
  }

  /** Two schedules cannot be told apart by what `until` does or leaves. */
  lemma ScheduleIndependent(o: Oracle, p: Oracle, c: Conn, d: Conn, t: Table, target: Key, callback: Option<Overload>,
                            ms: seq<ParsedMessage>, tail: seq<byte>)
    requires IsStream(c.Pending(), ms, tail) && c.Pending() == d.Pending()
    requires AllAligned(ms) && |tail| % 4 == 0
    ensures
      var v, w := Until(o, c, t, target, callback), Until(p, d, t, target, callback);
      && v.outcome == w.outcome && v.trace == w.trace && v.consumed == w.consumed
      && v.conn.Pending() == w.conn.Pending()
  {
    hide Until, DispatchOne, FirstMatch, KeyOf, Called;
    UntilSplitsAtTarget(o, c, t, target, callback, ms, tail);
    UntilSplitsAtTarget(p, d, t, target, callback, ms, tail);
  }
}
