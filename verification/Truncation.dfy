/**
 Streams that break off inside a message: exactly when does `until` still find
 its target, or handle every whole message, before it reports end-of-file?
 */
module Truncation {
  import opened Arithmetic
  import opened Bytes
  import opened Chunks
  import opened Framing
  import opened MessageParsers
  import opened OverloadSets
  import opened Receive
  import opened ReceiveProperties
  import opened RunProperties
  import opened Schedules
  import opened Wire
  import opened Wrappers

  /** The messages `until` wants out of `ms`: up to the target, or all of them. */
  function Wanted(ms: seq<ParsedMessage>, target: Key): (n: nat)
    ensures n <= |ms|
  {
    var i := FirstMatch(ms, target);
    if i < |ms| then i + 1 else |ms|
  }

  /** Bytes of the stream behind the wanted messages. */
  function Behind(ms: seq<ParsedMessage>, tail: seq<byte>, target: Key): nat {
    |Unparse(ms[Wanted(ms, target)..])| + |tail|
  }

  /** Bytes in front of the last `r` that belong to no message complete there. */
  function Unframed(s: seq<byte>, r: nat): nat
    requires r <= |s|
  {
    |s| - r - FramedSize(s[..|s| - r])
  }

  /**
   With some number of unread bytes, more than are behind the wanted messages, full
   reads use these up exactly, if whatever is complete before them has been erased.
   */
  predicate CanSkip(c: Conn, behind: nat) {
    exists r :: behind < r <= |c.unread| && SkipsWith(c.Pending(), r)
  }

  predicate SkipsWith(s: seq<byte>, r: nat)
    requires r <= |s|
  {
    Fills(Unframed(s, r), r)
  }

  lemma SkipsWithUnread(c: Conn)
    ensures SkipsWith(c.Pending(), |c.unread|) <==> FillsReads(Erased(c))
  {
    assert c.Pending()[..|c.Pending()| - |c.unread|] == c.buff;
  }

  /** Erasing framed messages changes nothing about the bytes behind them. */
  lemma UnframedErased(c: Conn, r: nat)
    requires r <= |c.unread| && ParseAll(Framed(c.buff)).error.None?
    ensures SkipsWith(Erased(c).Pending(), r) <==> SkipsWith(c.Pending(), r)
  {
    hide FramedSize, ParseAll, Fills, FrameBytes, FlatMap, SizesOk, MeetsZero, StopsShort;
    var more := c.unread[..|c.unread| - r];
    var e := Erased(c);
    FramedInFront(c.buff, more);
    assert c.Pending()[..|c.Pending()| - r] == c.buff + more;
    assert e.Pending()[..|e.Pending()| - r] == e.buff + more;
  }

  // ---------- One byte at a time, then full reads ----------

  /** One byte at a time for `slow` reads from call `first` on, then reads that return all they ask for. */
  ghost predicate SlowThenFull(o: Oracle, first: nat, slow: nat, r: nat) {
    && (forall k :: first <= k < first + slow ==> o(k) == 0)
    && o(first + slow) == RECV_BLOCK_SIZE - 1 + r % RECV_BLOCK_SIZE
    && (forall k :: k > first + slow ==> o(k) == RECV_BLOCK_SIZE - 1)
  }

  lemma OneByte(o: Oracle, c: Conn)
    requires o(c.calls) == 0 && |c.unread| >= 1
    ensures RecvMore(o, c) == Received(Conn(c.buff + c.unread[..1], c.unread[1..], c.calls + 1), false, [])
  {
    hide RequestSize, ReadLength;
    Proposed(o, c.calls, RequestSize(|c.buff|), |c.unread|, 1);
  }

  // ---------- Messages wanted and messages framed ----------

  /** Taking unwanted messages off the front changes nothing behind. */
  lemma BehindSuffix(ms: seq<ParsedMessage>, j: nat, tail: seq<byte>, target: Key)
    requires j <= |ms| && FirstMatch(ms[..j], target) == j
    ensures Wanted(ms, target) == j + Wanted(ms[j..], target)
    ensures Behind(ms[j..], tail, target) == Behind(ms, tail, target)
  {
    FirstMatchSplit(ms, j, target);
    assert ms[j..][Wanted(ms[j..], target)..] == ms[Wanted(ms, target)..];
  }

  lemma UnparseLength(ms: seq<ParsedMessage>, i: nat, j: nat)
    requires i <= |ms| && j <= |ms|
    ensures i <= j ==> |Unparse(ms[j..])| <= |Unparse(ms[i..])|
  {
    if i <= j {
      UnparseSplit(ms[i..], j - i);
      assert ms[i..][j - i..] == ms[j..];
    }
  }

  /** More unread bytes than there are behind the wanted messages: they are not all framed. */
  lemma NotAllFramed(erased: Conn, ms: seq<ParsedMessage>, j: nat, tail: seq<byte>, target: Key)
    requires j <= |ms| && IsStream(erased.Pending(), ms[j..], tail)
    requires |erased.unread| > Behind(ms, tail, target)
    ensures j < Wanted(ms, target)
  {
    var w := Wanted(ms, target);
    assert |erased.buff| + |erased.unread| == |Unparse(ms[j..])| + |tail|;
    UnparseLength(ms, w, j);
  }

  /** Before all wanted messages are framed, none of the framed ones is the target. */
  lemma NoMatchFramed(ms: seq<ParsedMessage>, j: nat, target: Key)
    requires j < Wanted(ms, target)
    ensures FirstMatch(ms[..j], target) == j
  {
    FirstMatchSplit(ms, j, target);
  }

  /** No more unread bytes than there are behind the wanted messages: they are all framed. */
  lemma AllFramed(c: Conn, ms: seq<ParsedMessage>, tail: seq<byte>, j: nat, target: Key)
    requires IsStream(c.Pending(), ms, tail) && |c.unread| <= Behind(ms, tail, target)
    requires j <= |ms| && Framed(c.buff) == Unparse(ms[..j])
    ensures Wanted(ms, target) <= j
  {
    hide FrameBytes, FramedSize, Wanted;
    var w := Wanted(ms, target);
    var wanted, rest := Unparse(ms[..w]), Unparse(ms[w..]) + tail;
    UnparseSplit(ms, w);
    Associative(wanted, Unparse(ms[w..]), tail);
    assert c.buff + c.unread == wanted + rest && |c.buff| >= |wanted|;
    SplitAtFrame(wanted, rest, c.buff, c.unread);
    AlignedSlice(ms, w);
    FramedSizeOfFrames(ms[..w], c.buff[|wanted|..]);
    assert |wanted| <= |Unparse(ms[..j])|;
    UnparseShorter(ms, j, w);
  }

  lemma UnparseShorter(ms: seq<ParsedMessage>, j: nat, w: nat)
    requires j <= |ms| && w <= |ms|
    ensures j < w ==> |Unparse(ms[..j])| < |Unparse(ms[..w])|
  {
    if j < w {
      UnparseSplit(ms[..w], j);
      assert ms[..w][..j] == ms[..j];
      UnparseUncons(ms[..w][j..]);
    }
  }

  // ---------- A schedule that skips ----------

  lemma {:induction false} Skips(o: Oracle, c: Conn, t: Table, target: Key, callback: Option<Overload>,
                                 ms: seq<ParsedMessage>, tail: seq<byte>, r: nat)
    requires IsStream(c.Pending(), ms, tail)
    requires Behind(ms, tail, target) < r <= |c.unread| && SkipsWith(c.Pending(), r)
    requires SlowThenFull(o, c.calls, |c.unread| - r, r)
    ensures Until(o, c, t, target, callback).consumed != ms[..Wanted(ms, target)]
    decreases |c.unread|
  {
    hide IsStream, FramedSize, ParseAll, DispatchOne, RecvMore, FrameBytes, SkipsWith,
         FirstMatch, FlatMap, Wanted, Behind;
    var j := FramedOfStream(c.Pending(), ms, tail, c.buff, c.unread);
    var erased := Erased(c);
    NotAllFramed(erased, ms, j, tail, target);
    NoMatchFramed(ms, j, target);
    if |c.unread| == r {
      SkipsWithUnread(c);
      FullReadsReachEof(o, erased);
    } else {
      UnframedErased(c, r);
      OneByte(o, erased);
      var next := RecvMore(o, erased).conn;
      BehindSuffix(ms, j, tail, target);
      Skips(o, next, t, target, callback, ms[j..], tail, r);
      StillMissing(ms, j, Wanted(ms, target), Until(o, next, t, target, callback).consumed);
    }
  }

  lemma StillMissing(ms: seq<ParsedMessage>, j: nat, w: nat, x: seq<ParsedMessage>)
    requires j <= w <= |ms| && x != ms[j..][..w - j]
    ensures ms[..j] + x != ms[..w]
  {
    assert (ms[..j] + x)[j..] == x;
    assert ms[..w][j..] == ms[j..][..w - j];
  }

  // ---------- Only such streams are skipped ----------

  lemma {:induction false} SkipsOnlyIf(o: Oracle, c: Conn, t: Table, target: Key, callback: Option<Overload>,
                                       ms: seq<ParsedMessage>, tail: seq<byte>)
    returns (n: nat)
    requires IsStream(c.Pending(), ms, tail)
    requires !SplitsAtTarget(Until(o, c, t, target, callback), ms, tail, t, target, callback)
    ensures Behind(ms, tail, target) < n <= |c.unread| && SkipsWith(c.Pending(), n)
    decreases |c.unread|
  {
    hide IsStream, FramedSize, ParseAll, DispatchOne, RecvMore, SplitsAtTarget, SkipsWith, FillsReads, Behind;
    var behind := Behind(ms, tail, target);
    var j := FramedOfStream(c.Pending(), ms, tail, c.buff, c.unread);
    if FirstMatch(ms[..j], target) < j {
      FoundInBuffer(o, c, t, target, callback, ms, tail, j);
      assert false;
    }
    FirstMatchSplit(ms, j, target);
    var erased := Erased(c);
    var r := RecvMore(o, erased);
    if r.eof && c.unread == [] {
      RecvAtEnd(o, erased);
      EndReached(o, c, t, target, callback, ms, tail, j);
      assert false;
    } else if r.eof && |c.unread| > behind {
      EofAfterProgress(o, erased);
      SkipsWithUnread(c);
      n := |c.unread|;
    } else if r.eof {
      AllFramed(c, ms, tail, j, target);
      SkippedNothing(o, c, t, target, callback, ms, tail, j);
      assert false;
    } else {
      BehindSuffix(ms, j, tail, target);
      if SplitsAtTarget(Until(o, r.conn, t, target, callback), ms[j..], tail, t, target, callback) {
        SplitLater(Until(o, r.conn, t, target, callback), ms, j, tail, t, target, callback, r.rereads);
        assert false;
      }
      n := SkipsOnlyIf(o, r.conn, t, target, callback, ms[j..], tail);
      UnframedErased(c, n);
    }
  }

  lemma RecvAtEnd(o: Oracle, c: Conn)
    requires c.unread == []
    ensures RecvMore(o, c).eof && RecvMore(o, c).conn.buff == c.buff
  {
  }

  lemma SkippedNothing(o: Oracle, c: Conn, t: Table, target: Key, callback: Option<Overload>,
                       ms: seq<ParsedMessage>, tail: seq<byte>, j: nat)
    requires IsStream(c.Pending(), ms, tail) && FirstMatch(ms, target) == |ms|
    requires j == |ms| && ParseAll(Framed(c.buff)) == Parsed(ms[..j], None)
    requires IsStream(c.buff[FramedSize(c.buff)..] + c.unread, ms[j..], tail)
    requires RecvMore(o, c.(buff := c.buff[FramedSize(c.buff)..])).eof
    ensures SplitsAtTarget(Until(o, c, t, target, callback), ms, tail, t, target, callback)
  {
    hide FramedSize, ParseAll, DispatchOne, RecvMore, FrameBytes;
    var left := c.buff[FramedSize(c.buff)..];
    var r := RecvMore(o, c.(buff := left));
    assert ms[..j] == ms && ms[j..] == [];
    assert left + c.unread == Unparse([]) + tail == tail;
    assert r.conn.buff == r.conn.buff + r.conn.unread == left + c.unread;
  }

  /**
   On every stream of messages, whether it ends at a message boundary or breaks off
   anywhere inside a message, and whether the target is in it or not: `until` splits
   it at the target under every schedule if and only if no number of unread bytes
   that full reads can use up reaches back into the messages it wants.
   */
  lemma HandlesAllUnderEveryScheduleIff(c: Conn, t: Table, target: Key, callback: Option<Overload>,
                                        ms: seq<ParsedMessage>, tail: seq<byte>)
    requires IsStream(c.Pending(), ms, tail)
    ensures (forall o: Oracle :: SplitsAtTarget(Until(o, c, t, target, callback), ms, tail, t, target, callback))
            <==> !CanSkip(c, Behind(ms, tail, target))
  {
    hide Until, SplitsAtTarget, SkipsWith, Behind, FrameBytes;
    var behind := Behind(ms, tail, target);
    if CanSkip(c, behind) {
      var r :| behind < r <= |c.unread| && SkipsWith(c.Pending(), r);
      var full := c.calls + (|c.unread| - r);
      var o: Oracle := k =>
          if k < full then 0 else if k == full then RECV_BLOCK_SIZE - 1 + r % RECV_BLOCK_SIZE else RECV_BLOCK_SIZE - 1;
      Skips(o, c, t, target, callback, ms, tail, r);
      NotSplit(Until(o, c, t, target, callback), ms, tail, t, target, callback);
    } else {
      forall o: Oracle
        ensures SplitsAtTarget(Until(o, c, t, target, callback), ms, tail, t, target, callback)
      {
        if !SplitsAtTarget(Until(o, c, t, target, callback), ms, tail, t, target, callback) {
          var n := SkipsOnlyIf(o, c, t, target, callback, ms, tail);
          assert false;
        }
      }
    }
  }

  lemma NotSplit(v: Visited, ms: seq<ParsedMessage>, tail: seq<byte>, t: Table, target: Key, callback: Option<Overload>)
    requires v.consumed != ms[..Wanted(ms, target)]
    ensures !SplitsAtTarget(v, ms, tail, t, target, callback)
  {
    assert ms[..|ms|] == ms;
  }

  // ---------- Messages of whole words ----------

  /** Full reads from a beginning at a multiple of four of a stream that ends `behind` modulo four. */
  predicate Unlucky(r: nat, behind: nat) {
    && RECV_BLOCK_SIZE <= r
    && behind % 4 != 0
    && (r % RECV_BLOCK_SIZE == 0 || (behind % 4 == 1 && r % RECV_BLOCK_SIZE == 1))
  }

  lemma UnluckyFills(u: nat, r: nat, behind: nat)
    requires (u + r) % 4 == behind % 4
    ensures Fills(u, r) <==> Unlucky(r, behind)
  {
    hide RequestSize;
    SumModFour(u, r);
    ThousandModFour(r);
    RequestAtWord(u);
    var request, remainder := RequestSize(u) - RECV_BLOCK_SIZE, r % RECV_BLOCK_SIZE;
    assert 0 <= remainder && 0 <= request <= 1 && (request == 1 <==> u % 4 == 0);
  }

  /** One byte more than a block is asked for exactly at a multiple of four. */
  lemma RequestAtWord(unprocessed: nat)
    ensures RequestSize(unprocessed) == (if unprocessed % 4 == 0 then RECV_BLOCK_SIZE + 1 else RECV_BLOCK_SIZE)
  {
    SumModFour(unprocessed, RECV_BLOCK_SIZE);
  }

  /**
   With messages of whole words only the lengths matter, not where messages end; and
   a stream that ends at a multiple of four is never skipped.
   */
  lemma SkipsByLength(c: Conn, target: Key, ms: seq<ParsedMessage>, tail: seq<byte>)
    requires IsStream(c.Pending(), ms, tail) && AllAligned(ms)
    ensures
      var behind := Behind(ms, tail, target);
      CanSkip(c, behind) <==> exists r :: behind < r <= |c.unread| && Unlucky(r, behind)
  {
    hide IsStream, FramedSize, Fills, Unlucky, Behind;
    var s, behind := c.Pending(), Behind(ms, tail, target);
    forall r | 0 <= r <= |c.unread|
      ensures SkipsWith(s, r) <==> Unlucky(r, behind)
    {
      UnframedModFour(s, ms, tail, r, target);
      UnluckyFills(Unframed(s, r), r, behind);
    }
  }

  lemma UnframedModFour(s: seq<byte>, ms: seq<ParsedMessage>, tail: seq<byte>, r: nat, target: Key)
    requires IsStream(s, ms, tail) && AllAligned(ms) && r <= |s|
    ensures (Unframed(s, r) + r) % 4 == Behind(ms, tail, target) % 4
  {
    hide IsStream, FramedSize, ParseAll, FrameBytes, AllAligned;
    var b, u := s[..|s| - r], s[|s| - r..];
    assert b + u == s;
    var j := FramedOfStream(s, ms, tail, b, u);
    AlignedSlice(ms, j);
    StreamLength(b[FramedSize(b)..] + u, ms[j..], tail);
    var w := Wanted(ms, target);
    AlignedSlice(ms, w);
    UnparseAligned(ms[w..]);
    SumModFour(|Unparse(ms[w..])|, |tail|);
  }

  // ---------- After an early end-of-file ----------

  lemma NothingUnread(o: Oracle, c: Conn, t: Table, target: Key, callback: Option<Overload>,
                      ms: seq<ParsedMessage>, tail: seq<byte>)
    requires IsStream(c.Pending(), ms, tail) && c.unread == []
    ensures SplitsAtTarget(Until(o, c, t, target, callback), ms, tail, t, target, callback)
  {
    hide IsStream, FramedSize, ParseAll, RecvMore, Until, SplitsAtTarget;
    var j := FramedOfStream(c.Pending(), ms, tail, c.buff, c.unread);
    if FirstMatch(ms[..j], target) < j {
      FoundInBuffer(o, c, t, target, callback, ms, tail, j);
    } else {
      RecvAtEnd(o, c.(buff := c.buff[FramedSize(c.buff)..]));
      EndReached(o, c, t, target, callback, ms, tail, j);
    }
  }

  /**
   An early end-of-file loses nothing. Whenever `until` reports end-of-file, on any
   stream and schedule, it and a further call, on any other schedule, together split
   the stream at the target: nothing is left out, and nothing is handled twice.
   */
  lemma RetryAfterEof(o: Oracle, p: Oracle, c: Conn, t: Table, target: Key, callback: Option<Overload>,
                      ms: seq<ParsedMessage>, tail: seq<byte>)
    requires IsStream(c.Pending(), ms, tail)
    requires Until(o, c, t, target, callback).outcome.Eof?
    ensures
      var v := Until(o, c, t, target, callback);
      var retried := After(v.trace, v.consumed, v.rereads, Until(p, v.conn, t, target, callback));
      SplitsAtTarget(retried, ms, tail, t, target, callback)
  {
    hide IsStream, Until, SplitsAtTarget, FirstMatch, Dispatch;
    var v := Until(o, c, t, target, callback);
    var j := |v.consumed|;
    UntilAccounted(o, c, t, target, callback);
    ExecuteDelivers(o, c, UntilOp(t, target, callback), ms, tail);
    assert ms[..j] == v.consumed;
    NothingUnread(p, v.conn, t, target, callback, ms[j..], tail);
    SplitLater(Until(p, v.conn, t, target, callback), ms, j, tail, t, target, callback, v.rereads);
  }
}
