/**
 `get_recd_bytes_forming_whole_messages`: the second, independent walk over
 message headers, which finds how much of a buffer is whole messages.
 */
module Framing {
  import opened Bytes
  import opened Chunks
  import opened MessageParsers
  import opened Wire
  import opened Wrappers

  /** Where the walk stops. It trusts every declared size that fits, even one below eight. */
  function FramedSize(b: seq<byte>): (n: nat)
    ensures n <= |b|
  {
    if |b| < HEADER_SIZE then 0
    else
      var size := DeclaredSize(b);
      if size == 0 || size > |b| then 0 else size + FramedSize(b[size..])
  }

  function Framed(b: seq<byte>): seq<byte> {
    b[..FramedSize(b)]
  }

  /** The walk comes to a header that declares size zero. */
  predicate MeetsZero(b: seq<byte>) {
    if |b| < HEADER_SIZE then false
    else
      var size := DeclaredSize(b);
      if size == 0 then true
      else if size > |b| then false
      else MeetsZero(b[size..])
  }

  /** Every header the walk comes to declares at least its own size. */
  predicate SizesOk(b: seq<byte>) {
    if |b| < HEADER_SIZE then true
    else
      var size := DeclaredSize(b);
      if size < HEADER_SIZE then false
      else if size > |b| then true
      else SizesOk(b[size..])
  }

  /** The first header that declares less than its own size does not declare zero. */
  predicate StopsShort(b: seq<byte>) {
    if |b| < HEADER_SIZE then false
    else
      var size := DeclaredSize(b);
      if size == 0 then false
      else if size < HEADER_SIZE then true
      else if size > |b| then false
      else StopsShort(b[size..])
  }

  lemma {:induction false} UnsoundStopsShort(b: seq<byte>)
    requires !MeetsZero(b)
    ensures StopsShort(b) <==> !SizesOk(b)
  {
    if |b| >= HEADER_SIZE && HEADER_SIZE <= DeclaredSize(b) <= |b| {
      UnsoundStopsShort(b[DeclaredSize(b)..]);
    }
  }

  // ---------- When the loop ends ----------

  /** One turn of the loop at offset `p`: where the next turn starts, or `None` if it returns. */
  function Turn(b: seq<byte>, p: nat): (r: Option<nat>)
    requires p <= |b|
    ensures r.Some? ==> p <= r.value <= |b|
  {
    if |b| < p + HEADER_SIZE then None
    else
      var next := p + DeclaredSize(b[p..]);
      if |b| >= next then Some(next) else None
  }

  /** Where turn number `k` starts, unless the loop has returned before it. */
  function AfterTurns(b: seq<byte>, p: nat, k: nat): Option<nat>
    requires p <= |b|
    decreases k
  {
    if k == 0 then Some(p)
    else
      match Turn(b, p)
      case None => None
      case Some(next) => AfterTurns(b, next, k - 1)
  }

  lemma {:induction false} NeverReturns(b: seq<byte>, p: nat, k: nat)
    requires p <= |b| && MeetsZero(b[p..])
    ensures AfterTurns(b, p, k).Some?
    decreases k
  {
    if k > 0 {
      var size := DeclaredSize(b[p..]);
      assert b[p..][size..] == b[p + size..];
      NeverReturns(b, p + size, k - 1);
    }
  }

  lemma {:induction false} Returns(b: seq<byte>, p: nat) returns (k: nat)
    requires p <= |b| && !MeetsZero(b[p..])
    ensures AfterTurns(b, p, k).None?
    decreases |b| - p
  {
    match Turn(b, p)
    case None =>
      k := 1;
    case Some(next) =>
      assert b[p..][next - p..] == b[next..];
      k := Returns(b, next);
      k := k + 1;
  }

  /** The loop returns on a buffer exactly when it never meets a declared size of zero. */
  lemma LoopReturnsIff(b: seq<byte>)
    ensures (exists k: nat :: AfterTurns(b, 0, k).None?) <==> !MeetsZero(b)
  {
    assert b[0..] == b;
    if MeetsZero(b) {
      forall k: nat
        ensures AfterTurns(b, 0, k).Some?
      {
        NeverReturns(b, 0, k);
      }
    } else {
      var k := Returns(b, 0);
      assert AfterTurns(b, 0, k).None?;
    }
  }

  lemma {:induction false} MeetsZeroExtends(b: seq<byte>, more: seq<byte>)
    requires !MeetsZero(b + more)
    ensures !MeetsZero(b)
    ensures !MeetsZero(b[FramedSize(b)..] + more)
    decreases |b|
  {
    if |b| >= HEADER_SIZE {
      assert (b + more)[6..8] == b[6..8];
      var size := DeclaredSize(b);
      if size <= |b| {
        assert (b + more)[size..] == b[size..] + more;
        MeetsZeroExtends(b[size..], more);
        assert b[size..][FramedSize(b[size..])..] == b[FramedSize(b)..];
      }
    }
    if FramedSize(b) == 0 {
      assert b[0..] == b;
    }
  }

  /** Where the walk stopped it does not go on. */
  lemma {:induction false} FramedRest(b: seq<byte>)
    ensures FramedSize(b[FramedSize(b)..]) == 0
  {
    if FramedSize(b) == 0 {
      assert b[0..] == b;
    } else {
      var rest := b[DeclaredSize(b)..];
      FramedRest(rest);
      assert rest[FramedSize(rest)..] == b[FramedSize(b)..];
    }
  }

  // ---------- Agreement with the parser ----------

  lemma DeclaredSizeOfFrame(m: ParsedMessage, rest: seq<byte>)
    requires m.Fits()
    ensures DeclaredSize(FrameBytes(m) + rest) == m.Size()
  {
    ParseHeadOfFrame(m, rest);
  }

  /** Whole messages in front are walked over, whatever follows them. */
  lemma {:induction false} FramedSizeOfFrames(ms: seq<ParsedMessage>, rest: seq<byte>)
    requires AllFit(ms)
    ensures FramedSize(Unparse(ms) + rest) == |Unparse(ms)| + FramedSize(rest)
    ensures MeetsZero(Unparse(ms) + rest) <==> MeetsZero(rest)
    ensures SizesOk(Unparse(ms) + rest) <==> SizesOk(rest)
    ensures StopsShort(Unparse(ms) + rest) <==> StopsShort(rest)
  {
    hide FrameBytes, DeclaredSize;
    if ms == [] {
      assert Unparse(ms) + rest == rest;
    } else {
      var tail := Unparse(ms[1..]) + rest;
      var b := FrameBytes(ms[0]) + tail;
      FramedSizeOfFrames(ms[1..], rest);
      UnparseUncons(ms);
      Associative(FrameBytes(ms[0]), Unparse(ms[1..]), rest);
      DeclaredSizeOfFrame(ms[0], tail);
      assert b[ms[0].Size()..] == tail;
    }
  }

  /** In front of bytes that begin no whole message, both walks stop at the same place. */
  lemma StopsTogether(rest: seq<byte>)
    requires rest != [] ==> ParseHead(rest).Failure?
    requires SizesOk(rest)
    ensures FramedSize(rest) == 0
  {
  }

  /**
   On a buffer whose sizes are sound the two walks agree: the framed prefix is
   what the parser takes apart without throwing.
   */
  lemma FramingAgreesWithParser(b: seq<byte>)
    requires SizesOk(b)
    ensures AllFit(ParseAll(b).messages)
    ensures Framed(b) == Unparse(ParseAll(b).messages)
    ensures ParseAll(Framed(b)) == Parsed(ParseAll(b).messages, None)
  {
    var rest := ParseAllIsPrefix(b);
    var ms := ParseAll(b).messages;
    FramedSizeOfFrames(ms, rest);
    StopsTogether(rest);
    assert b[..|Unparse(ms)|] == Unparse(ms);
    ParseUnparse(ms);
  }

  /** `b[..k]` is whole messages. */
  ghost predicate WholeUpTo(b: seq<byte>, k: nat) {
    k <= |b| && exists ms :: AllFit(ms) && Unparse(ms) == b[..k]
  }

  /** The framed prefix is whole messages, and no longer prefix is. */
  lemma FramedIsLongestWholePrefix(b: seq<byte>, k: nat)
    requires SizesOk(b)
    ensures WholeUpTo(b, FramedSize(b))
    ensures WholeUpTo(b, k) ==> k <= FramedSize(b)
  {
    FramingAgreesWithParser(b);
    if WholeUpTo(b, k) {
      var ms :| AllFit(ms) && Unparse(ms) == b[..k];
      assert b == Unparse(ms) + b[k..];
      FramedSizeOfFrames(ms, b[k..]);
    }
  }

  lemma {:induction false} UnsoundSizeThrows(b: seq<byte>)
    requires !MeetsZero(b) && !SizesOk(b)
    ensures ParseAll(Framed(b)).error.Some?
    decreases |b|
  {
    var size := DeclaredSize(b);
    var f := Framed(b);
    if |f| >= HEADER_SIZE {
      assert f[6..8] == b[6..8];
    }
    if size >= HEADER_SIZE {
      var rest := b[size..];
      UnsoundSizeThrows(rest);
      assert FramedSize(b) == size + FramedSize(rest);
      assert b[..size + FramedSize(rest)][size..] == rest[..FramedSize(rest)];
      assert ParseHead(f).Success? && ParseHead(f).value.Size() == size;
    }
  }

  /**
   On every buffer the framing loop returns for, the parser run on its result
   never throws if and only if all sizes met are at least a header.
   */
  lemma ParserNeverThrowsIff(b: seq<byte>)
    requires !MeetsZero(b)
    ensures ParseAll(Framed(b)).error.None? <==> SizesOk(b)
  {
    if SizesOk(b) {
      FramingAgreesWithParser(b);
    } else {
      UnsoundSizeThrows(b);
    }
  }
}
