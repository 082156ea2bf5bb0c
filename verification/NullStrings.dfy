/**
 Payloads with null strings. `append` never writes one, but a peer may send a
 string as the length zero alone, which the interpreter reads without moving on.
 */
module NullStrings {
  import opened Bytes
  import opened Chunks
  import opened MessageInterpreters
  import opened Wire
  import opened Wrappers

  // ---------- Strings of length zero ----------

  /**
   A string leaves the offset at its end exactly when its length field is not
   zero. `append` never writes a zero length, but a null string of a peer is one.
   */
  lemma StringAdvancesIff(b: seq<byte>)
    requires ReadElement(KStr, b).Some?
    ensures ReadElement(KStr, b).value.advance == Padded(LENGTH_SIZE + U32(b[..4])) <==> U32(b[..4]) != 0
  {
    PaddedWords();
  }

  lemma ReadZeroWord(b: seq<byte>)
    requires |b| >= 4 && U32(b[..4]) == 0
    ensures ReadElement(KStr, b) == Some(Read(Str([]), 0))
    ensures ReadElement(KUint, b) == Some(Read(Uint(0), 4))
  {
    hide U32, Padded;
    PaddedWords();
  }

  /** After a null string everything behind it is read from its length field again. */
  lemma NullStringStays(ks: seq<Kind>, b: seq<byte>)
    requires Receivable(ks)
    requires |b| >= 4 && U32(b[..4]) == 0
    ensures Receivable([KStr] + ks)
    ensures ReadAll([KStr] + ks, b) ==
            match ReadAll(ks, b)
            case None => None
            case Some(rest) => Some(Interpreted([Str([])] + rest.args, rest.bytesRead))
  {
    assert ([KStr] + ks)[0] == KStr && ([KStr] + ks)[1..] == ks;
    assert From(b, 0) == b;
  }

  /** So a null string followed by the integer `x` is read as a null string followed by 0. */
  lemma NullStringMisread(zero: seq<byte>, x: u32)
    requires |zero| == 4 && U32(zero) == 0
    ensures Receivable([KStr, KUint])
    ensures ReadAll([KStr, KUint], zero + LE32(x)) == Some(Interpreted([Str([]), Uint(0)], 4))
  {
    hide LE32, ReadElement, U32, From;
    var payload := zero + LE32(x);
    var ks := [KStr, KUint];
    assert payload[..4] == zero && payload[0..] == payload;
    assert ks[1..] == [KUint] && ks[1..][1..] == [];
    ReadZeroWord(payload);
    FromFits(payload, 0);
    ReadAllStep(ks[1..], payload, Read(Uint(0), 4), Interpreted([], 0));
    assert [Uint(0)] + [] == [Uint(0)] && [Str([])] + [Uint(0)] == [Str([]), Uint(0)];
    ReadAllStep(ks, payload, Read(Str([]), 0), Interpreted([Uint(0)], 4));
  }

  // ---------- Whole payloads ----------

  /** An argument as a peer may send it: as `append` would, or as a null string. */
  datatype Sent = Encoded(arg: Arg) | NullString

  function ArgOf(s: Sent): Arg {
    match s
    case Encoded(a) => a
    case NullString => Str([])
  }

  function SentSize(s: Sent): nat {
    match s
    case Encoded(a) => ElementSize(a)
    case NullString => 4
  }

  ghost predicate SentAs(s: Sent, bs: seq<byte>) {
    match s
    case Encoded(a) => Encodes(a, bs)
    case NullString => |bs| == 4 && U32(bs) == 0
  }

  ghost predicate Payload(ss: seq<Sent>, bs: seq<byte>) {
    Chunked(ss, bs, SentSize, SentAs)
  }

  function Args(ss: seq<Sent>): (args: seq<Arg>)
    ensures |args| == |ss|
    ensures forall i :: 0 <= i < |ss| ==> args[i] == ArgOf(ss[i])
  {
    seq(|ss|, i requires 0 <= i < |ss| => ArgOf(ss[i]))
  }

  /** The interpreter gives back the arguments that were sent. */
  ghost predicate ReadAsSent(ss: seq<Sent>, bs: seq<byte>)
    requires Receivable(Kinds(Args(ss)))
  {
    ReadAll(Kinds(Args(ss)), bs).Some? && ReadAll(Kinds(Args(ss)), bs).value.args == Args(ss)
  }

  /** A word of zeros is read as the argument: zero, an empty array, or an empty string. */
  predicate IsZero(s: Sent) {
    var a := ArgOf(s);
    (a.Kind().Static() && Image(a) == 0) || a == Arr([]) || a == Str([])
  }

  ghost predicate AllZero(ss: seq<Sent>) {
    forall s <- ss :: IsZero(s)
  }

  /** Nothing but such arguments behind a null string. */
  predicate ZeroBehindNull(ss: seq<Sent>) {
    forall i, j :: 0 <= i < j < |ss| && ss[i].NullString? ==> IsZero(ss[j])
  }

  /** Reading `ss`, with that many words of zeros next, either goes wrong in them or ends in them. */
  predicate StaysIn(ss: seq<Sent>, words: nat) {
    ss == [] ||
    (words > 0 && (!IsZero(ss[0]) || StaysIn(ss[1..], if ArgOf(ss[0]).Str? then words else words - 1)))
  }

  /** The same while words of zeros are still being sent: up to an empty string with a delimiter. */
  predicate StaysBehindNull(ss: seq<Sent>, words: nat) {
    ss == [] || !IsZero(ss[0]) ||
    if ss[0] == Encoded(Str([])) then StaysIn(ss[1..], words)
    else StaysBehindNull(ss[1..], if ss[0].NullString? then words + 1 else words)
  }

  /**
   Behind a null string, reading never comes to the delimiter of an empty string
   with everything read right so far. (There, later arguments are read from earlier
   bytes and can be right by coincidence, as `RightByCoincidence` shows.)
   */
  predicate Decided(ss: seq<Sent>) {
    ss == [] || if ss[0].NullString? then StaysBehindNull(ss[1..], 1) else Decided(ss[1..])
  }

  lemma ReceivableUncons(ss: seq<Sent>)
    requires ss != [] && Receivable(Kinds(Args(ss)))
    ensures Kinds(Args(ss))[1..] == Kinds(Args(ss[1..]))
    ensures Receivable(Kinds(Args(ss[1..])))
    ensures Kinds(Args(ss))[0] == ArgOf(ss[0]).Kind() && !ArgOf(ss[0]).Fd?
    ensures Args(ss) == [ArgOf(ss[0])] + Args(ss[1..])
  {
    var ks := Kinds(Args(ss));
    assert ks[1..] == Kinds(Args(ss[1..]));
    assert ks[0] in ks;
    forall k | k in ks[1..]
      ensures !k.KFd?
    {
      assert k in ks;
    }
  }

  /** The first argument of a payload, once it is known how it is read. */
  lemma ReadAsSentStep(ss: seq<Sent>, b: seq<byte>, read: Read, rest: seq<byte>)
    requires ss != [] && Receivable(Kinds(Args(ss))) && !ArgOf(ss[0]).Fd?
    requires Receivable(Kinds(Args(ss[1..])))
    requires ReadElement(ArgOf(ss[0]).Kind(), b) == Some(read) && From(b, read.advance) == rest
    ensures ReadAsSent(ss, b) <==> read.arg == ArgOf(ss[0]) && ReadAsSent(ss[1..], rest)
  {
    hide ReadElement, From, Receivable;
    ReceivableUncons(ss);
    var tail := ReadAll(Kinds(Args(ss[1..])), rest);
    if tail.Some? {
      ReadAllStep(Kinds(Args(ss)), b, read, tail.value);
      assert ([read.arg] + tail.value.args)[1..] == tail.value.args;
      assert Args(ss)[1..] == Args(ss[1..]);
    }
  }

  lemma ReadZeroStatic(a: Arg, b: seq<byte>)
    requires |b| >= 4 && U32(b[..4]) == 0 && a.Kind().Static()
    ensures ReadElement(a.Kind(), b) == Some(Read(FromImage(a.Kind(), 0), 4))
    ensures FromImage(a.Kind(), 0) == a <==> Image(a) == 0
  {
    hide U32, Padded, Image;
    PaddedWords();
    ImageInverts(a);
  }

  lemma ReadZeroArray(b: seq<byte>)
    requires |b| >= 4 && U32(b[..4]) == 0
    ensures ReadElement(KArr, b) == Some(Read(Arr([]), 4))
  {
    hide U32, Padded;
    PaddedWords();
    assert b[LENGTH_SIZE..LENGTH_SIZE] == [];
  }

  /** What is read where a word of zeros is next is the argument sent if and only if that is zero. */
  lemma ReadZero(s: Sent, b: seq<byte>)
    requires |b| >= 4 && U32(b[..4]) == 0 && !ArgOf(s).Fd?
    ensures
      var read := ReadElement(ArgOf(s).Kind(), b);
      && read.Some?
      && read.value.advance == (if ArgOf(s).Str? then 0 else 4)
      && (read.value.arg == ArgOf(s) <==> IsZero(s))
  {
    hide U32, ReadElement, FromImage, Image;
    match ArgOf(s) {
      case Str(_) => ReadZeroWord(b);
      case Arr(_) => ReadZeroArray(b);
      case _ => ReadZeroStatic(ArgOf(s), b);
    }
  }

  /** Zero arguments are sent as the word of zeros they are read as, but for empty strings with a delimiter. */
  lemma ZeroIsZeroWord(s: Sent, bs: seq<byte>)
    requires IsZero(s) && s != Encoded(Str([])) && SentAs(s, bs)
    ensures |bs| == 4 && U32(bs) == 0
  {
    hide U32, LE32, Padded;
    PaddedWords();
    if s.Encoded? {
      assert |bs| == 4;
      assert bs[..4] == bs;
    }
  }

  lemma ZerosThen(zeros: seq<byte>, b: seq<byte>, n: nat)
    requires n <= |zeros| && n <= |b|
    ensures From(zeros + b, 0) == (zeros + b[..n]) + b[n..]
    ensures From(zeros + b, n) == (zeros[n..] + b[..n]) + b[n..]
  {
  }

  /** That many words of zeros. */
  ghost predicate Zeros(z: seq<byte>, words: nat) {
    |z| == 4 * words && forall i :: 0 <= i < |z| ==> z[i] == 0
  }

  lemma {:induction false} ZeroDigits(bs: seq<byte>)
    ensures FromLE(bs) == 0 <==> forall i :: 0 <= i < |bs| ==> bs[i] == 0
  {
    hide Pow256;
    if bs != [] {
      ZeroDigits(bs[1..]);
      assert forall i :: 0 <= i < |bs| - 1 ==> bs[1..][i] == bs[i + 1];
    }
  }

  lemma ZerosAppend(z: seq<byte>, words: nat, word: seq<byte>)
    requires Zeros(z, words) && words > 0 && |word| == 4 && U32(word) == 0
    ensures Zeros(z + word, words + 1) && Zeros(z[4..] + word, words) && Zeros(z[4..], words - 1)
  {
    ZeroDigits(word);
  }

  lemma FirstZero(zeros: seq<byte>, words: nat, b: seq<byte>)
    requires Zeros(zeros, words) && words > 0
    ensures |zeros| >= 4 && U32((zeros + b)[..4]) == 0
    ensures From(zeros + b, 0) == zeros + b && From(zeros + b, 4) == zeros[4..] + b
  {
    ZeroDigits((zeros + b)[..4]);
  }

  lemma AllZeroUncons(ss: seq<Sent>)
    requires ss != []
    ensures AllZero(ss) <==> IsZero(ss[0]) && AllZero(ss[1..])
  {
    hide IsZero;
    assert ss == [ss[0]] + ss[1..];
  }

  /** With only zeros to read from, whatever is behind them, exactly zero arguments are read as sent. */
  lemma {:induction false} ReadInZeros(ss: seq<Sent>, zeros: seq<byte>, words: nat, b: seq<byte>)
    requires Zeros(zeros, words) && StaysIn(ss, words) && Receivable(Kinds(Args(ss)))
    ensures ReadAsSent(ss, zeros + b) <==> AllZero(ss)
    decreases |ss|
  {
    hide U32, ReadElement, From, Zeros, IsZero, Receivable;
    if ss == [] {
      NothingSent(zeros + b);
    } else {
      var s := ss[0];
      ReceivableUncons(ss);
      AllZeroUncons(ss);
      FirstZero(zeros, words, b);
      ReadZero(s, zeros + b);
      var read := ReadElement(ArgOf(s).Kind(), zeros + b).value;
      var left := if ArgOf(s).Str? then zeros else zeros[4..];
      ReadAsSentStep(ss, zeros + b, read, left + b);
      if IsZero(s) {
        ZerosLess(zeros, words);
        ReadInZeros(ss[1..], left, if ArgOf(s).Str? then words else words - 1, b);
      }
    }
  }

  lemma ZerosLess(zeros: seq<byte>, words: nat)
    requires Zeros(zeros, words) && words > 0
    ensures Zeros(zeros[4..], words - 1)
  {
  }

  /** With the words of null strings still unread in front, exactly zero arguments are read as sent. */
  lemma {:induction false} ReadBehindZeros(ss: seq<Sent>, zeros: seq<byte>, words: nat, b: seq<byte>)
    requires Zeros(zeros, words) && words > 0 && StaysBehindNull(ss, words)
    requires Payload(ss, b) && Receivable(Kinds(Args(ss)))
    ensures ReadAsSent(ss, zeros + b) <==> AllZero(ss)
    decreases |ss|
  {
    hide U32, ReadElement, From, Zeros, SentAs, IsZero, StaysIn, Encodes, Receivable;
    if ss == [] {
      NothingSent(zeros + b);
    } else {
      var s, n := ss[0], SentSize(ss[0]);
      ReceivableUncons(ss);
      ChunkedUncons(ss, b, SentSize, SentAs);
      AllZeroUncons(ss);
      FirstZero(zeros, words, b);
      ReadZero(s, zeros + b);
      var read := ReadElement(ArgOf(s).Kind(), zeros + b).value;
      ReadAsSentStep(ss, zeros + b, read, From(zeros + b, read.advance));
      if IsZero(s) && s == Encoded(Str([])) {
        ReadInZeros(ss[1..], zeros, words, b);
      } else if IsZero(s) {
        ZeroIsZeroWord(s, b[..n]);
        ZerosAppend(zeros, words, b[..n]);
        ZerosThen(zeros, b, 4);
        if s.NullString? {
          ReadBehindZeros(ss[1..], zeros + b[..4], words + 1, b[4..]);
        } else {
          NotString(s);
          ReadBehindZeros(ss[1..], zeros[4..] + b[..4], words, b[4..]);
        }
      }
    }
  }

  lemma NotString(s: Sent)
    requires IsZero(s) && s.Encoded? && s != Encoded(Str([]))
    ensures !ArgOf(s).Str?
  {
  }

  /** A null string in front: everything behind it has to be zero. */
  lemma NullInFront(ss: seq<Sent>)
    requires ss != [] && ss[0].NullString?
    ensures ZeroBehindNull(ss) <==> AllZero(ss[1..])
  {
    hide IsZero;
    forall j | 0 < j < |ss|
      ensures ss[j] == ss[1..][j - 1] && ss[j] in ss[1..]
    {
      assert ss[j] == ss[1..][j - 1];
    }
  }

  lemma EncodedInFront(ss: seq<Sent>)
    requires ss != [] && ss[0].Encoded?
    ensures ZeroBehindNull(ss) <==> ZeroBehindNull(ss[1..])
  {
    hide IsZero;
    assert ss == [ss[0]] + ss[1..];
    if ZeroBehindNull(ss[1..]) {
      forall i, j | 0 <= i < j < |ss| && ss[i].NullString?
        ensures IsZero(ss[j])
      {
        assert ss[1..][i - 1].NullString? && ss[1..][j - 1] == ss[j];
      }
    }
  }

  /**
   When a payload with null strings is read as it was sent: if and only if
   whatever is behind a null string is zero, an empty array, or an empty string.
   */
  lemma {:induction false} NullStringsReadAsSentIff(ss: seq<Sent>, b: seq<byte>)
    requires Payload(ss, b) && |b| < 0x1_0000_0000
    requires Receivable(Kinds(Args(ss))) && Decided(ss)
    ensures ReadAsSent(ss, b) <==> ZeroBehindNull(ss)
    decreases |ss|
  {
    hide U32, ReadElement, From, SentAs, Encodes, Receivable, ZeroBehindNull, StaysBehindNull, ElementSize,
         ReadAsSent, Args;
    if ss == [] {
      NothingSent(b);
    } else {
      var n := SentSize(ss[0]);
      ReceivableUncons(ss);
      ChunkedUncons(ss, b, SentSize, SentAs);
      match ss[0]
      case Encoded(a) =>
        EncodedInFront(ss);
        EncodedFirst(a, b);
        FromFits(b, n);
        ReadAsSentStep(ss, b, Read(a, n), b[n..]);
        NullStringsReadAsSentIff(ss[1..], b[n..]);
      case NullString =>
        NullInFront(ss);
        NullFirst(b);
        FromFits(b, 0);
        ReadAsSentStep(ss, b, Read(Str([]), 0), b[0..]);
        ReadBehindZeros(ss[1..], b[..4], 1, b[4..]);
        assert b[..4] + b[4..] == b[0..];
    }
  }

  lemma NothingSent(b: seq<byte>)
    ensures ReadAsSent([], b) && ZeroBehindNull([])
  {
  }

  lemma EncodedFirst(a: Arg, b: seq<byte>)
    requires !a.Fd? && ElementSize(a) <= |b| < 0x1_0000_0000 && SentAs(Encoded(a), b[..ElementSize(a)])
    ensures ReadElement(a.Kind(), b) == Some(Read(a, ElementSize(a)))
  {
    ReadEncoded(a, b);
  }

  lemma NullFirst(b: seq<byte>)
    requires |b| >= 4 && SentAs(NullString, b[..4])
    ensures Zeros(b[..4], 1)
    ensures ReadElement(KStr, b) == Some(Read(Str([]), 0))
  {
    ZeroDigits(b[..4]);
    hide U32;
    ReadZeroWord(b);
  }

  /** A null string, an empty string that `append` wrote, 0, and 1. */
  const COINCIDENCE := [NullString, Encoded(Str([])), Encoded(Uint(0)), Encoded(Uint(1))]

  /**
   Without `Decided` there are payloads that are read as sent although something
   else is behind the null string: this one, because the 1 is read from the length
   of the empty string.
   */
  lemma RightByCoincidence(b: seq<byte>)
    requires Payload(COINCIDENCE, b)
    ensures Receivable(Kinds(Args(COINCIDENCE))) && ReadAsSent(COINCIDENCE, b)
    ensures !ZeroBehindNull(COINCIDENCE) && !Decided(COINCIDENCE)
  {
    CoincidenceUndecided();
    hide Decided, ZeroBehindNull, ReadAsSent, Encodes, Payload, Args, Kinds, Receivable, U32;
    LagWords(COINCIDENCE, b);
    ReadZeroThenOne(b);
    var numbers := [Encoded(Uint(0)), Encoded(Uint(1))];
    EmptyInFront(Encoded(Str([])), numbers, b);
    EmptyInFront(NullString, [Encoded(Str([]))] + numbers, b);
    assert [NullString] + ([Encoded(Str([]))] + numbers) == COINCIDENCE;
  }

  lemma CoincidenceUndecided()
    ensures !ZeroBehindNull(COINCIDENCE) && !Decided(COINCIDENCE)
  {
    assert COINCIDENCE[0].NullString? && !IsZero(COINCIDENCE[3]);
  }

  lemma EmptyInFront(s: Sent, ss: seq<Sent>, b: seq<byte>)
    requires ArgOf(s) == Str([]) && Receivable(Kinds(Args(ss))) && ReadAsSent(ss, b)
    requires |b| >= 4 && U32(b[..4]) == 0
    ensures Receivable(Kinds(Args([s] + ss))) && ReadAsSent([s] + ss, b)
  {
    hide U32, ReadElement, ReadAsSent;
    var all := [s] + ss;
    assert all[1..] == ss;
    forall k | k in Kinds(Args(all))
      ensures !k.KFd?
    {
      assert Kinds(Args(all))[1..] == Kinds(Args(ss));
    }
    ReadZeroWord(b);
    FromFits(b, 0);
    assert b[0..] == b;
    ReadAsSentStep(all, b, Read(Str([]), 0), b);
  }

  lemma ReadZeroThenOne(b: seq<byte>)
    requires |b| >= 8 && U32(b[..4]) == 0 && U32(b[4..8]) == 1
    ensures
      var ss := [Encoded(Uint(0)), Encoded(Uint(1))];
      Receivable(Kinds(Args(ss))) && ReadAsSent(ss, b)
  {
    hide U32, ReadElement, From, ReadAsSent;
    var ss, one := [Encoded(Uint(0)), Encoded(Uint(1))], [Encoded(Uint(1))];
    assert ss[1..] == one && one[1..] == [];
    assert b[4..][..4] == b[4..8];
    FromFits(b, 4);
    ReadOne(b[4..]);
    NothingSent(From(b[4..], 4));
    ReadAsSentStep(one, b[4..], Read(Uint(1), 4), From(b[4..], 4));
    ReadZeroStatic(Uint(0), b);
    ReadAsSentStep(ss, b, Read(Uint(0), 4), b[4..]);
  }

  lemma LagWords(ss: seq<Sent>, b: seq<byte>)
    requires |ss| > 2 && ss[0].NullString? && ss[1] == Encoded(Str([])) && Payload(ss, b)
    ensures |b| >= 8 && U32(b[..4]) == 0 && U32(b[4..8]) == 1
  {
    hide U32, Encodes, ElementSize;
    ChunkedUncons(ss, b, SentSize, SentAs);
    ChunkedUncons(ss[1..], b[4..], SentSize, SentAs);
    EmptyStringWord(b[4..][..SentSize(ss[1])]);
    assert b[4..][..8][..4] == b[4..8];
  }

  lemma EmptyStringWord(bs: seq<byte>)
    requires Encodes(Str([]), bs)
    ensures ElementSize(Str([])) == 8 && |bs| == 8 && U32(bs[..4]) == 1
  {
    hide U32, Padded;
    PaddedWords();
  }

  lemma ReadOne(b: seq<byte>)
    requires |b| >= 4 && U32(b[..4]) == 1
    ensures ReadElement(KUint, b) == Some(Read(Uint(1), 4))
  {
    hide U32, Padded;
    PaddedWords();
  }
}
