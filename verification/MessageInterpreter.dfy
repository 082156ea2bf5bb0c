/**
 `interpert_message_payload`: reads the arguments of a message type, given by
 its list of argument kinds, out of a payload.
 */
module MessageInterpreters {
  import opened Bytes
  import opened Chunks
  import opened Wire
  import opened Wrappers

  /** An argument and what its read added to `bytes_read`. */
  datatype Read = Read(arg: Arg, advance: nat)

  /** All arguments, and the final value of `bytes_read`. */
  datatype Interpreted = Interpreted(args: seq<Arg>, bytesRead: nat)

  /** Message types the interpreter accepts: events with descriptors cannot be received. */
  ghost predicate Receivable(ks: seq<Kind>) {
    forall k <- ks :: !k.KFd?
  }

  /** The payload from `bytes_read` on; nothing if that is behind its end. */
  function From(payload: seq<byte>, bytesRead: nat): seq<byte> {
    if bytesRead <= |payload| then payload[bytesRead..] else []
  }

  /**
   Reads one argument from the unread bytes `b` of a payload. `None` stands for a
   read outside of the payload, which is undefined. A string of length zero is
   read without moving on.
   */
  function ReadElement(k: Kind, b: seq<byte>): (r: Option<Read>)
    requires !k.KFd?
  {
    if |b| < 4 then None
    else
      var word := U32(b[..4]);
      if k.KStr? && word == 0 then Some(Read(Str([]), 0))
      else if k.KStr? then
        if LENGTH_SIZE + word > |b| then None
        else Some(Read(Str(b[LENGTH_SIZE..LENGTH_SIZE + word - 1]), Padded(LENGTH_SIZE + word)))
      else if k.KArr? then
        if LENGTH_SIZE + word > |b| then None
        else Some(Read(Arr(b[LENGTH_SIZE..LENGTH_SIZE + word]), Padded(LENGTH_SIZE + word)))
      else Some(Read(FromImage(k, word), Padded(k.SizeOf())))
  }

  /** A string or an array: so many bytes behind the length, and an advance by whole words. */
  ghost predicate ReadsBytes(r: Option<Read>, b: seq<byte>, skip: nat, read: seq<byte>, count: nat) {
    && (r.Some? <==> 4 + skip <= |b|)
    && (r.Some? ==>
          && |read| == count && (forall i :: 0 <= i < count && 4 + i < |b| ==> read[i] == b[4 + i])
          && r.value.advance % 4 == 0 && 0 <= r.value.advance - (4 + skip) < 4)
  }

  /** What is read at any word, for every kind, in terms of the word and the bytes behind it. */
  lemma ReadElementIs(k: Kind, b: seq<byte>)
    requires !k.KFd?
    ensures |b| < 4 ==> ReadElement(k, b) == None
    ensures |b| >= 4 ==>
              var r, word := ReadElement(k, b), U32(b[..4]);
              match k
              case KInt => r.Some? && r.value.arg.Int? && r.value.arg.i % 0x1_0000_0000 == word && r.value.advance == 4
              case KUint => r == Some(Read(Uint(word), 4))
              case KFixed => r == Some(Read(Fixed(word), 4))
              case KObject => r == Some(Read(Object(word), 4))
              case KNewId => r == Some(Read(NewId(word), 4))
              case KArr =>
                && (r.Some? ==> r.value.arg.Arr?)
                && ReadsBytes(r, b, word, if r.Some? then r.value.arg.data else [], word)
              case KStr =>
                if word == 0 then r == Some(Read(Str([]), 0))
                else
                  && (r.Some? ==> r.value.arg.Str?)
                  && ReadsBytes(r, b, word, if r.Some? then r.value.arg.text else [], word - 1)
  {
    hide U32, Padded;
    PaddedWords();
  }

  ghost function ReadAll(ks: seq<Kind>, b: seq<byte>): Option<Interpreted>
    requires Receivable(ks)
  {
    if ks == [] then Some(Interpreted([], 0))
    else
      match ReadElement(ks[0], b)
      case None => None
      case Some(read) =>
        match ReadAll(ks[1..], From(b, read.advance))
        case None => None
        case Some(rest) => Some(Interpreted([read.arg] + rest.args, read.advance + rest.bytesRead))
  }

  lemma FromFits(payload: seq<byte>, bytesRead: nat)
    requires bytesRead <= |payload|
    ensures From(payload, bytesRead) == payload[bytesRead..]
  {
  }

  lemma FromFrom(payload: seq<byte>, i: nat, j: nat)
    ensures From(From(payload, i), j) == From(payload, i + j)
  {
  }

  lemma ReadAllStep(ks: seq<Kind>, b: seq<byte>, read: Read, rest: Interpreted)
    requires ks != [] && Receivable(ks) && !ks[0].KFd?
    requires ReadElement(ks[0], b) == Some(read)
    requires ReadAll(ks[1..], From(b, read.advance)) == Some(rest)
    ensures ReadAll(ks, b) == Some(Interpreted([read.arg] + rest.args, read.advance + rest.bytesRead))
  {
    hide ReadElement;
  }

  /** Offset `p` of the payload holds the argument, and `q` is the offset of the next. */
  ghost predicate ReadsOne(k: Kind, b: seq<byte>, p: nat, arg: Arg, q: nat) {
    !k.KFd? && p <= q && ReadElement(k, From(b, p)) == Some(Read(arg, q - p))
  }

  /** Argument `i` is read at `offsets[i]`, the first at `p`, and each one where the one before it ended. */
  ghost predicate ReadsInTurn(ks: seq<Kind>, b: seq<byte>, p: nat, args: seq<Arg>, offsets: seq<nat>) {
    && |args| == |ks| && |offsets| == |ks| + 1 && offsets[0] == p
    && forall i :: 0 <= i < |ks| ==> ReadsOne(ks[i], b, offsets[i], args[i], offsets[i + 1])
  }

  /** On any payload: all arguments are read, in order, each where the one before it ended. */
  lemma ReadAllIff(ks: seq<Kind>, b: seq<byte>, args: seq<Arg>, bytesRead: nat)
    requires Receivable(ks)
    ensures ReadAll(ks, b) == Some(Interpreted(args, bytesRead)) <==>
            exists offsets: seq<nat> :: ReadsInTurn(ks, b, 0, args, offsets) && offsets[|ks|] == bytesRead
  {
    hide ReadElement;
    assert From(b, 0) == b;
    if ReadAll(ks, b).Some? {
      var offsets := OffsetsOfReads(ks, b, 0);
    }
    if offsets: seq<nat> :| ReadsInTurn(ks, b, 0, args, offsets) && offsets[|ks|] == bytesRead {
      ReadsOfOffsets(ks, b, 0, args, offsets);
    }
  }

  lemma {:induction false} OffsetsOfReads(ks: seq<Kind>, b: seq<byte>, p: nat) returns (offsets: seq<nat>)
    requires Receivable(ks) && ReadAll(ks, From(b, p)).Some?
    ensures
      var all := ReadAll(ks, From(b, p)).value;
      ReadsInTurn(ks, b, p, all.args, offsets) && offsets[|ks|] == p + all.bytesRead
    decreases |ks|
  {
    hide ReadElement, From;
    if ks == [] {
      offsets := [p];
    } else {
      var first := ReadElement(ks[0], From(b, p)).value;
      FromFrom(b, p, first.advance);
      var later := OffsetsOfReads(ks[1..], b, p + first.advance);
      offsets := [p] + later;
      assert ReadsOne(ks[0], b, p, first.arg, later[0]);
      var args := ReadAll(ks[1..], From(b, p + first.advance)).value.args;
      hide ReadsOne;
      InTurnCons(ks, b, p, first.arg, args, later);
    }
  }

  lemma InTurnCons(ks: seq<Kind>, b: seq<byte>, p: nat, arg: Arg, args: seq<Arg>, later: seq<nat>)
    requires ks != [] && later != [] && ReadsOne(ks[0], b, p, arg, later[0])
    requires ReadsInTurn(ks[1..], b, later[0], args, later)
    ensures ReadsInTurn(ks, b, p, [arg] + args, [p] + later)
  {
    hide ReadsOne;
    forall i | 0 < i < |ks|
      ensures ReadsOne(ks[i], b, ([p] + later)[i], ([arg] + args)[i], ([p] + later)[i + 1])
    {
      assert ks[1..][i - 1] == ks[i];
    }
  }

  lemma InTurnUncons(ks: seq<Kind>, b: seq<byte>, p: nat, args: seq<Arg>, offsets: seq<nat>)
    requires ks != [] && ReadsInTurn(ks, b, p, args, offsets)
    ensures ReadsOne(ks[0], b, p, args[0], offsets[1])
    ensures ReadsInTurn(ks[1..], b, offsets[1], args[1..], offsets[1..])
  {
    hide ReadsOne;
    forall i | 0 <= i < |ks| - 1
      ensures ReadsOne(ks[1..][i], b, offsets[1..][i], args[1..][i], offsets[1..][i + 1])
    {
      assert ReadsOne(ks[i + 1], b, offsets[i + 1], args[i + 1], offsets[i + 2]);
    }
  }

  lemma {:induction false} ReadsOfOffsets(ks: seq<Kind>, b: seq<byte>, p: nat, args: seq<Arg>, offsets: seq<nat>)
    requires Receivable(ks) && ReadsInTurn(ks, b, p, args, offsets)
    ensures offsets[|ks|] >= p
    ensures ReadAll(ks, From(b, p)) == Some(Interpreted(args, offsets[|ks|] - p))
    decreases |ks|
  {
    hide ReadElement, From;
    if ks != [] {
      var q := offsets[1];
      InTurnUncons(ks, b, p, args, offsets);
      ReadsOfOffsets(ks[1..], b, q, args[1..], offsets[1..]);
      FromFrom(b, p, q - p);
      hide ReadsInTurn, ReadAll;
      ReadAllStep(ks, From(b, p), Read(args[0], q - p), Interpreted(args[1..], offsets[|ks|] - q));
      assert [args[0]] + args[1..] == args;
    }
  }

  /** `interpert_message_payload`; the caller guarantees that no read leaves the payload. */
  method InterpretPayload(ks: seq<Kind>, payload: seq<byte>) returns (args: seq<Arg>, bytesRead: nat)
    requires Receivable(ks)
    requires ReadAll(ks, payload).Some?
    ensures ReadAll(ks, payload) == Some(Interpreted(args, bytesRead))
  {
    hide ReadElement, From;
    args, bytesRead := [], 0;
    FromFits(payload, 0);
    assert ks[0..] == ks && payload[0..] == payload;
    assert [] + ReadAll(ks, payload).value.args == ReadAll(ks, payload).value.args;
    for i := 0 to |ks|
      invariant ReadAll(ks[i..], From(payload, bytesRead)).Some?
      invariant
        var rest := ReadAll(ks[i..], From(payload, bytesRead)).value;
        ReadAll(ks, payload) == Some(Interpreted(args + rest.args, bytesRead + rest.bytesRead))
    {
      assert ks[i] in ks && ks[i..][1..] == ks[i + 1..];
      var read := ReadElement(ks[i], From(payload, bytesRead));
      var advance := read.value.advance;
      FromFrom(payload, bytesRead, advance);
      ghost var rest := ReadAll(ks[i + 1..], From(payload, bytesRead + advance)).value;
      Associative(args, [read.value.arg], rest.args);
      args, bytesRead := args + [read.value.arg], bytesRead + advance;
    }
    assert args + [] == args;
  }

  // ---------- What `append` wrote is read back ----------

  ghost predicate FdFree(args: seq<Arg>) {
    forall a <- args :: !a.Fd?
  }

  lemma FdFreeReceivable(args: seq<Arg>)
    requires FdFree(args)
    ensures Receivable(Kinds(args))
  {
    forall k | k in Kinds(args)
      ensures !k.KFd?
    {
      var i :| 0 <= i < |args| && Kinds(args)[i] == k;
      assert args[i] in args;
    }
  }

  lemma FdFreeSlice(args: seq<Arg>, i: nat, j: nat)
    requires FdFree(args) && i <= j <= |args|
    ensures FdFree(args[i..j])
  {
    forall a | a in args[i..j]
      ensures !a.Fd?
    {
      assert a in args;
    }
  }

  lemma ReadString(text: seq<byte>, b: seq<byte>)
    requires ElementSize(Str(text)) <= |b| && |text| + 1 < 0x1_0000_0000
    requires b[..4] == LE32(|text| + 1) && b[4..4 + |text|] == text
    ensures ReadElement(KStr, b) == Some(Read(Str(text), ElementSize(Str(text))))
  {
  }

  lemma ReadArray(data: seq<byte>, b: seq<byte>)
    requires ElementSize(Arr(data)) <= |b| && |data| < 0x1_0000_0000
    requires b[..4] == LE32(|data|) && b[4..4 + |data|] == data
    ensures ReadElement(KArr, b) == Some(Read(Arr(data), ElementSize(Arr(data))))
  {
  }

  lemma ReadStatic(a: Arg, b: seq<byte>)
    requires a.Kind().Static() && ElementSize(a) <= |b|
    requires b[..4] == LE32(Image(a))
    ensures ReadElement(a.Kind(), b) == Some(Read(a, ElementSize(a)))
  {
    ImageInverts(a);
  }

  lemma PrefixSlices(b: seq<byte>, n: nat, i: nat, j: nat)
    requires i <= j <= n <= |b|
    ensures b[..n][i..j] == b[i..j]
    ensures b[..n][..j] == b[..j]
  {
  }

  /** An encoded argument at the front is read back, whatever its padding holds. */
  lemma ReadEncoded(a: Arg, b: seq<byte>)
    requires !a.Fd? && ElementSize(a) <= |b|
    requires ElementSize(a) < 0x1_0000_0000
    requires Encodes(a, b[..ElementSize(a)])
    ensures ReadElement(a.Kind(), b) == Some(Read(a, ElementSize(a)))
  {
    hide ReadElement, U32, LE32, Padded;
    var n := ElementSize(a);
    PrefixSlices(b, n, 0, 4);
    if a.Str? {
      PrefixSlices(b, n, 4, 4 + |a.text|);
      ReadString(a.text, b);
    } else if a.Arr? {
      PrefixSlices(b, n, 4, 4 + |a.data|);
      ReadArray(a.data, b);
    } else {
      ReadStatic(a, b);
    }
  }

  /** The first of several encoded arguments. */
  lemma ReadFirst(args: seq<Arg>, b: seq<byte>, size: nat)
    requires args != [] && FdFree(args)
    requires size <= |b| && size < 0x1_0000_0000
    requires EncodesAll(args, b[..size])
    ensures !args[0].Fd? && ElementSize(args[0]) <= size
    ensures ReadElement(args[0].Kind(), b) == Some(Read(args[0], ElementSize(args[0])))
    ensures EncodesAll(args[1..], b[ElementSize(args[0])..][..size - ElementSize(args[0])])
  {
    hide ReadElement, Encodes, ElementSize;
    var n := ElementSize(args[0]);
    assert args[0] in args;
    ChunkedUncons(args, b[..size], ElementSize, Encodes);
    PrefixSlices(b, size, 0, n);
    assert b[..size][n..] == b[n..][..size - n];
    ReadEncoded(args[0], b);
  }

  /** The encodings of `args` in front of anything are read back exactly, up to where they end. */
  lemma {:induction false} ReadAllEncoded(args: seq<Arg>, b: seq<byte>, size: nat)
    requires FdFree(args)
    requires size <= |b| && size < 0x1_0000_0000
    requires EncodesAll(args, b[..size])
    ensures Receivable(Kinds(args))
    ensures ReadAll(Kinds(args), b) == Some(Interpreted(args, size))
    decreases |args|
  {
    hide ReadElement, ElementSize, Encodes, From, FdFree, Receivable;
    FdFreeReceivable(args);
    if args != [] {
      var n := ElementSize(args[0]);
      ReadFirst(args, b, size);
      FdFreeSlice(args, 1, |args|);
      assert args[1..|args|] == args[1..];
      ReadAllEncoded(args[1..], b[n..], size - n);
      assert Kinds(args)[1..] == Kinds(args[1..]);
      FromFits(b, n);
      ReadAllStep(Kinds(args), b, Read(args[0], n), Interpreted(args[1..], size - n));
      assert [args[0]] + args[1..] == args;
    }
  }

  /** The interpreter inverts `append` on payloads, and stops exactly at the end. */
  lemma InterpretEncoded(args: seq<Arg>, payload: seq<byte>)
    requires FdFree(args)
    requires EncodesAll(args, payload) && |payload| < 0x1_0000_0000
    ensures Receivable(Kinds(args))
    ensures ReadAll(Kinds(args), payload) == Some(Interpreted(args, |payload|))
  {
    assert payload[..|payload|] == payload;
    ReadAllEncoded(args, payload, |payload|);
  }

  /**
   Before each argument of a payload `append` wrote, the reads so far gave the
   arguments so far, and the offset is the sum of their sizes: a multiple of four
   that never passes the end of the payload.
   */
  lemma OffsetsAligned(args: seq<Arg>, payload: seq<byte>, i: nat)
    requires FdFree(args) && i <= |args|
    requires EncodesAll(args, payload) && |payload| < 0x1_0000_0000
    ensures Receivable(Kinds(args[..i]))
    ensures ReadAll(Kinds(args[..i]), payload) == Some(Interpreted(args[..i], ArgsSize(args[..i])))
    ensures ArgsSize(args[..i]) % 4 == 0 && ArgsSize(args[..i]) <= |payload|
  {
    ChunkedSplit(args, payload, i, ElementSize, Encodes);
    FdFreeSlice(args, 0, i);
    assert args[0..i] == args[..i];
    ReadAllEncoded(args[..i], payload, ArgsSize(args[..i]));
  }

  /** Padding bytes never reach the result: any two encodings of the same arguments read alike. */
  lemma PaddingIrrelevant(args: seq<Arg>, p: seq<byte>, q: seq<byte>)
    requires FdFree(args) && EncodesAll(args, p) && EncodesAll(args, q)
    requires |p| < 0x1_0000_0000
    ensures Receivable(Kinds(args))
    ensures ReadAll(Kinds(args), p) == ReadAll(Kinds(args), q)
  {
    ChunkedSize(args, p, ElementSize, Encodes);
    ChunkedSize(args, q, ElementSize, Encodes);
    InterpretEncoded(args, p);
    InterpretEncoded(args, q);
  }
}
