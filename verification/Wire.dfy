/**
 The wire format: message arguments, their padded encodings, and the eight byte
 message header.

 The printer leaves its padding bytes unspecified, so an encoding is a relation
 between a message and the bytes written for it, not a function.
 */
module Wire {
  import opened Arithmetic
  import opened Bytes
  import opened Chunks

  /** `sizeof(message_header<generic_object>)` */
  const HEADER_SIZE := 8
  /** `sizeof(Wstring::size_type)` and `sizeof(Warray::size_type)` */
  const LENGTH_SIZE := 4
  /** The largest size the 16-bit size field of a header can declare. */
  const MAX_MESSAGE_SIZE := 0xFFFF

  // ---------- Padding ----------

  function RoundUpPad(n: nat, x: nat): (dx: nat)
    requires n > 0
  {
    (n - x % n) % n
  }

  /** `x + dx` is a multiple of `N` and `dx < N`, for every modulus. */
  lemma RoundUpPadReaches(n: nat, x: nat)
    requires n > 0
    ensures RoundUpPad(n, x) < n
    ensures (x + RoundUpPad(n, x)) % n == 0
  {
    var q, r := x / n, x % n;
    assert x == n * q + r;
    if r == 0 {
      RemainderIsUnique(n, 1, 0);
    } else {
      RemainderIsUnique(n, 0, n - r);
      assert x + (n - r) == n * (q + 1);
      RemainderIsUnique(n, q + 1, 0);
    }
  }

  /** No smaller padding reaches a multiple. */
  lemma RoundUpPadIsLeast(n: nat, x: nat, d: nat)
    requires n > 0 && d < RoundUpPad(n, x)
    ensures (x + d) % n != 0
  {
    var q, r := x / n, x % n;
    assert x == n * q + r;
    if r == 0 {
      RemainderIsUnique(n, 1, 0);
    } else {
      RemainderIsUnique(n, 0, n - r);
      RemainderIsUnique(n, q, r + d);
    }
  }

  /** `x` rounded up to whole 32-bit words. */
  function Padded(x: nat): (p: nat)
    ensures x <= p < x + 4 && p % 4 == 0
  {
    x + RoundUpPad(4, x)
  }

  lemma PaddedWords()
    ensures Padded(4) == 4 && Padded(5) == 8
  {
    hide Padded;
    PaddedIs(4, 4);
    PaddedIs(5, 8);
  }

  /** What `Padded` returns is determined by its contract. */
  lemma PaddedIs(x: nat, p: nat)
    requires x <= p < x + 4 && p % 4 == 0
    ensures Padded(x) == p
  {
    hide Padded;
  }

  // ---------- Arguments ----------

  /**
   A typed message argument. Enumeration arguments have the representation of
   `Int` or `Uint`; `Fixed` is an opaque 32-bit word.
   */
  datatype Arg =
    | Int(i: i32)
    | Uint(u: u32)
    | Fixed(word: u32)
    | Object(id: u32)
    | NewId(newId: u32)
    | Str(text: seq<byte>)
    | Arr(data: seq<byte>)
    | Fd(fd: int)
  {
    function Kind(): Kind {
      match this
      case Int(_) => KInt
      case Uint(_) => KUint
      case Fixed(_) => KFixed
      case Object(_) => KObject
      case NewId(_) => KNewId
      case Str(_) => KStr
      case Arr(_) => KArr
      case Fd(_) => KFd
    }
  }

  datatype Kind = KInt | KUint | KFixed | KObject | KNewId | KStr | KArr | KFd {
    /** `static_message_argument`: the encoded size does not depend on the value. */
    predicate Static() { !KStr? && !KArr? && !KFd? }

    /** `sizeof` of the C++ type of a static argument. */
    function SizeOf(): nat
      requires Static()
    {
      match this
      case KInt => 4
      case KUint => 4
      case KFixed => 4
      case KObject => 4
      case KNewId => 4
    }
  }

  function Kinds(args: seq<Arg>): (ks: seq<Kind>)
    ensures |ks| == |args|
    ensures forall i :: 0 <= i < |args| ==> ks[i] == args[i].Kind()
  {
    seq(|args|, i requires 0 <= i < |args| => args[i].Kind())
  }

  /** The 32-bit word a static argument is stored as; negative integers in two's complement. */
  function Image(a: Arg): u32
    requires a.Kind().Static()
  {
    match a
    case Int(i) => if i < 0 then i + 0x1_0000_0000 else i
    case Uint(u) => u
    case Fixed(w) => w
    case Object(id) => id
    case NewId(id) => id
  }

  /** The static argument of kind `k` stored as `w`. */
  function FromImage(k: Kind, w: u32): (a: Arg)
    requires k.Static()
    ensures a.Kind() == k && Image(a) == w
  {
    match k
    case KInt => Int(if w < 0x8000_0000 then w else w - 0x1_0000_0000)
    case KUint => Uint(w)
    case KFixed => Fixed(w)
    case KObject => Object(w)
    case KNewId => NewId(w)
  }

  /** Two's complement for negative integers; every other static argument is its own word. */
  lemma ImageIs(a: Arg)
    requires a.Kind().Static()
    ensures a.Int? ==> Image(a) == a.i % 0x1_0000_0000
    ensures a.Uint? ==> Image(a) == a.u
    ensures a.Fixed? ==> Image(a) == a.word
    ensures a.Object? ==> Image(a) == a.id
    ensures a.NewId? ==> Image(a) == a.newId
  {
  }

  lemma ImageInverts(a: Arg)
    requires a.Kind().Static()
    ensures FromImage(a.Kind(), Image(a)) == a
  {
  }

  /** Bytes an argument occupies in a message, padding included. Descriptors travel beside the bytes. */
  function ElementSize(a: Arg): (n: nat)
    ensures n % 4 == 0
  {
    match a
    case Str(text) => Padded(LENGTH_SIZE + |text| + 1)
    case Arr(data) => Padded(LENGTH_SIZE + |data|)
    case Fd(_) => 0
    case _ => Padded(a.Kind().SizeOf())
  }

  /** `bs` is an encoding of `a`: everything but the padding bytes is determined. */
  ghost predicate Encodes(a: Arg, bs: seq<byte>) {
    && |bs| == ElementSize(a)
    && match a
       case Str(text) =>
         && bs[..4] == LE32(Narrow32(|text| + 1))
         && bs[4..4 + |text|] == text
         && bs[4 + |text|] == 0
       case Arr(data) =>
         && bs[..4] == LE32(Narrow32(|data|))
         && bs[4..4 + |data|] == data
       case Fd(_) => true
       case _ => bs[..4] == LE32(Image(a))
  }

  lemma EncodingSize(a: Arg, bs: seq<byte>)
    requires Encodes(a, bs)
    ensures |bs| == ElementSize(a)
  {
  }

  function ArgsSize(args: seq<Arg>): (n: nat)
    ensures n % 4 == 0
  {
    ArgsSizeAligned(args);
    SizeSum(args, ElementSize)
  }

  lemma {:induction false} ArgsSizeAligned(args: seq<Arg>)
    ensures SizeSum(args, ElementSize) % 4 == 0
  {
    if args != [] {
      ArgsSizeAligned(args[1..]);
      SumAligned(ElementSize(args[0]), SizeSum(args[1..], ElementSize));
    }
  }

  /** `bs` is the encodings of `args` one after the other. */
  ghost predicate EncodesAll(args: seq<Arg>, bs: seq<byte>) {
    Chunked(args, bs, ElementSize, Encodes)
  }

  /** The descriptors among the arguments, in order. */
  function Fds(args: seq<Arg>): seq<int> {
    FlatMap(args, FdsOfArg)
  }

  function FdsOfArg(a: Arg): seq<int> {
    if a.Fd? then [a.fd] else []
  }

  /** The positions of the descriptors among the first `n` arguments. */
  function FdPositions(args: seq<Arg>, n: nat): set<nat>
    requires n <= |args|
  {
    set i: nat | i < n && args[i].Fd?
  }

  lemma NextFds(args: seq<Arg>, n: nat)
    requires n <= |args|
    ensures Fds(args[..n]) <= Fds(args)
    ensures n < |args| && args[n].Fd? ==>
              |Fds(args[..n])| < |Fds(args)| && Fds(args)[|Fds(args[..n])|] == args[n].fd
  {
    FlatMapConcat(args[..n], args[n..], FdsOfArg);
    assert args[..n] + args[n..] == args;
    if n < |args| && args[n].Fd? {
      assert Fds(args[n..]) == [args[n].fd] + Fds(args[n..][1..]);
    }
  }

  /** As many descriptors as arguments that are one, each at the number of those before it. */
  lemma {:induction false} FdsByPosition(args: seq<Arg>, n: nat)
    requires n <= |args|
    ensures |Fds(args[..n])| == |set i: nat | i < n && args[i].Fd?|
    ensures Fds(args[..n]) <= Fds(args)
    ensures n < |args| && args[n].Fd? ==>
              var k := |set i: nat | i < n && args[i].Fd?|;
              k < |Fds(args)| && Fds(args)[k] == args[n].fd
  {
    if n > 0 {
      FdsByPosition(args, n - 1);
      assert args[..n] == args[..n - 1] + [args[n - 1]];
      FlatMapSnoc(args[..n - 1], args[n - 1], FdsOfArg);
      var before, upTo := FdPositions(args, n - 1), FdPositions(args, n);
      assert upTo == if args[n - 1].Fd? then before + {n - 1} else before;
    } else {
      assert FdPositions(args, 0) == {};
    }
    NextFds(args, n);
  }

  /** `message_payload_size`: the compile-time sum of argument sizes of a static message type. */
  function PayloadSize(ks: seq<Kind>): nat
    requires forall k <- ks :: k.Static()
  {
    if ks == [] then 0 else ks[0].SizeOf() + PayloadSize(ks[1..])
  }

  /** The compile-time fold, which knows nothing of padding, agrees with the bytes written. */
  lemma {:induction false} PayloadSizeIsEncodedSize(args: seq<Arg>, bs: seq<byte>)
    requires forall a <- args :: a.Kind().Static()
    requires EncodesAll(args, bs)
    ensures forall k <- Kinds(args) :: k.Static()
    ensures |bs| == PayloadSize(Kinds(args))
  {
    forall k | k in Kinds(args)
      ensures k.Static()
    {
      var i :| 0 <= i < |args| && Kinds(args)[i] == k;
      assert args[i] in args;
    }
    if args != [] {
      assert args[0] in args;
      var rest := bs[ElementSize(args[0])..];
      PayloadSizeIsEncodedSize(args[1..], rest);
      assert Kinds(args)[1..] == Kinds(args[1..]);
    }
  }

  // ---------- Messages ----------

  /** A typed message on its way to `objectId`. */
  datatype Message = Message(objectId: u32, opcode: u16, args: seq<Arg>) {
    function Size(): (n: nat)
      ensures n >= HEADER_SIZE && n % 4 == 0
    {
      HEADER_SIZE + ArgsSize(args)
    }

    predicate Fits() { Size() <= MAX_MESSAGE_SIZE }
  }

  /** The memory image of a `message_header` on a little-endian machine. */
  function HeaderBytes(objectId: u32, opcode: u16, size: u16): (bs: seq<byte>)
    ensures |bs| == HEADER_SIZE
  {
    LE32(objectId) + LE16(opcode) + LE16(size)
  }

  lemma HeaderFields(objectId: u32, opcode: u16, size: u16)
    ensures U32(HeaderBytes(objectId, opcode, size)[0..4]) == objectId
    ensures U16(HeaderBytes(objectId, opcode, size)[4..6]) == opcode
    ensures U16(HeaderBytes(objectId, opcode, size)[6..8]) == size
  {
    var bs := HeaderBytes(objectId, opcode, size);
    assert bs[0..4] == LE32(objectId);
    assert bs[4..6] == LE16(opcode);
    assert bs[6..8] == LE16(size);
  }

  ghost predicate IsFrame(m: Message, bs: seq<byte>) {
    && |bs| == m.Size()
    && bs[..HEADER_SIZE] == HeaderBytes(m.objectId, m.opcode, Narrow16(m.Size()))
    && EncodesAll(m.args, bs[HEADER_SIZE..])
  }

  /** The header in a frame; a size above 16 bits wraps around. */
  lemma HeaderOfFrame(m: Message, bs: seq<byte>)
    requires IsFrame(m, bs)
    ensures |bs| >= HEADER_SIZE
    ensures U32(bs[0..4]) == m.objectId && U16(bs[4..6]) == m.opcode
    ensures U16(bs[6..8]) == |bs| % 0x1_0000
  {
    HeaderFields(m.objectId, m.opcode, Narrow16(m.Size()));
    var header := bs[..HEADER_SIZE];
    assert header[0..4] == bs[0..4] && header[4..6] == bs[4..6] && header[6..8] == bs[6..8];
  }

  /** The text of a string, its length with the delimiter in front, and the delimiter behind it. */
  ghost predicate TextAt(text: seq<byte>, bs: seq<byte>, at: nat) {
    && at + 4 + |text| + 1 <= |bs|
    && U32(bs[at..at + 4]) == (|text| + 1) % 0x1_0000_0000
    && bs[at + 4..at + 4 + |text|] == text
    && bs[at + 4 + |text|] == 0
  }

  ghost predicate DataAt(data: seq<byte>, bs: seq<byte>, at: nat) {
    && at + 4 + |data| <= |bs|
    && U32(bs[at..at + 4]) == |data| % 0x1_0000_0000
    && bs[at + 4..at + 4 + |data|] == data
  }

  ghost predicate WordAt(w: int, bs: seq<byte>, at: nat) {
    at + 4 <= |bs| && U32(bs[at..at + 4]) == w % 0x1_0000_0000
  }

  /** `bs` holds the argument at `at`; nothing for a descriptor. */
  ghost predicate ArgumentAt(a: Arg, bs: seq<byte>, at: nat) {
    match a
    case Str(text) => TextAt(text, bs, at)
    case Arr(data) => DataAt(data, bs, at)
    case Int(i) => WordAt(i, bs, at)
    case Uint(u) => WordAt(u, bs, at)
    case Fixed(word) => WordAt(word, bs, at)
    case Object(id) => WordAt(id, bs, at)
    case NewId(id) => WordAt(id, bs, at)
    case Fd(_) => true
  }

  /** The bytes an argument takes: whole words, and no more of them than it needs. */
  predicate Takes(a: Arg, size: int) {
    && size % 4 == 0
    && match a
       case Str(text) => 0 <= size - (4 + |text| + 1) < 4
       case Arr(data) => 0 <= size - (4 + |data|) < 4
       case Fd(_) => size == 0
       case _ => size == 4
  }

  /** The bytes of one encoded argument. */
  lemma EncodingIs(a: Arg, bs: seq<byte>)
    requires Encodes(a, bs)
    ensures Takes(a, |bs|) && ArgumentAt(a, bs, 0)
  {
    hide U32, LE32, Padded, Image;
    PaddedWords();
    assert |bs| >= 4 ==> bs[0..4] == bs[..4];
    if a.Kind().Static() {
      ImageIs(a);
      SmallImage(a);
    }
  }

  lemma SmallImage(a: Arg)
    requires a.Kind().Static()
    ensures Image(a) % 0x1_0000_0000 == Image(a)
    ensures a.Int? ==> a.i % 0x1_0000_0000 % 0x1_0000_0000 == a.i % 0x1_0000_0000
  {
  }

  /** Where argument `i` begins in the frame of a message. */
  function OffsetOf(m: Message, i: nat): nat
    requires i <= |m.args|
  {
    HEADER_SIZE + ArgsSize(m.args[..i])
  }

  /**
   Every argument of a frame, byte for byte at its offset. The offsets begin behind
   the header and advance by whole words, by as little as the argument needs.
   */
  lemma ArgumentInFrame(m: Message, bs: seq<byte>, i: nat)
    requires IsFrame(m, bs) && i < |m.args|
    ensures OffsetOf(m, 0) == 8 && OffsetOf(m, |m.args|) == |bs|
    ensures ArgumentAt(m.args[i], bs, OffsetOf(m, i))
    ensures Takes(m.args[i], OffsetOf(m, i + 1) - OffsetOf(m, i))
  {
    hide Encodes, ElementSize, ArgumentAt, Takes, Chunked;
    var a, body, at := m.args[i], bs[HEADER_SIZE..], ArgsSize(m.args[..i]);
    ChunkedSplit(m.args, body, i, ElementSize, Encodes);
    ChunkedUncons(m.args[i..], body[at..], ElementSize, Encodes);
    var e := body[at..][..ElementSize(a)];
    EncodingIs(a, e);
    EncodingSize(a, e);
    assert m.args[..i + 1] == m.args[..i] + [a];
    SizeSumSnoc(m.args[..i], a, ElementSize);
    assert m.args[..|m.args|] == m.args && m.args[..0] == [];
    hide SizeSum;
    PartOfPart(bs, HEADER_SIZE, at, |e|);
    Moved(a, e, bs, HEADER_SIZE + at);
  }

  lemma PartOfPart(bs: seq<byte>, i: nat, j: nat, n: nat)
    requires i + j + n <= |bs|
    ensures bs[i..][j..][..n] == bs[i + j..i + j + n]
  {
  }

  /** What is at the beginning of a part of `bs` is in `bs` at the place of the part. */
  lemma Moved(a: Arg, e: seq<byte>, bs: seq<byte>, at: nat)
    requires at + |e| <= |bs| && bs[at..at + |e|] == e && ArgumentAt(a, e, 0)
    ensures ArgumentAt(a, bs, at)
  {
    hide U32;
    if !a.Fd? {
      SamePart(e, bs, at, 0, 4);
    }
    match a {
      case Str(text) => SamePart(e, bs, at, 4, |text|);
      case Arr(data) => SamePart(e, bs, at, 4, |data|);
      case _ =>
    }
  }

  lemma SamePart(e: seq<byte>, bs: seq<byte>, at: nat, i: nat, n: nat)
    requires at + |e| <= |bs| && bs[at..at + |e|] == e && i + n <= |e|
    ensures bs[at + i..at + i + n] == e[i..i + n]
    ensures i + n < |e| ==> bs[at + i + n] == e[i + n]
  {
    assert forall k :: 0 <= k < |e| ==> e[k] == bs[at + k];
  }

  function MessageSize(m: Message): nat { m.Size() }

  /** `bs` is a concatenation of frames of `ms`, in order. */
  ghost predicate EncodesMessages(ms: seq<Message>, bs: seq<byte>) {
    Chunked(ms, bs, MessageSize, IsFrame)
  }

  /** Bytes taken by the frames of `ms`. */
  function TotalSize(ms: seq<Message>): nat {
    SizeSum(ms, MessageSize)
  }

  function FdsOf(m: Message): seq<int> { Fds(m.args) }

  /** The descriptors of all messages, in order. */
  function AllFds(ms: seq<Message>): seq<int> {
    FlatMap(ms, FdsOf)
  }

  /** The number of arguments that are descriptors. */
  function FdArguments(m: Message): nat {
    |set i: nat | i < |m.args| && m.args[i].Fd?|
  }

  /** The place of argument `i` of message `j` among all arguments that are descriptors. */
  function FdPlace(ms: seq<Message>, j: nat, i: nat): nat
    requires j < |ms| && i < |ms[j].args|
  {
    SizeSum(ms[..j], FdArguments) + |set h: nat | h < i && ms[j].args[h].Fd?|
  }

  lemma {:induction false} AllFdsCounted(ms: seq<Message>)
    ensures |AllFds(ms)| == SizeSum(ms, FdArguments)
  {
    if ms != [] {
      var args := ms[0].args;
      FdsByPosition(args, |args|);
      assert args[..|args|] == args;
      AllFdsCounted(ms[1..]);
    }
  }

  /** Every descriptor argument is queued, at its place, and nothing else is. */
  lemma DescriptorQueued(ms: seq<Message>, j: nat, i: nat)
    requires j < |ms| && i < |ms[j].args| && ms[j].args[i].Fd?
    ensures |AllFds(ms)| == SizeSum(ms, FdArguments)
    ensures FdPlace(ms, j, i) < |AllFds(ms)| && AllFds(ms)[FdPlace(ms, j, i)] == ms[j].args[i].fd
  {
    hide FdArguments, SizeSum;
    AllFdsCounted(ms);
    AllFdsCounted(ms[..j]);
    FdsByPosition(ms[j].args, i);
    assert ms == ms[..j] + ([ms[j]] + ms[j + 1..]);
    FlatMapConcat(ms[..j], [ms[j]] + ms[j + 1..], FdsOf);
    FlatMapConcat([ms[j]], ms[j + 1..], FdsOf);
    FlatMapSingle(ms[j], FdsOf);
  }
}
