/**
 `parsed_message_generator`: cuts a byte string into messages, one at a time,
 and throws where the bytes do not continue with a whole message.
 */
module MessageParsers {
  import opened Bytes
  import opened Chunks
  import opened Wire
  import opened Wrappers

  /** A message of which only the header has been understood. */
  datatype ParsedMessage = ParsedMessage(objectId: u32, opcode: u16, arguments: seq<byte>) {
    function Size(): nat { HEADER_SIZE + |arguments| }

    /** The size field of a header can declare this message. */
    predicate Fits() { Size() <= MAX_MESSAGE_SIZE }
  }

  datatype ParseError = HeaderIncomplete | SizeBelowHeader | SizeBeyondBuffer

  ghost predicate AllFit(ms: seq<ParsedMessage>) {
    forall m <- ms :: m.Fits()
  }

  function FrameBytes(m: ParsedMessage): (bs: seq<byte>)
    ensures |bs| == m.Size()
  {
    HeaderBytes(m.objectId, m.opcode, Narrow16(m.Size())) + m.arguments
  }

  /** The bytes a list of messages stands for. */
  function Unparse(ms: seq<ParsedMessage>): seq<byte> {
    FlatMap(ms, FrameBytes)
  }

  /** The size field of the header at the beginning of `b`. */
  function DeclaredSize(b: seq<byte>): u16
    requires |b| >= HEADER_SIZE
  {
    U16(b[6..8])
  }

  /** `parse_NUM`, applied to the bytes from `NUM_begin` on. */
  function ParseHead(b: seq<byte>): (r: Result<ParsedMessage, ParseError>)
    ensures r.Success? ==> r.value.Fits() && r.value.Size() <= |b|
  {
    if |b| < HEADER_SIZE then Failure(HeaderIncomplete)
    else
      var size := DeclaredSize(b);
      if size < HEADER_SIZE then Failure(SizeBelowHeader)
      else if size > |b| then Failure(SizeBeyondBuffer)
      else Success(ParsedMessage(U32(b[0..4]), U16(b[4..6]), b[HEADER_SIZE..size]))
  }

  /** What a consumer that drains the generator sees: the messages, then the exception if any. */
  datatype Parsed = Parsed(messages: seq<ParsedMessage>, error: Option<ParseError>)

  function ParseAll(b: seq<byte>): Parsed {
    if b == [] then Parsed([], None)
    else
      match ParseHead(b)
      case Failure(e) => Parsed([], Some(e))
      case Success(m) =>
        var rest := ParseAll(b[m.Size()..]);
        Parsed([m] + rest.messages, rest.error)
  }

  // ---------- One message ----------

  lemma FieldsOfConcat(header: seq<byte>, rest: seq<byte>)
    requires |header| == HEADER_SIZE
    ensures (header + rest)[0..4] == header[0..4]
    ensures (header + rest)[4..6] == header[4..6]
    ensures (header + rest)[6..8] == header[6..8]
  {
  }

  lemma ParseHeadOfFrame(m: ParsedMessage, rest: seq<byte>)
    requires m.Fits()
    ensures ParseHead(FrameBytes(m) + rest) == Success(m)
  {
    var header := HeaderBytes(m.objectId, m.opcode, Narrow16(m.Size()));
    var b := FrameBytes(m) + rest;
    HeaderFields(m.objectId, m.opcode, Narrow16(m.Size()));
    assert b == header + (m.arguments + rest);
    FieldsOfConcat(header, m.arguments + rest);
    assert b[HEADER_SIZE..m.Size()] == m.arguments;
  }

  lemma HeaderOfFields(b: seq<byte>)
    requires |b| >= HEADER_SIZE
    ensures HeaderBytes(U32(b[0..4]), U16(b[4..6]), U16(b[6..8])) == b[..HEADER_SIZE]
  {
    LE32OfU32(b[0..4]);
    LE16OfU16(b[4..6]);
    LE16OfU16(b[6..8]);
    assert b[..8] == b[0..4] + b[4..6] + b[6..8];
  }

  lemma FrameOfParseHead(b: seq<byte>)
    requires ParseHead(b).Success?
    ensures FrameBytes(ParseHead(b).value) + b[ParseHead(b).value.Size()..] == b
  {
    hide U16, U32, HeaderBytes;
    var m := ParseHead(b).value;
    HeaderOfFields(b);
    assert m.Size() == DeclaredSize(b);
    assert b == b[..HEADER_SIZE] + b[HEADER_SIZE..m.Size()] + b[m.Size()..];
  }

  /** Which of the three errors it is, and which header makes a message. */
  lemma ParseHeadIs(b: seq<byte>)
    ensures ParseHead(b) == Failure(HeaderIncomplete) <==> |b| < 8
    ensures |b| >= 8 ==>
              var size := b[6] as int + 0x100 * b[7] as int;
              && (ParseHead(b) == Failure(SizeBelowHeader) <==> size < 8)
              && (ParseHead(b) == Failure(SizeBeyondBuffer) <==> size > |b| && size >= 8)
              && (ParseHead(b).Success? <==> 8 <= size <= |b|)
  {
    hide U32, U16, FromLE;
    if |b| >= 8 {
      LittleEndian(b[6..8]);
    }
  }

  /** A frame cut short: in its header, or behind it. */
  lemma CutFrame(m: ParsedMessage, n: nat)
    requires m.Fits() && n < m.Size()
    ensures ParseHead(FrameBytes(m)[..n]) == Failure(if n < 8 then HeaderIncomplete else SizeBeyondBuffer)
  {
    var b := FrameBytes(m);
    HeaderFields(m.objectId, m.opcode, Narrow16(m.Size()));
    assert n >= 8 ==> b[..n][6..8] == HeaderBytes(m.objectId, m.opcode, Narrow16(m.Size()))[6..8];
  }

  // ---------- Any number of messages ----------

  lemma UnparseCons(m: ParsedMessage, ms: seq<ParsedMessage>)
    ensures Unparse([m] + ms) == FrameBytes(m) + Unparse(ms)
  {
    FlatMapConcat([m], ms, FrameBytes);
    FlatMapSingle(m, FrameBytes);
  }

  lemma UnparseUncons(ms: seq<ParsedMessage>)
    requires ms != []
    ensures Unparse(ms) == FrameBytes(ms[0]) + Unparse(ms[1..])
  {
  }

  lemma ParseAllStep(m: ParsedMessage, rest: seq<byte>)
    requires m.Fits()
    ensures ParseAll(FrameBytes(m) + rest) == Parsed([m] + ParseAll(rest).messages, ParseAll(rest).error)
  {
    ParseHeadOfFrame(m, rest);
    assert (FrameBytes(m) + rest)[m.Size()..] == rest;
  }

  /** Whole messages in front are always recovered exactly, whatever follows them. */
  lemma {:induction false} ParseAllOfFrames(ms: seq<ParsedMessage>, rest: seq<byte>)
    requires AllFit(ms)
    ensures ParseAll(Unparse(ms) + rest) == Parsed(ms + ParseAll(rest).messages, ParseAll(rest).error)
  {
    if ms == [] {
      assert Unparse(ms) + rest == rest;
      assert ms + ParseAll(rest).messages == ParseAll(rest).messages;
    } else {
      var tail := Unparse(ms[1..]) + rest;
      ParseAllOfFrames(ms[1..], rest);
      UnparseUncons(ms);
      Associative(FrameBytes(ms[0]), Unparse(ms[1..]), rest);
      ParseAllStep(ms[0], tail);
      Associative([ms[0]], ms[1..], ParseAll(rest).messages);
      assert [ms[0]] + ms[1..] == ms;
    }
  }

  /** Parsing is a left inverse of writing frames. */
  lemma ParseUnparse(ms: seq<ParsedMessage>)
    requires AllFit(ms)
    ensures ParseAll(Unparse(ms)) == Parsed(ms, None)
  {
    ParseAllOfFrames(ms, []);
    assert Unparse(ms) + [] == Unparse(ms) && ms + [] == ms;
  }

  /**
   On arbitrary bytes the yielded messages are a prefix of the input, and the
   generator throws exactly when something is left behind them; the exception is
   the one of the first message that could not be read.
   */
  lemma {:induction false} ParseAllIsPrefix(b: seq<byte>) returns (rest: seq<byte>)
    ensures AllFit(ParseAll(b).messages)
    ensures Unparse(ParseAll(b).messages) + rest == b
    ensures ParseAll(b).error.None? <==> rest == []
    ensures rest != [] ==> ParseHead(rest) == Failure(ParseAll(b).error.value)
    decreases |b|
  {
    if b == [] {
      rest := [];
    } else if ParseHead(b).Failure? {
      rest := b;
      assert [] + rest == b;
    } else {
      var m := ParseHead(b).value;
      var tail := b[m.Size()..];
      rest := ParseAllIsPrefix(tail);
      FrameOfParseHead(b);
      var ms := ParseAll(tail).messages;
      UnparseCons(m, ms);
      Associative(FrameBytes(m), Unparse(ms), rest);
    }
  }

  /** No other reading of the input as whole messages goes further or differs on the way. */
  lemma ParseAllIsLongest(b: seq<byte>, ms: seq<ParsedMessage>, rest: seq<byte>)
    requires AllFit(ms) && Unparse(ms) + rest == b
    ensures ms <= ParseAll(b).messages
  {
    ParseAllOfFrames(ms, rest);
  }

  /** A byte string is the frames of at most one list of messages. */
  lemma UnparseInjective(ms: seq<ParsedMessage>, ns: seq<ParsedMessage>)
    requires AllFit(ms) && AllFit(ns)
    ensures Unparse(ms) == Unparse(ns) <==> ms == ns
  {
    ParseUnparse(ms);
    ParseUnparse(ns);
  }

  // ---------- The coroutine ----------

  datatype Resumption = Yield(message: ParsedMessage) | Done | Throw(error: ParseError)

  class ParsedMessageGenerator {
    const buff: seq<byte>
    /** `NUM_begin`, and the size of the message handed out at the last suspension. */
    var numBegin: nat
    var yielded: nat

    ghost predicate Valid()
      reads this
    {
      numBegin + yielded <= |buff|
    }

    /** The bytes still to be parsed when the coroutine is resumed. */
    ghost function Unparsed(): seq<byte>
      reads this
      requires Valid()
    {
      buff[numBegin + yielded..]
    }

    constructor (buff: seq<byte>)
      ensures Valid() && Unparsed() == buff
    {
      this.buff := buff;
      numBegin, yielded := 0, 0;
    }

    /** Runs the coroutine from one suspension to the next. */
    method Resume() returns (r: Resumption)
      requires Valid()
      modifies this
      ensures Valid()
      ensures old(Unparsed()) == [] ==> r == Done && Unparsed() == []
      ensures old(Unparsed()) != [] ==>
                match ParseHead(old(Unparsed()))
                case Failure(e) => r == Throw(e) && Unparsed() == old(Unparsed())
                case Success(m) => r == Yield(m) && Unparsed() == old(Unparsed())[m.Size()..]
    {
      numBegin, yielded := numBegin + yielded, 0;
      if numBegin == |buff| {
        return Done;
      }
      var num := ParseHead(buff[numBegin..]);
      match num
      case Failure(e) => r := Throw(e);
      case Success(m) =>
        yielded := m.Size();
        r := Yield(m);
    }
  }

  /** `message_parser`: owns a copy of the bytes its generators parse. */
  class MessageParser {
    const unparsedMessages: seq<byte>

    constructor (input: seq<byte>)
      ensures unparsedMessages == input
    {
      unparsedMessages := input;
    }

    method MessageGenerator() returns (g: ParsedMessageGenerator)
      ensures fresh(g) && g.Valid() && g.Unparsed() == unparsedMessages
    {
      g := new ParsedMessageGenerator(unparsedMessages);
    }
  }
}
