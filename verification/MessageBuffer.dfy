/**
 `message_buffer`: the growing batch of encoded requests and the descriptors
 that have to travel with it.
 */
module MessageBuffers {
  import opened Bytes
  import opened Chunks
  import opened Wire

  /** `buf` begins with everything `was` held. */
  ghost predicate Extends(was: seq<byte>, buf: seq<byte>) {
    |was| <= |buf| && buf[..|was|] == was
  }

  /** Length, characters and delimiter, written over any storage, encode the string. */
  lemma StringWritten(text: seq<byte>, buf: seq<byte>, before: nat)
    requires |buf| == before + ElementSize(Str(text))
    ensures
      var sized := Overwrite(buf, before, LE32(Narrow32(|text| + 1)));
      var filled := Overwrite(sized, before + LENGTH_SIZE, text);
      var done := Overwrite(filled, before + LENGTH_SIZE + |text|, [0]);
      done[..before] == buf[..before] && Encodes(Str(text), done[before..])
  {
    hide LE32, Padded;
    var length := LE32(Narrow32(|text| + 1));
    var sized := Overwrite(buf, before, length);
    var filled := Overwrite(sized, before + LENGTH_SIZE, text);
    var done := Overwrite(filled, before + LENGTH_SIZE + |text|, [0]);
    var e := done[before..];
    assert filled == buf[..before] + length + text + buf[before + 4 + |text|..];
    assert e == length + text + [0] + buf[before + 4 + |text| + 1..];
    assert e[..4] == length && e[4..4 + |text|] == text;
  }

  lemma ArrayWritten(data: seq<byte>, buf: seq<byte>, before: nat)
    requires |buf| == before + ElementSize(Arr(data))
    ensures
      var sized := Overwrite(buf, before, LE32(Narrow32(|data|)));
      var done := Overwrite(sized, before + LENGTH_SIZE, data);
      done[..before] == buf[..before] && Encodes(Arr(data), done[before..])
  {
    hide LE32, Padded;
    var length := LE32(Narrow32(|data|));
    var done := Overwrite(Overwrite(buf, before, length), before + LENGTH_SIZE, data);
    var e := done[before..];
    assert e == length + data + buf[before + 4 + |data|..];
    assert e[..4] == length && e[4..4 + |data|] == data;
  }

  /** The bytes of an encoding behind what was in the buffer. */
  lemma EncodedBehind(a: Arg, was: seq<byte>, buf: seq<byte>)
    requires Extends(was, buf) && Encodes(a, buf[|was|..])
    ensures |buf| == |was| + ElementSize(a)
    ensures ArgumentAt(a, buf, |was|)
  {
    hide Encodes, ElementSize, ArgumentAt, Takes;
    EncodingSize(a, buf[|was|..]);
    EncodingIs(a, buf[|was|..]);
    Moved(a, buf[|was|..], buf, |was|);
  }

  lemma NoBytes(fd: int)
    ensures Encodes(Fd(fd), []) && ElementSize(Fd(fd)) == 0
  {
  }

  lemma WordBehind(a: Arg, was: seq<byte>, buf: seq<byte>)
    requires a.Kind().Static() && |buf| == |was| + 4 && buf[|was|..] == LE32(Image(a))
    ensures Encodes(a, buf[|was|..]) && ElementSize(a) == 4
    ensures
      var word := U32(buf[|was|..]);
      match a
      case Int(i) => word == i % 0x1_0000_0000
      case Uint(u) => word == u
      case Fixed(w) => word == w
      case Object(id) => word == id
      case NewId(id) => word == id
  {
    hide U32, LE32, Padded, Image;
    PaddedWords();
    ImageIs(a);
    assert buf[|was|..][..4] == buf[|was|..];
  }

  class MessageBuffer {
    var buff: seq<byte>
    var fdBuff: seq<int>

    /** The messages whose bytes, respectively descriptors, have not been released yet. */
    ghost var unreleasedData: seq<Message>
    ghost var unreleasedFds: seq<Message>

    ghost predicate Valid()
      reads this
    {
      EncodesMessages(unreleasedData, buff) && fdBuff == AllFds(unreleasedFds)
    }

    constructor ()
      ensures Valid()
      ensures unreleasedData == [] && unreleasedFds == []
    {
      buff, fdBuff := [], [];
      unreleasedData, unreleasedFds := [], [];
    }

    predicate Empty()
      reads this
    {
      buff == [] && fdBuff == []
    }

    // The `write_element_32aligned` overload set. Each overload returns what it
    // adds to the size of the message.

    method WriteString(text: seq<byte>) returns (elementSize: nat)
      modifies this`buff
      ensures elementSize == ElementSize(Str(text))
      ensures Extends(old(buff), buff) && Encodes(Str(text), buff[old(|buff|)..])
      ensures TextAt(text, buff, old(|buff|)) && |buff| == old(|buff|) + elementSize
      ensures buff[old(|buff|) + 4 + |text|] == 0
    {
      var before := |buff|;
      var lengthOfStr := |text| + 1;
      var withoutPad := LENGTH_SIZE + lengthOfStr;
      elementSize := withoutPad + RoundUpPad(4, withoutPad);
      buff := Resize(buff, before + elementSize);
      StringWritten(text, buff, before);
      buff := Overwrite(buff, before, LE32(Narrow32(lengthOfStr)));
      buff := Overwrite(buff, before + LENGTH_SIZE, text);
      buff := Overwrite(buff, before + withoutPad - 1, [0]);
      EncodedBehind(Str(text), old(buff), buff);
    }

    method WriteArray(data: seq<byte>) returns (elementSize: nat)
      modifies this`buff
      ensures elementSize == ElementSize(Arr(data))
      ensures Extends(old(buff), buff) && Encodes(Arr(data), buff[old(|buff|)..])
      ensures DataAt(data, buff, old(|buff|)) && |buff| == old(|buff|) + elementSize
    {
      var before := |buff|;
      var withoutPad := LENGTH_SIZE + |data|;
      elementSize := withoutPad + RoundUpPad(4, withoutPad);
      buff := Resize(buff, before + elementSize);
      ArrayWritten(data, buff, before);
      buff := Overwrite(buff, before, LE32(Narrow32(|data|)));
      buff := Overwrite(buff, before + LENGTH_SIZE, data);
      EncodedBehind(Arr(data), old(buff), buff);
    }

    method WriteStatic(a: Arg) returns (elementSize: nat)
      requires a.Kind().Static()
      modifies this`buff
      ensures elementSize == ElementSize(a)
      ensures Extends(old(buff), buff) && Encodes(a, buff[old(|buff|)..])
      ensures |buff| == old(|buff|) + 4
      ensures
        var word := U32(buff[old(|buff|)..]);
        match a
        case Int(i) => word == i % 0x1_0000_0000
        case Uint(u) => word == u
        case Fixed(w) => word == w
        case Object(id) => word == id
        case NewId(id) => word == id
    {
      var before := |buff|;
      elementSize := a.Kind().SizeOf() + RoundUpPad(4, a.Kind().SizeOf());
      buff := Resize(buff, before + elementSize);
      buff := Overwrite(buff, before, LE32(Image(a)));
      WordBehind(a, old(buff), buff);
    }

    method WriteElement(a: Arg) returns (elementSize: nat)
      modifies this`buff, this`fdBuff
      ensures elementSize == ElementSize(a)
      ensures Extends(old(buff), buff) && Encodes(a, buff[old(|buff|)..])
      ensures fdBuff == old(fdBuff) + FdsOfArg(a)
      ensures fdBuff == if a.Fd? then old(fdBuff) + [a.fd] else old(fdBuff)
    {
      hide Encodes, ElementSize, TextAt, DataAt, U32;
      match a
      case Str(text) => elementSize := WriteString(text);
      case Arr(data) => elementSize := WriteArray(data);
      case Fd(fd) =>
        NoBytes(fd);
        assert buff[|buff|..] == [];
        fdBuff, elementSize := fdBuff + [fd], 0;
      case _ => elementSize := WriteStatic(a);
    }

    /** The loop over all arguments; returns the bytes they add to the message. */
    method WriteArguments(args: seq<Arg>, ghost was: seq<byte>) returns (argsSize: nat)
      requires Written(was, [], buff)
      modifies this`buff, this`fdBuff
      ensures argsSize == ArgsSize(args)
      ensures Written(was, args, buff)
      ensures fdBuff == old(fdBuff) + Fds(args)
    {
      argsSize := 0;
      assert args[..0] == [];
      for i := 0 to |args|
        invariant argsSize == ArgsSize(args[..i])
        invariant Written(was, args[..i], buff)
        invariant fdBuff == old(fdBuff) + Fds(args[..i])
      {
        ghost var before := buff;
        var elementSize := WriteElement(args[i]);
        argsSize := argsSize + elementSize;
        WrittenStep(was, args, i, before, buff);
      }
      assert args[..|args|] == args;
    }

    method Append(m: Message)
      requires Valid()
      modifies this
      ensures Valid()
      ensures unreleasedData == old(unreleasedData) + [m]
      ensures unreleasedFds == old(unreleasedFds) + [m]
      ensures Extends(old(buff), buff) && IsFrame(m, buff[old(|buff|)..])
      ensures fdBuff == old(fdBuff) + Fds(m.args)
      ensures
        var frame := buff[old(|buff|)..];
        && |frame| >= 8 && U32(frame[0..4]) == m.objectId && U16(frame[4..6]) == m.opcode
        && U16(frame[6..8]) == |frame| % 0x1_0000
    {
      ghost var was := buff;
      var header := |buff|;
      buff := Resize(buff, |buff| + HEADER_SIZE);
      RoomForHeader(was, buff);
      var argsSize := WriteArguments(m.args, was);
      var msgTotalSize := HEADER_SIZE + argsSize;
      assert msgTotalSize == m.Size();
      HeaderPatched(unreleasedData, m, was, buff);
      FlatMapSnoc(unreleasedFds, m, FdsOf);
      buff := Overwrite(buff, header, HeaderBytes(m.objectId, m.opcode, Narrow16(msgTotalSize)));
      HeaderOfFrame(m, buff[|was|..]);
      unreleasedData := unreleasedData + [m];
      unreleasedFds := unreleasedFds + [m];
    }

    method ReleaseData() returns (data: seq<byte>)
      requires Valid()
      modifies this`buff, this`unreleasedData
      ensures Valid()
      ensures data == old(buff) && EncodesMessages(old(unreleasedData), data)
      ensures buff == [] && unreleasedData == []
    {
      data, buff := buff, [];
      unreleasedData := [];
    }

    method ReleaseFds() returns (fds: seq<int>)
      requires Valid()
      modifies this`fdBuff, this`unreleasedFds
      ensures Valid()
      ensures fds == old(fdBuff) == AllFds(old(unreleasedFds))
      ensures fdBuff == [] && unreleasedFds == []
    {
      fds, fdBuff := fdBuff, [];
      unreleasedFds := [];
    }
  }

  lemma OverwriteBehind(was: seq<byte>, buf: seq<byte>, data: seq<byte>)
    requires Extends(was, buf) && |was| + |data| <= |buf|
    ensures Overwrite(buf, |was|, data) == was + (data + buf[|was| + |data|..])
  {
  }

  lemma FrameFromParts(m: Message, body: seq<byte>)
    requires EncodesAll(m.args, body)
    ensures IsFrame(m, HeaderBytes(m.objectId, m.opcode, Narrow16(m.Size())) + body)
  {
    ChunkedSize(m.args, body, ElementSize, Encodes);
    var header := HeaderBytes(m.objectId, m.opcode, Narrow16(m.Size()));
    assert (header + body)[..HEADER_SIZE] == header;
    assert (header + body)[HEADER_SIZE..] == body;
  }

  lemma Behind(was: seq<byte>, frame: seq<byte>)
    ensures Extends(was, was + frame) && (was + frame)[|was|..] == frame
  {
  }

  /** Patching the header in last touches neither earlier messages nor the arguments. */
  lemma HeaderPatched(ms: seq<Message>, m: Message, was: seq<byte>, unpatched: seq<byte>)
    requires EncodesMessages(ms, was)
    requires Written(was, m.args, unpatched)
    ensures
      var header := HeaderBytes(m.objectId, m.opcode, Narrow16(m.Size()));
      var patched := Overwrite(unpatched, |was|, header);
      Extends(was, patched) && IsFrame(m, patched[|was|..]) && EncodesMessages(ms + [m], patched)
  {
    var header := HeaderBytes(m.objectId, m.opcode, Narrow16(m.Size()));
    var body := unpatched[|was| + HEADER_SIZE..];
    OverwriteBehind(was, unpatched, header);
    FrameFromParts(m, body);
    Behind(was, header + body);
    ChunkedSnoc(ms, m, was, header + body, MessageSize, IsFrame);
  }

  /** Behind `was` and room for a header, `buf` holds encodings of `args`. */
  ghost predicate Written(was: seq<byte>, args: seq<Arg>, buf: seq<byte>) {
    && |was| + HEADER_SIZE <= |buf|
    && Extends(was, buf)
    && EncodesAll(args, buf[|was| + HEADER_SIZE..])
  }

  lemma RoomForHeader(was: seq<byte>, buf: seq<byte>)
    requires |buf| == |was| + HEADER_SIZE && buf[..|was|] == was
    ensures Written(was, [], buf)
  {
  }

  /** Writing element `i` behind the elements before it. */
  lemma WrittenStep(was: seq<byte>, args: seq<Arg>, i: nat, before: seq<byte>, after: seq<byte>)
    requires i < |args| && Written(was, args[..i], before)
    requires Extends(before, after) && Encodes(args[i], after[|before|..])
    ensures Written(was, args[..i + 1], after)
    ensures ArgsSize(args[..i + 1]) == ArgsSize(args[..i]) + ElementSize(args[i])
    ensures Fds(args[..i + 1]) == Fds(args[..i]) + FdsOfArg(args[i])
  {
    EncodingSize(args[i], after[|before|..]);
    hide Encodes, ElementSize, FdsOfArg, Chunked, SizeSum, FlatMap;
    var body := |was| + HEADER_SIZE;
    assert args[..i + 1] == args[..i] + [args[i]];
    assert after == before + after[|before|..];
    assert after[body..] == before[body..] + after[|before|..];
    assert after[..|was|] == before[..|was|];
    ChunkedSnoc(args[..i], args[i], before[body..], after[|before|..], ElementSize, Encodes);
    SizeSumSnoc(args[..i], args[i], ElementSize);
    FlatMapSnoc(args[..i], args[i], FdsOfArg);
  }
}
