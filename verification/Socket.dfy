/**
 The socket to the compositor: a stream the peer fills, read in pieces whose
 sizes an oracle picks, and a record of what is sent.
 */
module Sockets {
  import opened Bytes
  import opened Receive
  import opened Wrappers

  /** One `send` or `write`: bytes, and the descriptor that travels with them if any. */
  datatype Packet = Packet(bytes: seq<byte>, fd: Option<int>)

  class LocalStreamSocket {
    const oracle: Oracle
    var unread: seq<byte>
    var calls: nat
    var sent: seq<Packet>

    constructor (stream: seq<byte>, oracle: Oracle)
      ensures this.oracle == oracle && unread == stream && calls == 0 && sent == []
    {
      this.oracle := oracle;
      unread, calls, sent := stream, 0, [];
    }

    /** Blocks until there is something to read; returns nothing at the end of the stream only. */
    method ReadSome(requested: nat) returns (data: seq<byte>)
      modifies this`unread, this`calls
      ensures calls == old(calls) + 1
      ensures
        var n := ReadLength(oracle, old(calls), requested, |old(unread)|);
        data == old(unread)[..n] && unread == old(unread)[n..]
    {
      var n := ReadLength(oracle, calls, requested, |unread|);
      data, unread := unread[..n], unread[n..];
      calls := calls + 1;
    }

    /** Sends one byte together with one descriptor. */
    method Send(data: byte, fd: int) returns (written: nat)
      modifies this`sent
      ensures written == 1
      ensures sent == old(sent) + [Packet([data], Some(fd))]
    {
      sent := sent + [Packet([data], Some(fd))];
      written := 1;
    }

    method Write(data: seq<byte>)
      modifies this`sent
      ensures sent == old(sent) + [Packet(data, None)]
    {
      sent := sent + [Packet(data, None)];
    }
  }
}
