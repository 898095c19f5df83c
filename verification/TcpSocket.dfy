/**
 The stream socket helpers of tcp_socket.cc: loops that turn partial reads and writes
 into transfers of a whole block.
 */
module TcpSocket {
  import opened Bytes

  /** One end of a connected stream socket. `incoming` is what the peer will still deliver before the
      connection ends, `outgoing` what has been accepted for the peer so far. A socket that
      `delivers` fails to read only at the end of the stream, one that `accepts` never fails to write; otherwise
      any call may fail, whatever bytes remain. */
  class Socket {
    var incoming: seq<byte>
    var outgoing: seq<byte>
    const delivers: bool
    const accepts: bool
    var errno: nat

    constructor (incoming: seq<byte>, delivers: bool, accepts: bool)
      ensures this.incoming == incoming && outgoing == []
      ensures this.delivers == delivers && this.accepts == accepts
    {
      this.incoming, outgoing, errno := incoming, [], 0;
      this.delivers, this.accepts := delivers, accepts;
    }

    /** read(2): some bytes, at least one, or a result below one. The number is the environment's choice. */
    method Read(data: array<byte>, at: nat, n: nat) returns (result: int)
      requires at + n <= data.Length
      modifies this`incoming, this`errno, data
      ensures result <= n
      ensures result < 1 ==> incoming == old(incoming) && data[..] == old(data[..])
      ensures result < 1 ==> !delivers || n == 0 || incoming == []
      ensures result >= 1 ==> result <= |old(incoming)| && incoming == old(incoming)[result..]
      ensures result >= 1 ==> data[..] == WriteAt(old(data[..]), at, old(incoming)[..result])
    {
      if n == 0 || incoming == [] {
        return 0;
      }
      if !delivers {
        if * {
          var e: nat := *;
          errno := e;
          return -1;
        }
      }
      var k: nat :| 1 <= k <= n && k <= |incoming|;
      forall i | 0 <= i < k {
        data[at + i] := incoming[i];
      }
      assert data[..] == WriteAt(old(data[..]), at, incoming[..k]);
      incoming := incoming[k..];
      result := k;
    }

    /** write(2): some bytes are accepted, at least one, or the result is below one. */
    method Write(data: seq<byte>) returns (result: int)
      modifies this`outgoing, this`errno
      ensures result <= |data|
      ensures result < 1 ==> outgoing == old(outgoing)
      ensures result < 1 ==> !accepts || data == []
      ensures result >= 1 ==> outgoing == old(outgoing) + data[..result]
    {
      if data == [] {
        return 0;
      }
      if !accepts {
        if * {
          var e: nat := *;
          errno := e;
          return -1;
        }
      }
      var k: nat :| 1 <= k <= |data|;
      outgoing := outgoing + data[..k];
      result := k;
    }
  }

  lemma ExtendReceived(stale: seq<byte>, stream: seq<byte>, position: nat, k: nat)
    requires position + k <= |stream|
    ensures stream[position..][..k] == stream[position..position + k]
    ensures WriteAt(WriteAt(stale, 0, stream[..position]), position, stream[position..][..k])
         == WriteAt(stale, 0, stream[..position + k])
    ensures stream[position..][k..] == stream[position + k..]
  {
    assert stream[..position] + stream[position..][..k] == stream[..position + k];
    WriteAtAdjacent(stale, 0, stream[..position], stream[position..][..k]);
  }

  /** Fills the first `size` bytes of `data` from the stream, or fails having consumed fewer. A request for
      no bytes at all fails, because the loop reads before it looks at the size. */
  method ReceiveData(data: array<byte>, size: nat, socket: Socket) returns (result: int)
    requires size <= data.Length
    modifies socket`incoming, socket`errno, data
    ensures result == size > 0 || result == -(socket.errno as int)
    ensures result >= 1 ==> size <= |old(socket.incoming)| && socket.incoming == old(socket.incoming)[size..]
    ensures result >= 1 ==> data[..] == WriteAt(old(data[..]), 0, old(socket.incoming)[..size])
    ensures result < 1 ==> exists k :: 0 <= k <= |old(socket.incoming)| && (k < size || size == 0) &&
                                       socket.incoming == old(socket.incoming)[k..]
    ensures socket.delivers && 0 < size <= |old(socket.incoming)| ==> result == size
  {
    ghost var stream := socket.incoming;
    ghost var stale := data[..];
    var position := 0;
    while true
      invariant 0 <= position <= |stream| && (position < size || (size == 0 && position == 0))
      invariant socket.incoming == stream[position..]
      invariant data[..] == WriteAt(stale, 0, stream[..position])
      decreases size - position
    {
      result := socket.Read(data, position, size - position);
      if result < 1 {
        return -(socket.errno as int);
      }
      ExtendReceived(stale, stream, position, result);
      position := position + result;
      if position >= size {
        break;
      }
    }
    result := position;
  }

  /** Sends all of `data`, or fails after a proper prefix of it. */
  method SendData(data: seq<byte>, socket: Socket) returns (result: int)
    modifies socket`outgoing, socket`errno
    ensures result == |data| > 0 || result == -(socket.errno as int)
    ensures result >= 1 ==> socket.outgoing == old(socket.outgoing) + data
    ensures result < 1 ==> exists k :: 0 <= k <= |data| && (k < |data| || data == []) &&
                                       socket.outgoing == old(socket.outgoing) + data[..k]
    ensures socket.accepts && data != [] ==> result == |data|
  {
    var position := 0;
    while true
      invariant 0 <= position && (position < |data| || (data == [] && position == 0))
      invariant socket.outgoing == old(socket.outgoing) + data[..position]
      decreases |data| - position
    {
      result := socket.Write(data[position..]);
      if result < 1 {
        return -(socket.errno as int);
      }
      assert data[..position] + data[position..][..result] == data[..position + result];
      position := position + result;
      if position >= |data| {
        break;
      }
    }
    assert data[..position] == data;
    result := position;
  }

  /** Receives the four bytes of an int32_t; on failure the caller's variable keeps its value unless
      some of its bytes had arrived, and no caller looks at it then. */
  method ReceiveInt32(socket: Socket) returns (result: int, value: int)
    modifies socket`incoming, socket`errno
    ensures result == 4 || result == -(socket.errno as int)
    ensures result >= 1 ==> 4 <= |old(socket.incoming)| && socket.incoming == old(socket.incoming)[4..]
    ensures result >= 1 ==> value == DecodeInt32(old(socket.incoming)[..4])
    ensures result < 1 ==> exists k :: 0 <= k < 4 && k <= |old(socket.incoming)| &&
                                       socket.incoming == old(socket.incoming)[k..]
    ensures socket.delivers && 4 <= |old(socket.incoming)| ==> result == 4
  {
    var data := new byte[4];
    result := ReceiveData(data, 4, socket);
    assert result >= 1 ==> data[..] == old(socket.incoming)[..4];
    value := DecodeInt32(data[..]);
  }

  method SendInt32(value: int, socket: Socket) returns (result: int)
    requires IsInt32(value)
    modifies socket`outgoing, socket`errno
    ensures result == 4 || result == -(socket.errno as int)
    ensures result >= 1 ==> socket.outgoing == old(socket.outgoing) + EncodeInt32(value)
    ensures result < 1 ==> exists k :: 0 <= k < 4 && socket.outgoing == old(socket.outgoing) + EncodeInt32(value)[..k]
    ensures socket.accepts ==> result == 4
  {
    result := SendData(EncodeInt32(value), socket);
  }
}
