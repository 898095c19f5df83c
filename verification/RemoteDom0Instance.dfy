/**
 The client of a remote dom0: remote_dom0_instance.cc.
 */
module RemoteDom0Instance {
  import opened Bytes
  import opened Wire
  import opened TcpSocket

  class RemoteDom0 {
    const luaSocket: Socket
    const binarySocket: Socket
    // A port of zero disables a connection; its calls then do nothing and report zero.
    const luaDisabled: bool
    const binaryDisabled: bool

    constructor (luaSocket: Socket, binarySocket: Socket, luaDisabled: bool, binaryDisabled: bool)
      ensures this.luaSocket == luaSocket && this.binarySocket == binarySocket
      ensures this.luaDisabled == luaDisabled && this.binaryDisabled == binaryDisabled
    {
      this.luaSocket, this.binarySocket := luaSocket, binarySocket;
      this.luaDisabled, this.binaryDisabled := luaDisabled, binaryDisabled;
    }

    /** Sends a C string of its own length. */
    method ExecuteLuaString(cmd: seq<byte>) returns (r: int)
      requires 0 !in cmd && IsInt32(|cmd| + 1)
      modifies luaSocket`incoming, luaSocket`outgoing, luaSocket`errno
      ensures luaDisabled ==> r == 0 && unchanged(luaSocket)
      ensures old(luaSocket.outgoing) <= luaSocket.outgoing <= old(luaSocket.outgoing) + Counted(cmd)
      ensures luaSocket.outgoing != old(luaSocket.outgoing) + Counted(cmd) ==>
                r <= 0 && luaSocket.incoming == old(luaSocket.incoming)
      ensures r > 0 ==>
                && luaSocket.outgoing == old(luaSocket.outgoing) + Counted(cmd)
                && 4 <= |old(luaSocket.incoming)| && luaSocket.incoming == old(luaSocket.incoming)[4..]
                && r == DecodeInt32(old(luaSocket.incoming)[..4])
      ensures !luaDisabled && luaSocket.delivers && luaSocket.accepts && 4 <= |old(luaSocket.incoming)| ==>
                && luaSocket.outgoing == old(luaSocket.outgoing) + Counted(cmd)
                && r == DecodeInt32(old(luaSocket.incoming)[..4])
    {
      assert (cmd + [0])[..|cmd| + 1] == cmd + [0];
      r := ExecuteLuaBytes(cmd + [0], |cmd| + 1);
    }

    /** Sends the first `size` bytes of a command and waits for the reply to it. Whatever fails, the stream to the
        server has only grown by a prefix of the size and those bytes; a positive result is a reply, read after
        all of it was sent. A size of zero never gets that far. */
    method ExecuteLuaBytes(cmd: seq<byte>, size: nat) returns (r: int)
      requires size <= |cmd| && IsInt32(size)
      modifies luaSocket`incoming, luaSocket`outgoing, luaSocket`errno
      ensures luaDisabled ==> r == 0 && unchanged(luaSocket)
      ensures var frame := EncodeInt32(size) + cmd[..size];
              && old(luaSocket.outgoing) <= luaSocket.outgoing <= old(luaSocket.outgoing) + frame
              && (luaSocket.outgoing != old(luaSocket.outgoing) + frame ==>
                    r <= 0 && luaSocket.incoming == old(luaSocket.incoming))
              && (!luaDisabled && (luaSocket.outgoing != old(luaSocket.outgoing) + frame || size == 0) ==>
                    r == -(luaSocket.errno as int))
              && (r > 0 ==>
                    && size > 0 && luaSocket.outgoing == old(luaSocket.outgoing) + frame
                    && 4 <= |old(luaSocket.incoming)| && luaSocket.incoming == old(luaSocket.incoming)[4..]
                    && r == DecodeInt32(old(luaSocket.incoming)[..4]))
              && (!luaDisabled && luaSocket.delivers && luaSocket.accepts ==>
                    4 <= |old(luaSocket.incoming)| && size > 0 ==>
                    && luaSocket.outgoing == old(luaSocket.outgoing) + frame
                    && r == DecodeInt32(old(luaSocket.incoming)[..4]))
    {
      if luaDisabled {
        return 0;
      }
      var status := SendInt32(size, luaSocket);
      if status < 1 {
        return -(luaSocket.errno as int);
      }
      status := SendData(cmd[..size], luaSocket);
      if status < 1 {
        return -(luaSocket.errno as int);
      }
      status, r := ReceiveInt32(luaSocket);
      if status < 1 {
        return -(luaSocket.errno as int);
      }
    }

    /** Sends a binary to be stored under a name. No byte of the data leaves before the four bytes of the
        server's permission arrived, and success means that the whole image went out. */
    method SendElfBinaryFromMemory(data: seq<byte>, remoteFilename: seq<byte>) returns (r: int)
      requires 0 !in remoteFilename && Countable(Transfer(remoteFilename, data))
      modifies binarySocket`incoming, binarySocket`outgoing, binarySocket`errno
      ensures binaryDisabled ==> r == 0 && unchanged(binarySocket)
      ensures var t := Transfer(remoteFilename, data);
              && old(binarySocket.outgoing) <= binarySocket.outgoing <= old(binarySocket.outgoing) + Image(t)
              && (|old(binarySocket.outgoing) + Head(t)| < |binarySocket.outgoing| ==>
                    4 <= |old(binarySocket.incoming)| && binarySocket.incoming == old(binarySocket.incoming)[4..])
              && (r > 0 ==> r == |data| && binarySocket.outgoing == old(binarySocket.outgoing) + Image(t)
                            && 4 <= |old(binarySocket.incoming)|
                            && binarySocket.incoming == old(binarySocket.incoming)[4..])
              && (r <= 0 && !binaryDisabled && data != [] ==>
                    binarySocket.outgoing < old(binarySocket.outgoing) + Image(t))
      ensures !binaryDisabled && binarySocket.delivers && binarySocket.accepts ==>
                4 <= |old(binarySocket.incoming)| && data != [] ==> r == |data|
      ensures data == [] ==> r <= 0
      ensures r <= 0 && !binaryDisabled ==> r == -(binarySocket.errno as int)
    {
      if binaryDisabled {
        return 0;
      }
      hide EncodeInt32, DecodeInt32;
      var t := Transfer(remoteFilename, data);
      var status := SendHead(t);
      if status < 1 {
        return -(binarySocket.errno as int);
      }
      var message;
      status, message := ReceiveInt32(binarySocket);
      if status < 1 {
        return -(binarySocket.errno as int);
      }
      status := SendData(data, binarySocket);
      if status < 1 {
        return -(binarySocket.errno as int);
      }
      r := |data|;
    }

    /** The file name and the size: the three sends before the wait for the permission. */
    method SendHead(t: Transfer) returns (status: int)
      requires Countable(t)
      modifies binarySocket`outgoing, binarySocket`errno
      ensures status >= 1 ==> binarySocket.outgoing == old(binarySocket.outgoing) + Head(t)
      ensures status < 1 ==> !binarySocket.accepts
      ensures status < 1 ==> old(binarySocket.outgoing) <= binarySocket.outgoing < old(binarySocket.outgoing) + Head(t)
    {
      hide EncodeInt32;
      status := SendInt32(|t.name| + 1, binarySocket);
      if status < 1 {
        return;
      }
      status := SendData(t.name + [0], binarySocket);
      if status < 1 {
        return;
      }
      status := SendInt32(|t.data|, binarySocket);
    }
  }
}
