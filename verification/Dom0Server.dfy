/**
 The two connection handlers of dom0_server.cc and the chunked receiver they share.
 */
module Dom0Server {
  import opened Bytes
  import opened Streams
  import opened Wire
  import opened TcpSocket
  import opened FileServer
  import opened VectoredIo

  /** Every name stands for a file, and no file has two names. */
  ghost predicate WellNamed(nodes: map<seq<byte>, nat>, files: Contents) {
    && (forall n :: n in nodes ==> nodes[n] in files)
    && forall m, n :: m in nodes && n in nodes && m != n ==> nodes[m] != nodes[n]
  }

  ghost function Named(nodes: map<seq<byte>, nat>, files: Contents): (r: Files)
    requires WellNamed(nodes, files)
    ensures r.Keys == nodes.Keys
  {
    map n | n in nodes :: files[nodes[n]]
  }

  /** A name for an existing file, or for one that does not exist yet. */
  lemma NamedOpened(nodes: map<seq<byte>, nat>, files: Contents, name: seq<byte>, node: nat)
    requires WellNamed(nodes, files)
    requires if name in nodes then node == nodes[name] else node !in files
    ensures var more := if node in files then files else files[node := []];
            && WellNamed(nodes[name := node], more)
            && Named(nodes[name := node], more) == Opened(Named(nodes, files), name)
  {
    if name in nodes {
      assert nodes[name := node] == nodes;
    }
  }

  /** One file is written at a position. */
  function Rewritten(files: Files, name: seq<byte>, position: nat, data: seq<byte>): Files
    requires name in files
  {
    files[name := WriteAt(files[name], position, data)]
  }

  lemma NamedWritten(nodes: map<seq<byte>, nat>, files: Contents, name: seq<byte>, position: nat, data: seq<byte>)
    requires WellNamed(nodes, files) && name in nodes
    ensures var now := Written(files, nodes[name], position, data);
            WellNamed(nodes, now) && Named(nodes, now) == Rewritten(Named(nodes, files), name, position, data)
  {
    hide WriteAt;
  }

  /** The files of this machine as its server keeps them, the names they have, and the names opened so far. */
  class Disk {
    const svr: Server
    var nodes: map<seq<byte>, nat>
    var names: seq<seq<byte>>

    /** The file system does not fail and makes progress. */
    ghost predicate Valid()
      reads this, svr
    {
      svr.Valid() && svr.sound && WellNamed(nodes, svr.files)
    }

    ghost function Content(): (r: Files)
      requires Valid()
      reads this, svr
      ensures r.Keys == nodes.Keys
    {
      Named(nodes, svr.files)
    }

    /** An open file of this machine. */
    ghost predicate Has(fd: OpenFile)
      requires Valid()
      reads this, svr, fd.file
    {
      fd.file.svr == svr && fd.name in nodes && svr.Usable(fd.file.fh) && svr.handles[fd.file.fh] == nodes[fd.name]
    }

    constructor (svr: Server)
      requires svr.Valid() && svr.sound
      ensures Valid() && this.svr == svr && Content() == map[] && names == []
    {
      this.svr, nodes, names := svr, map[], [];
    }

    /** open(name, O_WRONLY | O_CREAT), taken to succeed. */
    method Open(name: seq<byte>) returns (fd: OpenFile)
      requires Valid()
      modifies this, svr`handles, svr`files
      ensures Valid() && fresh(fd) && fresh(fd.file) && fd.name == name && fd.position == 0 && Has(fd)
      ensures Content() == Opened(old(Content()), name) && names == old(names) + [name]
    {
      hide WellNamed, Named;
      ghost var before := nodes;
      var node := NodeOf(name);
      NamedOpened(before, svr.files, name, node);
      var fh := svr.Open(node);
      names := names + [name];
      var file := new L4fsFile(svr, fh);
      fd := new OpenFile(name, file);
    }

    /** The file of a name, or one that does not exist yet. */
    method NodeOf(name: seq<byte>) returns (node: nat)
      requires Valid()
      modifies this`nodes
      ensures nodes == old(nodes)[name := node]
      ensures name in old(nodes) ==> node == old(nodes)[name]
      ensures name !in old(nodes) ==> node !in svr.files
    {
      if name !in nodes {
        node := svr.NewNode();
        nodes := nodes[name := node];
      } else {
        node := nodes[name];
      }
    }
  }

  /** A descriptor: the client file behind it, and how far it has been written. */
  class OpenFile {
    const name: seq<byte>
    const file: L4fsFile
    var position: nat

    constructor (name: seq<byte>, file: L4fsFile)
      ensures this.name == name && this.file == file && position == 0
    {
      this.name, this.file, position := name, file, 0;
    }

    /** write(2) on this descriptor is a vectored write of one piece. It never asks for more than the shared buffer
        holds, so that neither the client nor its stub can fail; it may accept only a part. */
    method Write(disk: Disk, data: array<byte>, from: nat, n: nat) returns (k: nat)
      requires from + n <= data.Length && 0 < n <= MAX_RW_BUFFER_SIZE
      requires disk.Valid() && disk.Has(this) && data != disk.svr.rwBuf
      modifies this`position, disk.svr`files, disk.svr`asked, disk.svr.rwBuf
      ensures 1 <= k <= n && position == old(position) + k
      ensures disk.Valid() && disk.Has(this)
      ensures disk.Content() == Rewritten(old(disk.Content()), name, old(position), data[from..from + k])
    {
      var piece := Slice(data, from, n);
      OnePiece(piece);
      hide Flat, Pieces, WriteAt, WellNamed, Named, WriteAsked, FailedAt;
      ghost var node, contents := disk.nodes[name], disk.svr.files;
      assert node in contents by { NodeIsFile(disk.nodes, contents, name); }
      k := file.Pwritev([piece], position);
      assert data[from..from + n][..k] == data[from..from + k];
      assert disk.svr.files == Written(contents, node, position, data[from..from + k]);
      NamedWritten(disk.nodes, contents, name, position, data[from..from + k]);
      position := position + k;
    }
  }

  lemma NodeIsFile(nodes: map<seq<byte>, nat>, files: Contents, name: seq<byte>)
    requires WellNamed(nodes, files) && name in nodes
    ensures nodes[name] in files
  {
  }

  /** The memory that a pointer into a buffer and a length stand for. */
  method Slice(data: array<byte>, from: nat, n: nat) returns (piece: array<byte>)
    requires from + n <= data.Length
    ensures fresh(piece) && piece.Length == n && piece[..] == data[from..from + n]
  {
    piece := new byte[n];
    for i := 0 to n
      invariant piece[..i] == data[from..from + i]
    {
      piece[i] := data[from + i];
    }
  }

  lemma OnePiece(piece: array<byte>)
    ensures Flat(Pieces([piece])) == piece[..] && [piece] != [] && [piece][0] == piece
    ensures piece.Length <= MAX_RW_BUFFER_SIZE ==> AllWithin([piece])
  {
    assert Pieces([piece]) == [piece[..]];
    assert Flat([piece[..]]) == piece[..] + Flat([]);
  }

  lemma RewrittenTwice(files: Files, name: seq<byte>, position: nat, a: seq<byte>, b: seq<byte>)
    requires name in files
    ensures Rewritten(Rewritten(files, name, position, a), name, position + |a|, b)
         == Rewritten(files, name, position, a + b)
    ensures Rewritten(files, name, position, []) == files
  {
    WriteAtAdjacent(files[name], position, a, b);
  }

  /** The inner loop of the receiver: `received` bytes of the buffer go to the file, each once and in order,
      in as many writes as it takes. */
  method WriteOut(disk: Disk, fd: OpenFile, rwBuffer: array<byte>, received: nat)
    requires received <= rwBuffer.Length && received <= MAX_RW_BUFFER_SIZE
    requires disk.Valid() && disk.Has(fd) && rwBuffer != disk.svr.rwBuf
    modifies fd`position, disk.svr`files, disk.svr`asked, disk.svr.rwBuf
    ensures fd.position == old(fd.position) + received
    ensures disk.Valid() && disk.Has(fd)
    ensures disk.Content() == Rewritten(old(disk.Content()), fd.name, old(fd.position), rwBuffer[..received])
  {
    ghost var before, start := disk.Content(), fd.position;
    RewrittenTwice(before, fd.name, start, [], []);
    hide Rewritten, Disk.Has, Disk.Content, Disk.Valid;
    var written := 0;
    while written < received
      invariant 0 <= written <= received
      invariant fd.position == start + written && disk.Valid() && disk.Has(fd)
      invariant disk.Content() == Rewritten(before, fd.name, start, rwBuffer[..written])
    {
      var k := fd.Write(disk, rwBuffer, written, received - written);
      assert rwBuffer[..written] + rwBuffer[written..written + k] == rwBuffer[..written + k];
      RewrittenTwice(before, fd.name, start, rwBuffer[..written], rwBuffer[written..written + k]);
      written := written + k;
    }
  }

  /** One round of the receiver's loop: a buffer full, or what is left. */
  method ReceiveChunk(disk: Disk, fd: OpenFile, rwBuffer: array<byte>, left: nat, socket: Socket)
    returns (received: int)
    requires socket.delivers && 0 < left <= |socket.incoming|
    requires disk.Valid() && disk.Has(fd) && rwBuffer != disk.svr.rwBuf && rwBuffer.Length == MAX_RW_BUFFER_SIZE
    modifies fd`position, disk.svr`files, disk.svr`asked, disk.svr.rwBuf, socket`incoming, socket`errno, rwBuffer
    ensures received == if MAX_RW_BUFFER_SIZE < left then MAX_RW_BUFFER_SIZE else left
    ensures socket.incoming == old(socket.incoming)[received..]
    ensures disk.Valid() && disk.Has(fd) && fd.position == old(fd.position) + received
    ensures disk.Content()
         == Rewritten(old(disk.Content()), fd.name, old(fd.position), old(socket.incoming)[..received])
  {
    hide Rewritten, WriteAt, Disk.Has, Disk.Content, Disk.Valid;
    received := ReceiveData(rwBuffer, if MAX_RW_BUFFER_SIZE < left then MAX_RW_BUFFER_SIZE else left, socket);
    ReceivedFront(rwBuffer[..], old(socket.incoming)[..received]);
    WriteOut(disk, fd, rwBuffer, received);
  }

  /** Moves `size` bytes from the socket to the file, a buffer full at a time. Both counters of the source
      are unsigned, so it presumes a connection that lives and delivers everything. */
  method ReceiveNetworkBinary(disk: Disk, fd: OpenFile, size: nat, socket: Socket) returns (result: int)
    requires socket.delivers && size <= |socket.incoming|
    requires disk.Valid() && disk.Has(fd)
    modifies fd`position, disk.svr`files, disk.svr`asked, disk.svr.rwBuf, socket`incoming, socket`errno
    ensures result == size
    ensures socket.incoming == old(socket.incoming)[size..]
    ensures disk.Valid() && disk.Has(fd) && fd.position == old(fd.position) + size
    ensures disk.Content() == Rewritten(old(disk.Content()), fd.name, old(fd.position), old(socket.incoming)[..size])
  {
    ghost var stream, before, start, done := socket.incoming, disk.Content(), fd.position, 0;
    RewrittenTwice(before, fd.name, start, [], []);
    hide Rewritten, WriteAt, Disk.Has, Disk.Content, Disk.Valid;
    assert stream[..0] == [] && stream[0..] == stream;
    var leftToReceive := size;
    var rwBuffer := new byte[MAX_RW_BUFFER_SIZE];
    while leftToReceive > 0
      invariant 0 <= done <= |stream| && 0 <= leftToReceive && done + leftToReceive == size
      invariant socket.incoming == stream[done..] && fd.position == start + done
      invariant disk.Valid() && disk.Has(fd)
      invariant disk.Content() == Rewritten(before, fd.name, start, stream[..done])
    {
      var received := ReceiveChunk(disk, fd, rwBuffer, leftToReceive, socket);
      RewrittenNext(before, fd.name, start, stream, done, received);
      leftToReceive := leftToReceive - received;
      done := done + received;
    }
    result := size;
  }

  /** What a read of a whole block leaves at the front of the buffer. */
  lemma ReceivedFront(buffer: seq<byte>, bs: seq<byte>)
    requires |bs| <= |buffer|
    ensures forall stale :: |stale| == |buffer| && buffer == WriteAt(stale, 0, bs) ==> buffer[..|bs|] == bs
  {
    forall stale | |stale| == |buffer| && buffer == WriteAt(stale, 0, bs) ensures buffer[..|bs|] == bs {
      assert bs != [] ==> buffer[0..|bs|] == bs;
    }
  }

  /** The next k bytes of a stream, written behind the first `done`. */
  lemma RewrittenNext(files: Files, name: seq<byte>, start: nat, stream: seq<byte>, done: nat, k: nat)
    requires name in files && done + k <= |stream|
    ensures stream[done..][k..] == stream[done + k..]
    ensures Rewritten(Rewritten(files, name, start, stream[..done]), name, start + done, stream[done..][..k])
         == Rewritten(files, name, start, stream[..done + k])
  {
    assert stream[..done] + stream[done..][..k] == stream[..done + k];
    RewrittenTwice(files, name, start, stream[..done], stream[done..][..k]);
  }

  // ---- The handlers ----

  /** A length, then that many bytes into the handler's buffer; the buffer then reads as the string sent,
      whatever it held before. */
  method ReceiveString(buffer: array<byte>, socket: Socket) returns (result: int)
    requires buffer.Length == BUF_LEN && StringFits(socket.incoming)
    modifies socket`incoming, socket`errno, buffer
    ensures result >= 1 ==>
              && HasString(old(socket.incoming))
              && socket.incoming == old(socket.incoming)[StringEnd(old(socket.incoming))..]
              && CString(buffer[..]) == CString(old(socket.incoming)[4..StringEnd(old(socket.incoming))])
    ensures result < 1 && socket.delivers ==> !HasString(old(socket.incoming))
  {
    ghost var rest := socket.incoming;
    var message;
    result, message := ReceiveInt32(socket);
    if result < 1 {
      return;
    }
    result := ReceiveData(buffer, message, socket);
    if result >= 1 {
      assert buffer[0..message] == rest[4..][..message] == rest[4..StringEnd(rest)];
      assert buffer[..] == buffer[0..message] + buffer[message..];
      CStringStopsAtNul(buffer[0..message], buffer[message..]);
      assert rest[4..][message..] == rest[StringEnd(rest)..];
    }
  }

  /** A C string handed to Ned, and whether Ned took it. */
  class Ned {
    var heard: seq<seq<byte>>
    var verdicts: seq<bool>

    constructor ()
      ensures heard == [] && verdicts == []
    {
      heard, verdicts := [], [];
    }

    method ExecuteString(cmd: seq<byte>) returns (ok: bool)
      modifies this
      ensures heard == old(heard) + [cmd] && verdicts == old(verdicts) + [ok]
    {
      ok := *;
      heard, verdicts := heard + [cmd], verdicts + [ok];
    }
  }

  /** Serves one Lua connection until a call on its socket fails. Ned hears exactly the commands that
      arrived completely, or fewer if the connection broke first; the replies are those to the commands
      heard, and only the last may be missing or torn. */
  method LuaConnectionHandler(socket: Socket, ned: Ned)
    requires LuaStreamFits(socket.incoming)
    requires ned.heard == [] && ned.verdicts == [] && socket.outgoing == []
    modifies socket`incoming, socket`outgoing, socket`errno, ned
    ensures |ned.heard| == |ned.verdicts|
    ensures ned.heard <= Commands(old(socket.incoming))
    ensures socket.outgoing <= Answers(ned.verdicts)
    ensures ned.verdicts != [] ==> Answers(ned.verdicts[..|ned.verdicts| - 1]) <= socket.outgoing
    ensures socket.accepts ==> socket.outgoing == Answers(ned.verdicts)
    ensures socket.delivers && socket.accepts ==> ned.heard == Commands(old(socket.incoming))
  {
    hide LuaStreamFits, Commands, Answer;
    ghost var all, served := Commands(socket.incoming), 0;
    var buffer := new byte[BUF_LEN];
    var more := true;
    while more
      invariant 0 <= served == |ned.verdicts| <= |all|
      invariant more ==> LuaStreamFits(socket.incoming) && Commands(socket.incoming) == all[served..]
      invariant ned.heard == all[..served]
      invariant socket.delivers && socket.accepts && !more ==> served == |all|
      invariant more || socket.accepts ==> socket.outgoing == Answers(ned.verdicts)
      invariant socket.outgoing <= Answers(ned.verdicts)
      invariant ned.verdicts != [] ==> Answers(ned.verdicts[..|ned.verdicts| - 1]) <= socket.outgoing
      decreases more, |socket.incoming|
    {
      ghost var verdicts := ned.verdicts;
      more := ServeCommand(buffer, socket, ned);
      if ned.verdicts != verdicts {
        assert ned.verdicts[..|verdicts|] == verdicts;
        assert all[served..][1..] == all[served + 1..];
        served := served + 1;
      }
    }
  }

  /** One round of the handler's loop: false when a call on the socket failed. */
  method ServeCommand(buffer: array<byte>, socket: Socket, ned: Ned) returns (more: bool)
    requires buffer.Length == BUF_LEN && LuaStreamFits(socket.incoming)
    modifies socket`incoming, socket`outgoing, socket`errno, ned, buffer
    ensures unchanged(ned) ==> !more && socket.outgoing == old(socket.outgoing)
    ensures unchanged(ned) && socket.delivers ==> Commands(old(socket.incoming)) == []
    ensures !unchanged(ned) ==>
              && Commands(old(socket.incoming)) != [] && LuaStreamFits(socket.incoming)
              && Commands(socket.incoming) == Commands(old(socket.incoming))[1..]
              && |socket.incoming| < |old(socket.incoming)|
              && ned.heard == old(ned.heard) + [Commands(old(socket.incoming))[0]]
              && |ned.verdicts| == |old(ned.verdicts)| + 1 && ned.verdicts[..|old(ned.verdicts)|] == old(ned.verdicts)
              && var reply := Answer(ned.verdicts[|old(ned.verdicts)|]);
              && (more || socket.accepts ==> more && socket.outgoing == old(socket.outgoing) + reply)
              && old(socket.outgoing) <= socket.outgoing <= old(socket.outgoing) + reply
  {
    var result := ReceiveString(buffer, socket);
    if result < 1 {
      return false;
    }
    var ok := ned.ExecuteString(CString(buffer[..]));
    result := SendAnswer(ok, socket);
    more := result >= 1;
  }

  method SendAnswer(ok: bool, socket: Socket) returns (result: int)
    modifies socket`outgoing, socket`errno
    ensures result >= 1 ==> socket.outgoing == old(socket.outgoing) + Answer(ok)
    ensures result < 1 ==> !socket.accepts
    ensures result < 1 ==> old(socket.outgoing) <= socket.outgoing <= old(socket.outgoing) + Answer(ok)
  {
    var message := Code(ok);
    result := SendInt32(message, socket);
  }

  /** Where a binary connection stands: the files and the names opened, the permissions given, the rest of what the
      peer sent. */
  datatype Session = Session(files: Files, names: seq<seq<byte>>, out: seq<byte>, rest: seq<byte>)

  /** Served to the end: whole transfers, and perhaps one name more. */
  ghost predicate ServedWhole(start: Session, end: Session) {
    var ts, lone := Transfers(start.rest), LoneName(start.rest);
    && end.files == OpenedLone(StoreAll(start.files, ts), lone)
    && end.names == start.names + Names(ts) + lone
    && end.out == start.out + Permissions(|ts|)
  }

  /** The permission for transfer k could not be sent: its name is open, and nothing is stored. */
  ghost predicate ServedUpTo(start: Session, end: Session, k: nat) {
    var ts := Transfers(start.rest);
    && k < |ts|
    && end.files == Opened(StoreAll(start.files, ts[..k]), ts[k].name)
    && end.names == start.names + Names(ts[..k]) + [ts[k].name]
    && start.out + Permissions(k) <= end.out < start.out + Permissions(k + 1)
  }

  /** Between two transfers, k of them served. */
  ghost predicate Serving(start: Session, now: Session, k: nat) {
    var ts := Transfers(start.rest);
    && k <= |ts| && Servable(now.rest) && Transfers(now.rest) == ts[k..] && LoneName(now.rest) == LoneName(start.rest)
    && now.files == StoreAll(start.files, ts[..k])
    && now.names == start.names + Names(ts[..k])
    && now.out == start.out + Permissions(k)
  }

  /** One round of the handler's loop. Without a whole transfer to come it ends the conversation; otherwise it stores
      the transfer and goes on if there was data, or opens its name and cannot send the permission. */
  ghost predicate Round(now: Session, next: Session, more: bool) {
    if !HasTransfer(now.rest) then
      && !more && next.out == now.out
      && next.files == OpenedLone(now.files, LoneName(now.rest)) && next.names == now.names + LoneName(now.rest)
    else
      var t := FirstTransfer(now.rest);
      && next.names == now.names + [t.name]
      && if next.out == now.out + EncodeInt32(GO_SEND) then
           next.files == Store(now.files, t) && more == (t.data != []) && next.rest == now.rest[TransferEnd(now.rest)..]
         else
           !more && next.files == Opened(now.files, t.name) && now.out <= next.out < now.out + EncodeInt32(GO_SEND)
  }

  ghost function Now(disk: Disk, socket: Socket): Session
    requires disk.Valid()
    reads disk, disk.svr, socket
  {
    Session(disk.Content(), disk.names, socket.outgoing, socket.incoming)
  }

  /** Serves one binary connection, which may end or fail anywhere but inside of data: opens exactly the names that
      arrived, in order, and leaves every file as if each transfer that arrived had been stored in one go. An
      empty transfer still creates its file and gets its permission, and then ends the conversation. */
  method BinaryConnectionHandler(disk: Disk, socket: Socket)
    requires disk.Valid() && socket.delivers && Servable(socket.incoming)
    modifies disk, disk.svr`handles, disk.svr`files, disk.svr`asked, disk.svr.rwBuf
    modifies socket`incoming, socket`outgoing, socket`errno
    ensures disk.Valid()
    ensures socket.accepts ==> ServedWhole(old(Now(disk, socket)), Now(disk, socket))
    ensures ServedWhole(old(Now(disk, socket)), Now(disk, socket))
            || exists k :: ServedUpTo(old(Now(disk, socket)), Now(disk, socket), k)
  {
    hide Servable, ServedWhole, ServedUpTo, Serving, Round, HasTransfer, TransferEnd, Disk.Content, Disk.Valid;
    ghost var start, k := Now(disk, socket), 0;
    StartsServing(start);
    var buffer := new byte[BUF_LEN];
    var more := true;
    while more
      invariant disk.Valid()
      invariant more ==> Serving(start, Now(disk, socket), k)
      invariant !more ==> ServedWhole(start, Now(disk, socket))
                          || (!socket.accepts && ServedUpTo(start, Now(disk, socket), k))
      decreases more, |socket.incoming|
    {
      ghost var now := Now(disk, socket);
      ServingServable(start, now, k);
      more := ReceiveTransfer(disk, buffer, socket);
      RoundServes(start, now, Now(disk, socket), k, more, socket.accepts);
      if more {
        k := k + 1;
      }
    }
  }

  /** One round of the handler's loop: false when a call reported the end of the conversation. */
  method ReceiveTransfer(disk: Disk, buffer: array<byte>, socket: Socket) returns (more: bool)
    requires buffer.Length == BUF_LEN && disk.Valid() && buffer != disk.svr.rwBuf
    requires socket.delivers && Servable(socket.incoming)
    modifies disk, disk.svr`handles, disk.svr`files, disk.svr`asked, disk.svr.rwBuf
    modifies socket`incoming, socket`outgoing, socket`errno, buffer
    ensures disk.Valid() && Round(old(Now(disk, socket)), Now(disk, socket), more)
    ensures socket.accepts && HasTransfer(old(socket.incoming)) ==>
              socket.outgoing == old(socket.outgoing) + EncodeInt32(GO_SEND)
  {
    hide EncodeInt32, DecodeInt32, WriteAt, Disk.Has, Disk.Content, Disk.Valid, CString, Servable, Round;
    ghost var now := Now(disk, socket);
    NameAndSize(now);
    var result := ReceiveString(buffer, socket);
    if result < 1 {
      return false;
    }
    var fd := disk.Open(CString(buffer[..]));
    ghost var named := Now(disk, socket);
    more := StoreTransfer(disk, fd, socket);
    RoundBehindName(now, named, Now(disk, socket), more);
  }

  /** The part of a round behind the name: the size, the permission, the data. */
  method StoreTransfer(disk: Disk, fd: OpenFile, socket: Socket) returns (more: bool)
    requires disk.Valid() && disk.Has(fd) && fd.position == 0 && socket.delivers
    requires |socket.incoming| >= 4 ==> 0 <= DecodeInt32(socket.incoming[..4]) <= |socket.incoming| - 4
    modifies fd`position, disk.svr`files, disk.svr`asked, disk.svr.rwBuf, socket`incoming, socket`outgoing, socket`errno
    ensures disk.Valid()
    ensures |old(socket.incoming)| < 4 ==>
              !more && socket.outgoing == old(socket.outgoing) && disk.Content() == old(disk.Content())
    ensures |old(socket.incoming)| >= 4 ==>
              var n := DecodeInt32(old(socket.incoming)[..4]);
              if socket.outgoing == old(socket.outgoing) + EncodeInt32(GO_SEND) then
                && more == (n > 0) && socket.incoming == old(socket.incoming)[4..][n..]
                && disk.Content() == Rewritten(old(disk.Content()), fd.name, 0, old(socket.incoming)[4..][..n])
              else
                && !more && !socket.accepts && disk.Content() == old(disk.Content())
                && old(socket.outgoing) <= socket.outgoing < old(socket.outgoing) + EncodeInt32(GO_SEND)
  {
    hide EncodeInt32, DecodeInt32, Rewritten, WriteAt, Disk.Has, Disk.Content, Disk.Valid;
    var result, message := ReceiveInt32(socket);
    if result < 1 {
      return false;
    }
    result := SendInt32(GO_SEND, socket);
    if result < 1 {
      return false;
    }
    result := ReceiveNetworkBinary(disk, fd, message, socket);
    more := result >= 1;
  }

  /** The stream at the beginning of a round. */
  lemma NameAndSize(now: Session)
    requires Servable(now.rest)
    ensures StringFits(now.rest)
    ensures !HasString(now.rest) ==> forall next: Session ::
              next.files == now.files && next.names == now.names && next.out == now.out ==> Round(now, next, false)
    ensures HasString(now.rest) ==>
              var rest := now.rest[StringEnd(now.rest)..];
              |rest| >= 4 ==> 0 <= DecodeInt32(rest[..4]) <= |rest| - 4
  {
  }

  /** What the part behind the name makes of the round. */
  lemma RoundBehindName(now: Session, named: Session, next: Session, more: bool)
    requires Servable(now.rest) && HasString(now.rest)
    requires var name := CString(now.rest[4..StringEnd(now.rest)]);
             && named == Session(Opened(now.files, name), now.names + [name], now.out, now.rest[StringEnd(now.rest)..])
             && next.names == named.names && name in named.files
             && if |named.rest| < 4 then !more && next.out == named.out && next.files == named.files
                else
                  var n := DecodeInt32(named.rest[..4]);
                  && 0 <= n <= |named.rest| - 4
                  && if next.out == named.out + EncodeInt32(GO_SEND) then
                       && more == (n > 0) && next.rest == named.rest[4..][n..]
                       && next.files == Rewritten(named.files, name, 0, named.rest[4..][..n])
                     else
                       && !more && next.files == named.files
                       && named.out <= next.out < named.out + EncodeInt32(GO_SEND)
    ensures Round(now, next, more)
    ensures HasTransfer(now.rest) <==> |named.rest| >= 4
  {
    hide EncodeInt32, DecodeInt32, WriteAt, CString;
    var stream := now.rest;
    if HasTransfer(stream) {
      assert FirstTransfer(stream).data == named.rest[4..][..DecodeInt32(named.rest[..4])];
      assert stream[TransferEnd(stream)..] == named.rest[4..][DecodeInt32(named.rest[..4])..];
    }
  }

  lemma StartsServing(start: Session)
    requires Servable(start.rest)
    ensures Serving(start, start, 0)
  {
    assert Transfers(start.rest)[0..] == Transfers(start.rest);
    assert start.names + [] == start.names && start.out + [] == start.out;
  }

  lemma ServingServable(start: Session, now: Session, k: nat)
    requires Serving(start, now, k)
    ensures Servable(now.rest) && (HasTransfer(now.rest) ==> TransferEnd(now.rest) > 0)
  {
  }

  lemma RoundEnds(start: Session, now: Session, next: Session, k: nat)
    requires Serving(start, now, k) && Round(now, next, false) && !HasTransfer(now.rest)
    ensures ServedWhole(start, next)
  {
    FirstOfStream(now.rest);
    hide Transfers, LoneName, Servable, StoreAll, Names, Permissions, HasTransfer;
    var ts := Transfers(start.rest);
    assert ts[..k] == ts;
  }

  lemma RoundStores(start: Session, now: Session, next: Session, k: nat, more: bool)
    requires Serving(start, now, k) && Round(now, next, more) && HasTransfer(now.rest)
    requires next.out == now.out + EncodeInt32(GO_SEND)
    ensures if more then Serving(start, next, k + 1) && |next.rest| < |now.rest| else ServedWhole(start, next)
  {
    hide EncodeInt32, Store;
    FirstOfStream(now.rest);
    hide Transfers, LoneName, Servable, StoreAll, Names, Permissions, HasTransfer, FirstTransfer, TransferEnd;
    var ts := Transfers(start.rest);
    OneMoreServed(start, ts, k);
    assert ts[k..][1..] == ts[k + 1..];
    assert |ts[k..]| == 1 ==> ts[..k + 1] == ts;
    assert next.names + [] == next.names;
  }

  lemma RoundRefused(start: Session, now: Session, next: Session, k: nat)
    requires Serving(start, now, k) && Round(now, next, false) && HasTransfer(now.rest)
    requires next.out != now.out + EncodeInt32(GO_SEND)
    ensures ServedUpTo(start, next, k)
  {
    hide EncodeInt32, Store;
    FirstOfStream(now.rest);
    hide Transfers, LoneName, Servable, StoreAll, Names, Permissions, HasTransfer, FirstTransfer, TransferEnd;
    OneMoreServed(start, Transfers(start.rest), k);
  }

  /** A round continues or ends the service as it should. */
  lemma RoundServes(start: Session, now: Session, next: Session, k: nat, more: bool, accepts: bool)
    requires Serving(start, now, k) && Round(now, next, more)
    requires accepts && HasTransfer(now.rest) ==> next.out == now.out + EncodeInt32(GO_SEND)
    ensures more ==> Serving(start, next, k + 1) && |next.rest| < |now.rest|
    ensures !more ==> ServedWhole(start, next) || (!accepts && ServedUpTo(start, next, k))
  {
    hide Serving, ServedWhole, ServedUpTo, EncodeInt32;
    if !HasTransfer(now.rest) {
      RoundEnds(start, now, next, k);
    } else if next.out == now.out + EncodeInt32(GO_SEND) {
      RoundStores(start, now, next, k, more);
    } else {
      RoundRefused(start, now, next, k);
    }
  }

  /** The first transfer of a stream, and what is behind it. */
  lemma FirstOfStream(stream: seq<byte>)
    ensures !HasTransfer(stream) ==> Transfers(stream) == []
    ensures HasTransfer(stream) ==>
              var t, rest := FirstTransfer(stream), stream[TransferEnd(stream)..];
              && |rest| < |stream|
              && Transfers(stream) == [t] + (if t.data == [] then [] else Transfers(rest))
              && LoneName(stream) == (if t.data == [] then [] else LoneName(rest))
              && (Servable(stream) && t.data != [] ==> Servable(rest))
  {
  }

  /** One transfer more. */
  lemma OneMoreServed(start: Session, ts: seq<Transfer>, n: nat)
    requires n < |ts|
    ensures StoreAll(start.files, ts[..n + 1]) == Store(StoreAll(start.files, ts[..n]), ts[n])
    ensures start.names + Names(ts[..n + 1]) == start.names + Names(ts[..n]) + [ts[n].name]
    ensures start.out + Permissions(n + 1) == start.out + Permissions(n) + EncodeInt32(GO_SEND)
  {
    assert ts[..n + 1] == ts[..n] + [ts[n]];
    StoreAllSnoc(start.files, ts[..n], ts[n]);
    NamesSnoc(ts[..n], ts[n]);
  }
}
