/**
 A client sending binaries and the server thread storing them, interleaved at every system call over two
 bounded byte channels. A call moves any number of bytes it can, at least one.
 */
module BinaryProtocol {
  import opened Bytes
  import opened Wire
  import Streams

  /** What is fixed for a run: the transfers the client makes one after the other, the capacities of the
      channels, the size of the receiver's buffer, and the files the server starts with. */
  datatype Config = Config(todo: seq<Transfer>, upCapacity: nat, downCapacity: nat, maxChunk: nat, files: Files) {
    ghost predicate Valid() {
      && upCapacity > 0 && downCapacity > 0 && maxChunk > 0 && AllTransferable(todo)
      && forall i :: 0 <= i < |todo| ==> todo[i].data != []
    }
  }

  // ---- The two processes ----

  datatype ClientAt = SendingLength | SendingName | SendingSize | AwaitingPermission | SendingData

  /** `index` is the current transfer, `position` the progress of the current send, `reply` what has arrived
      of the permission. */
  datatype Client = Client(index: nat, at: ClientAt, position: nat, reply: seq<byte>)

  datatype ServerAt = ReceivingLength | ReceivingName | Opening | ReceivingSize | SendingPermission
                    | ReceivingChunk | WritingChunk | Ended

  /** The locals of the connection handler and of the receiver: `word` collects an int32_t, `message` is the
      last one decoded, `position` the progress of the current call, `chunk` the bytes in the receiver's
      buffer. `stored` counts finished transfers; the program itself does not know it. */
  datatype Server = Server(at: ServerAt, position: nat, word: seq<byte>, message: int, buffer: seq<byte>,
                           name: seq<byte>, offset: nat, left: nat, chunk: seq<byte>, written: nat, stored: nat)

  datatype State = State(client: Client, server: Server, up: seq<byte>, down: seq<byte>,
                         files: Files, names: seq<seq<byte>>)

  ghost predicate Initial(cfg: Config, s: State) {
    && s.client == Client(0, SendingLength, 0, [])
    && s.server.at == ReceivingLength && s.server.word == [] && s.server.stored == 0 && |s.server.buffer| == BUF_LEN
    && s.up == [] && s.down == [] && s.files == cfg.files && s.names == []
  }

  // ---- Steps ----

  datatype Step = ClientSends(k: nat) | ClientReceives(k: nat)
                | ServerReceives(k: nat) | ServerSends(k: nat) | ServerOpens | ServerWrites(k: nat)

  /** The block the client is handing to its socket. */
  function Outgoing(t: Transfer, at: ClientAt): seq<byte>
    requires Countable(t)
  {
    match at
    case SendingLength => EncodeInt32(|t.name| + 1)
    case SendingName => t.name + [0]
    case SendingSize => EncodeInt32(|t.data|)
    case AwaitingPermission => []
    case SendingData => t.data
  }

  /** A buffer full, or what is left. */
  function ChunkSize(cfg: Config, left: nat): (n: nat)
    ensures n <= cfg.maxChunk && n <= left && (n == cfg.maxChunk || n == left)
  {
    if cfg.maxChunk < left then cfg.maxChunk else left
  }

  /** How many bytes the server's current read still asks for. */
  function Wanted(cfg: Config, v: Server): int {
    match v.at
    case ReceivingLength => 4 - |v.word|
    case ReceivingName => v.message - v.position
    case ReceivingSize => 4 - |v.word|
    case ReceivingChunk => ChunkSize(cfg, v.left) - |v.chunk|
    case _ => 0
  }

  ghost predicate Enabled(cfg: Config, s: State, step: Step) {
    match step
    case ClientSends(k) =>
      && s.client.index < |cfg.todo| && Countable(cfg.todo[s.client.index])
      && 1 <= k <= |Outgoing(cfg.todo[s.client.index], s.client.at)| - s.client.position
      && |s.up| + k <= cfg.upCapacity
    case ClientReceives(k) =>
      s.client.at == AwaitingPermission && 1 <= k <= |s.down| && |s.client.reply| + k <= 4
    case ServerReceives(k) =>
      1 <= k <= |s.up| && k <= Wanted(cfg, s.server)
    case ServerSends(k) =>
      s.server.at == SendingPermission && 1 <= k && s.server.position + k <= 4 && |s.down| + k <= cfg.downCapacity
    case ServerOpens =>
      s.server.at == Opening
    case ServerWrites(k) =>
      && s.server.at == WritingChunk && 1 <= k && s.server.written + k <= |s.server.chunk|
      && s.server.name in s.files
  }

  function NextSend(at: ClientAt): ClientAt {
    match at
    case SendingLength => SendingName
    case SendingName => SendingSize
    case SendingSize => AwaitingPermission
    case _ => SendingLength
  }

  function AfterSend(c: Client, length: nat, k: nat): Client {
    if c.position + k < length then c.(position := c.position + k)
    else Client(if c.at == SendingData then c.index + 1 else c.index, NextSend(c.at), 0, [])
  }

  function AfterReply(c: Client, bs: seq<byte>): Client {
    if |c.reply + bs| < 4 then c.(reply := c.reply + bs)
    else c.(at := SendingData, position := 0, reply := [])
  }

  /** The server after a read returned `bs`. */
  function AfterRead(cfg: Config, v: Server, bs: seq<byte>): Server
    requires 1 <= |bs| <= Wanted(cfg, v)
  {
    match v.at
    case ReceivingLength =>
      var word := v.word + bs;
      if |word| < 4 then v.(word := word)
      else if DecodeInt32(word) < 1 then v.(at := Ended)
      else v.(at := ReceivingName, message := DecodeInt32(word), position := 0)
    case ReceivingName =>
      var v := v.(buffer := WriteAt(v.buffer, v.position, bs), position := v.position + |bs|);
      if v.position < v.message then v else v.(at := Opening)
    case ReceivingSize =>
      var word := v.word + bs;
      if |word| < 4 then v.(word := word)
      else v.(at := SendingPermission, message := DecodeInt32(word), position := 0)
    case ReceivingChunk =>
      var v := v.(chunk := v.chunk + bs);
      if |v.chunk| < ChunkSize(cfg, v.left) then v
      else v.(at := WritingChunk, left := v.left - |v.chunk|, written := 0)
  }

  function AfterPermission(v: Server, k: nat): Server {
    if v.position + k < 4 then v.(position := v.position + k)
    else if v.message < 1 then v.(at := Ended)
    else v.(at := ReceivingChunk, left := v.message, chunk := [])
  }

  function AfterWrite(v: Server, k: nat): Server {
    var v := v.(offset := v.offset + k, written := v.written + k);
    if v.written < |v.chunk| then v
    else if v.left > 0 then v.(at := ReceivingChunk, chunk := [])
    else v.(at := ReceivingLength, word := [], stored := v.stored + 1)
  }

  function Apply(cfg: Config, s: State, step: Step): State
    requires Enabled(cfg, s, step)
  {
    match step
    case ClientSends(k) =>
      var block := Outgoing(cfg.todo[s.client.index], s.client.at);
      s.(client := AfterSend(s.client, |block|, k),
         up := s.up + block[s.client.position..s.client.position + k])
    case ClientReceives(k) =>
      s.(client := AfterReply(s.client, s.down[..k]), down := s.down[k..])
    case ServerReceives(k) =>
      s.(server := AfterRead(cfg, s.server, s.up[..k]), up := s.up[k..])
    case ServerSends(k) =>
      s.(server := AfterPermission(s.server, k),
         down := s.down + EncodeInt32(GO_SEND)[s.server.position..s.server.position + k])
    case ServerOpens =>
      var name := CString(s.server.buffer);
      s.(server := s.server.(at := ReceivingSize, name := name, offset := 0, word := []),
         files := Opened(s.files, name), names := s.names + [name])
    case ServerWrites(k) =>
      var v := s.server;
      s.(server := AfterWrite(v, k),
         files := s.files[v.name := WriteAt(s.files[v.name], v.offset, v.chunk[v.written..v.written + k])])
  }

  // ---- Runs ----

  ghost predicate Legal(cfg: Config, s: State, steps: seq<Step>)
    decreases steps
  {
    steps == [] || (Enabled(cfg, s, steps[0]) && Legal(cfg, Apply(cfg, s, steps[0]), steps[1..]))
  }

  ghost function Run(cfg: Config, s: State, steps: seq<Step>): State
    requires Legal(cfg, s, steps)
    decreases steps
  {
    if steps == [] then s else Run(cfg, Apply(cfg, s, steps[0]), steps[1..])
  }

  // ---- What every reachable state looks like ----

  /** Bytes of the current image the client has sent. */
  function SentOf(t: Transfer, c: Client): nat {
    match c.at
    case SendingLength => c.position
    case SendingName => 4 + c.position
    case SendingSize => 5 + |t.name| + c.position
    case AwaitingPermission => 9 + |t.name|
    case SendingData => 9 + |t.name| + c.position
  }

  /** What the client has received of the permission for its current transfer. */
  function PermitSeen(c: Client): seq<byte> {
    if c.at == SendingData then EncodeInt32(GO_SEND) else c.reply
  }

  /** Bytes of the current image the server has taken from its socket, and of the permission it has sent. */
  function TakenOf(t: Transfer, v: Server): int {
    match v.at
    case ReceivingLength => |v.word|
    case ReceivingName => 4 + v.position
    case Opening => 5 + |t.name|
    case ReceivingSize => 5 + |t.name| + |v.word|
    case SendingPermission => 9 + |t.name|
    case ReceivingChunk => 9 + |t.name| + |t.data| - v.left + |v.chunk|
    case WritingChunk => 9 + |t.name| + |t.data| - v.left
    case Ended => 0
  }

  function PermitGiven(v: Server): (bs: seq<byte>)
    ensures |bs| <= 4
  {
    match v.at
    case SendingPermission => if v.position <= 4 then EncodeInt32(GO_SEND)[..v.position] else []
    case ReceivingChunk => EncodeInt32(GO_SEND)
    case WritingChunk => EncodeInt32(GO_SEND)
    case _ => []
  }

  predicate HasOpened(v: Server) {
    v.at in {ReceivingSize, SendingPermission, ReceivingChunk, WritingChunk}
  }

  ghost predicate ClientInv(cfg: Config, c: Client)
    requires cfg.Valid()
  {
    && c.index <= |cfg.todo|
    && (c.index == |cfg.todo| ==> c.at == SendingLength && c.position == 0)
    && (c.index < |cfg.todo| && c.at != AwaitingPermission ==> c.position < |Outgoing(cfg.todo[c.index], c.at)|)
    && (if c.at == AwaitingPermission then c.position == 0 && |c.reply| < 4 else c.reply == [])
  }

  /** The server is somewhere inside transfer `t`, all its locals as `t` demands. */
  ghost predicate ServerInside(cfg: Config, t: Transfer, v: Server)
    requires Transferable(t)
  {
    && |v.buffer| == BUF_LEN
    && (HasOpened(v) ==> v.name == t.name)
    && match v.at
       case ReceivingLength => |v.word| < 4 && v.word == EncodeInt32(|t.name| + 1)[..|v.word|]
       case ReceivingName =>
         v.message == |t.name| + 1 && v.position < v.message && v.buffer[..v.position] == (t.name + [0])[..v.position]
       case Opening => CString(v.buffer) == t.name
       case ReceivingSize => v.offset == 0 && |v.word| < 4 && v.word == EncodeInt32(|t.data|)[..|v.word|]
       case SendingPermission => v.offset == 0 && v.message == |t.data| && v.position < 4
       case ReceivingChunk =>
         && 0 < v.left <= |t.data| && v.offset == |t.data| - v.left && |v.chunk| < ChunkSize(cfg, v.left)
         && v.chunk == t.data[v.offset..v.offset + |v.chunk|]
       case WritingChunk =>
         && v.left + |v.chunk| <= |t.data| && v.written < |v.chunk|
         && v.offset == |t.data| - v.left - |v.chunk| + v.written
         && v.chunk == t.data[|t.data| - v.left - |v.chunk|..|t.data| - v.left]
       case Ended => false
  }

  ghost predicate ServerInv(cfg: Config, v: Server)
    requires cfg.Valid()
  {
    && v.stored <= |cfg.todo|
    && if v.stored < |cfg.todo| then ServerInside(cfg, cfg.todo[v.stored], v)
       else v.at == ReceivingLength && v.word == [] && |v.buffer| == BUF_LEN
  }

  ghost function SentNow(cfg: Config, c: Client): int
    requires AllTransferable(cfg.todo)
  {
    if c.index < |cfg.todo| then SentOf(cfg.todo[c.index], c) else 0
  }

  ghost function TakenNow(cfg: Config, v: Server): int
    requires AllTransferable(cfg.todo)
  {
    if v.stored < |cfg.todo| then TakenOf(cfg.todo[v.stored], v) else 0
  }

  ghost function Sent(cfg: Config, c: Client): seq<byte>
    requires cfg.Valid() && ClientInv(cfg, c)
  {
    Streams.Upto(Images(cfg.todo), c.index, SentNow(cfg, c))
  }

  ghost function Taken(cfg: Config, v: Server): seq<byte>
    requires cfg.Valid() && ServerInv(cfg, v)
  {
    Streams.Upto(Images(cfg.todo), v.stored, TakenNow(cfg, v))
  }

  /** Nothing is lost, added or reordered on the way to the server, nor on the way back. */
  ghost predicate ChannelInv(cfg: Config, s: State)
    requires cfg.Valid() && ClientInv(cfg, s.client) && ServerInv(cfg, s.server)
  {
    && Taken(cfg, s.server) + s.up == Sent(cfg, s.client)
    && Permissions(s.client.index) + PermitSeen(s.client) + s.down
       == Permissions(s.server.stored) + PermitGiven(s.server)
  }

  /** The finished transfers are stored, and of the current one the part written so far. */
  ghost predicate FilesInv(cfg: Config, v: Server, files: Files, names: seq<seq<byte>>)
    requires cfg.Valid() && ServerInv(cfg, v)
  {
    var stored := cfg.todo[..v.stored];
    if v.stored < |cfg.todo| && HasOpened(v) then
      var t := cfg.todo[v.stored];
      && v.offset <= |t.data|
      && files == Store(StoreAll(cfg.files, stored), Transfer(t.name, t.data[..v.offset]))
      && names == Names(stored) + [t.name]
    else
      files == StoreAll(cfg.files, stored) && names == Names(stored)
  }

  ghost predicate Inv(cfg: Config, s: State)
    requires cfg.Valid()
  {
    && ClientInv(cfg, s.client) && ServerInv(cfg, s.server) && ChannelInv(cfg, s)
    && FilesInv(cfg, s.server, s.files, s.names)
  }

  ghost predicate Finished(cfg: Config, s: State) {
    s.client.index == |cfg.todo| && s.server.stored == |cfg.todo|
  }
}
