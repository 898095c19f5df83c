/**
 A client having commands executed and the server thread passing them to Ned, interleaved at every system
 call over two bounded byte channels. Either end may see its connection fail at any moment, for good.
 */
module LuaProtocol {
  import opened Bytes
  import opened Wire
  import opened Streams

  datatype Config = Config(cmds: seq<seq<byte>>, upCapacity: nat, downCapacity: nat) {
    ghost predicate Valid() {
      upCapacity > 0 && downCapacity > 0 && AllSendable(cmds)
    }
  }

  // ---- The two processes ----

  datatype ClientAt = SendingLength | SendingString | AwaitingReply

  /** `results` are the replies the calls so far returned; the current call is the one after them. */
  datatype Client = Client(at: ClientAt, position: nat, reply: seq<byte>, results: seq<int>, broken: bool)

  datatype ServerAt = ReceivingLength | ReceivingString | Executing | Answering | Ended

  datatype Server = Server(at: ServerAt, position: nat, word: seq<byte>, message: int, buffer: seq<byte>, closed: bool)

  /** `heard` and `verdicts` are what Ned was given and what it said. */
  datatype State = State(client: Client, server: Server, up: seq<byte>, down: seq<byte>,
                         heard: seq<seq<byte>>, verdicts: seq<bool>)

  ghost predicate Initial(s: State) {
    && s.client == Client(SendingLength, 0, [], [], false)
    && s.server.at == ReceivingLength && s.server.word == [] && |s.server.buffer| == BUF_LEN && !s.server.closed
    && s.up == [] && s.down == [] && s.heard == [] && s.verdicts == []
  }

  // ---- Steps ----

  datatype Step = ClientSends(k: nat) | ClientReceives(k: nat) | ClientFails
                | ServerReceives(k: nat) | ServerExecutes(ok: bool) | ServerAnswers(k: nat) | ServerFails

  function Outgoing(cmd: seq<byte>, at: ClientAt): seq<byte>
    requires IsInt32(|cmd| + 1)
  {
    match at
    case SendingLength => EncodeInt32(|cmd| + 1)
    case SendingString => cmd + [0]
    case AwaitingReply => []
  }

  function Wanted(v: Server): int {
    match v.at
    case ReceivingLength => 4 - |v.word|
    case ReceivingString => v.message - v.position
    case _ => 0
  }

  ghost predicate Enabled(cfg: Config, s: State, step: Step) {
    var c, v := s.client, s.server;
    match step
    case ClientSends(k) =>
      && !c.broken && |c.results| < |cfg.cmds| && IsInt32(|cfg.cmds[|c.results|]| + 1)
      && 1 <= k <= |Outgoing(cfg.cmds[|c.results|], c.at)| - c.position && |s.up| + k <= cfg.upCapacity
    case ClientReceives(k) =>
      !c.broken && c.at == AwaitingReply && 1 <= k <= |s.down| && |c.reply| + k <= 4
    case ClientFails => !c.broken
    case ServerReceives(k) => !v.closed && 1 <= k <= |s.up| && k <= Wanted(v)
    case ServerExecutes(ok) => !v.closed && v.at == Executing
    case ServerAnswers(k) =>
      && !v.closed && v.at == Answering && IsInt32(v.message)
      && 1 <= k && v.position + k <= 4 && |s.down| + k <= cfg.downCapacity
    case ServerFails => !v.closed
  }

  function AfterSend(c: Client, length: nat, k: nat): Client {
    if c.position + k < length then c.(position := c.position + k)
    else c.(at := if c.at == SendingLength then SendingString else AwaitingReply, position := 0, reply := [])
  }

  function AfterReply(c: Client, bs: seq<byte>): Client {
    var reply := c.reply + bs;
    if |reply| != 4 then c.(reply := reply)
    else c.(at := SendingLength, position := 0, reply := [], results := c.results + [DecodeInt32(reply)])
  }

  function AfterRead(v: Server, bs: seq<byte>): Server
    requires 1 <= |bs| <= Wanted(v)
  {
    if v.at == ReceivingLength then
      var word := v.word + bs;
      if |word| < 4 then v.(word := word)
      else if DecodeInt32(word) < 1 then v.(at := Ended)
      else v.(at := ReceivingString, message := DecodeInt32(word), position := 0)
    else
      var v := v.(buffer := WriteAt(v.buffer, v.position, bs), position := v.position + |bs|);
      if v.position < v.message then v else v.(at := Executing)
  }

  function AfterAnswer(v: Server, k: nat): Server {
    if v.position + k < 4 then v.(position := v.position + k) else v.(at := ReceivingLength, word := [])
  }

  function Apply(cfg: Config, s: State, step: Step): State
    requires Enabled(cfg, s, step)
  {
    var c, v := s.client, s.server;
    match step
    case ClientSends(k) =>
      var block := Outgoing(cfg.cmds[|c.results|], c.at);
      s.(client := AfterSend(c, |block|, k), up := s.up + block[c.position..c.position + k])
    case ClientReceives(k) => s.(client := AfterReply(c, s.down[..k]), down := s.down[k..])
    case ClientFails => s.(client := c.(broken := true))
    case ServerReceives(k) => s.(server := AfterRead(v, s.up[..k]), up := s.up[k..])
    case ServerExecutes(ok) =>
      s.(server := v.(at := Answering, message := Code(ok), position := 0),
         heard := s.heard + [CString(v.buffer)], verdicts := s.verdicts + [ok])
    case ServerAnswers(k) =>
      s.(server := AfterAnswer(v, k), down := s.down + EncodeInt32(v.message)[v.position..v.position + k])
    case ServerFails => s.(server := v.(closed := true))
  }

  ghost predicate Legal(cfg: Config, s: State, steps: seq<Step>)
    decreases steps
  {
    steps == [] || (Enabled(cfg, s, steps[0]) && Legal(cfg, Apply(cfg, s, steps[0]), steps[1..]))
  }

  ghost function Run(cfg: Config, s: State, steps: seq<Step>): State
    requires Legal(cfg, s, steps)
    decreases steps
  {
    if steps == [] then s else Run(cfg, Apply(cfg, s, steps[0]), steps[1..])
  }

  // ---- What every reachable state looks like ----

  function SentOf(cmd: seq<byte>, c: Client): nat {
    match c.at
    case SendingLength => c.position
    case SendingString => 4 + c.position
    case AwaitingReply => 5 + |cmd|
  }

  function TakenOf(cmd: seq<byte>, v: Server): nat {
    match v.at
    case ReceivingLength => |v.word|
    case ReceivingString => 4 + v.position
    case _ => 5 + |cmd|
  }

  /** The command the server is serving: the last one heard while its answer is being sent. */
  function Serving(s: State): int {
    if s.server.at == Answering then |s.heard| - 1 else |s.heard|
  }

  /** What has been sent of the answer to the command being served. */
  function Given(v: Server): (bs: seq<byte>)
    ensures |bs| <= 4
  {
    if v.at == Answering && v.position <= 4 && -0x8000_0000 <= v.message < 0x8000_0000
    then EncodeInt32(v.message)[..v.position] else []
  }

  ghost predicate ClientInv(cfg: Config, c: Client)
    requires cfg.Valid()
  {
    && |c.results| <= |cfg.cmds|
    && (|c.results| == |cfg.cmds| ==> c.at == SendingLength && c.position == 0)
    && (|c.results| < |cfg.cmds| && c.at != AwaitingReply ==> c.position < |Outgoing(cfg.cmds[|c.results|], c.at)|)
    && (if c.at == AwaitingReply then |c.reply| < 4 else c.reply == [])
  }

  ghost predicate ServerInside(cmd: seq<byte>, v: Server)
    requires Sendable(cmd)
  {
    && |v.buffer| == BUF_LEN
    && match v.at
       case ReceivingLength => |v.word| < 4 && v.word == EncodeInt32(|cmd| + 1)[..|v.word|]
       case ReceivingString =>
         v.message == |cmd| + 1 && v.position < v.message && v.buffer[..v.position] == (cmd + [0])[..v.position]
       case Executing => CString(v.buffer) == cmd
       case Answering => v.position < 4
       case Ended => false
  }

  ghost predicate ServerInv(cfg: Config, s: State)
    requires cfg.Valid()
  {
    && 0 <= Serving(s) <= |cfg.cmds| && |s.heard| <= |cfg.cmds|
    && s.heard == cfg.cmds[..|s.heard|] && |s.verdicts| == |s.heard|
    && (s.server.at == Answering ==> s.server.message == Code(s.verdicts[|s.verdicts| - 1]))
    && if Serving(s) < |cfg.cmds| then ServerInside(cfg.cmds[Serving(s)], s.server)
       else s.server.at == ReceivingLength && s.server.word == [] && |s.server.buffer| == BUF_LEN
  }

  ghost function SentNow(cfg: Config, c: Client): int {
    if |c.results| < |cfg.cmds| then SentOf(cfg.cmds[|c.results|], c) else 0
  }

  ghost function TakenNow(cfg: Config, s: State): int {
    if 0 <= Serving(s) < |cfg.cmds| then TakenOf(cfg.cmds[Serving(s)], s.server) else 0
  }

  ghost predicate ChannelInv(cfg: Config, s: State)
    requires cfg.Valid() && ClientInv(cfg, s.client) && ServerInv(cfg, s)
  {
    && Upto(Frames(cfg.cmds), Serving(s), TakenNow(cfg, s)) + s.up
       == Upto(Frames(cfg.cmds), |s.client.results|, SentNow(cfg, s.client))
    && |s.client.results| <= |s.verdicts|
    && Answers(s.verdicts[..|s.client.results|]) + (s.client.reply + s.down)
       == Answers(s.verdicts[..Serving(s)]) + Given(s.server)
  }

  /** The n-th call of the client returned Ned's verdict on the n-th command. */
  ghost predicate ResultsInv(results: seq<int>, verdicts: seq<bool>) {
    |results| <= |verdicts| && forall n :: 0 <= n < |results| ==> results[n] == Code(verdicts[n])
  }

  ghost predicate Inv(cfg: Config, s: State)
    requires cfg.Valid()
  {
    && ClientInv(cfg, s.client) && ServerInv(cfg, s) && ChannelInv(cfg, s) && ResultsInv(s.client.results, s.verdicts)
  }

  ghost predicate Finished(cfg: Config, s: State) {
    |s.client.results| == |cfg.cmds|
  }
}
