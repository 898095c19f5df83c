/**
 The Lua protocol end to end: what Ned heard and what the client was told after any interleaving and any
 failure, and that without failures every interleaving finishes.
 */
module LuaCompletion {
  import opened Bytes
  import opened Wire
  import opened Streams
  import opened LuaProtocol

  lemma InitialInv(cfg: Config, s: State)
    requires cfg.Valid() && Initial(s)
    ensures Inv(cfg, s)
  {
    hide Counted;
    assert cfg.cmds[..0] == [] && s.verdicts[..0] == [];
  }

  // ---- Positions ----

  lemma Positions(cfg: Config, s: State)
    requires cfg.Valid() && ClientInv(cfg, s.client) && ServerInv(cfg, s)
    ensures Position(Frames(cfg.cmds), |s.client.results|, SentNow(cfg, s.client))
    ensures Position(Frames(cfg.cmds), Serving(s), TakenNow(cfg, s))
    ensures |s.client.results| < |cfg.cmds| && s.client.at != AwaitingReply ==>
              SentNow(cfg, s.client) < |Frames(cfg.cmds)[|s.client.results|]|
    ensures s.client.at == AwaitingReply ==>
              |s.client.results| < |cfg.cmds| && SentNow(cfg, s.client) == |Frames(cfg.cmds)[|s.client.results|]|
    ensures Serving(s) < |cfg.cmds| && s.server.at in {ReceivingLength, ReceivingString} ==>
              TakenNow(cfg, s) < |Frames(cfg.cmds)[Serving(s)]|
    ensures s.server.at in {Executing, Answering} ==>
              Serving(s) < |cfg.cmds| && TakenNow(cfg, s) == |Frames(cfg.cmds)[Serving(s)]|
  {
    hide EncodeInt32, CString, Counted;
  }

  lemma {:induction false} AnswersLength(verdicts: seq<bool>)
    ensures |Answers(verdicts)| == 4 * |verdicts|
  {
    if verdicts != [] {
      AnswersLength(verdicts[..|verdicts| - 1]);
    }
  }

  lemma AnswersSnoc(verdicts: seq<bool>, n: nat)
    requires n < |verdicts|
    ensures Answers(verdicts[..n + 1]) == Answers(verdicts[..n]) + Answer(verdicts[n])
  {
    assert verdicts[..n + 1][..n] == verdicts[..n];
  }

  /** The channel equations, counted. */
  lemma ChannelCounts(cfg: Config, s: State)
    requires cfg.Valid() && Inv(cfg, s)
    ensures |Upto(Frames(cfg.cmds), Serving(s), TakenNow(cfg, s))| + |s.up|
         == |Upto(Frames(cfg.cmds), |s.client.results|, SentNow(cfg, s.client))|
    ensures 4 * |s.client.results| + |s.client.reply| + |s.down| == 4 * Serving(s) + |Given(s.server)|
  {
    hide Upto, Frames, SentNow, TakenNow, ServerInside, Answers, Given, Answer;
    AnswersLength(s.verdicts[..|s.client.results|]);
    AnswersLength(s.verdicts[..Serving(s)]);
  }

  /** The server serves the client's current command, or has answered it and waits for the next. */
  lemma AtMostOneAhead(cfg: Config, s: State)
    requires cfg.Valid() && Inv(cfg, s)
    ensures |s.client.results| <= Serving(s) <= |s.client.results| + 1
    ensures Serving(s) == |s.client.results| + 1 ==> s.client.at == AwaitingReply && s.up == []
    ensures s.server.at != Answering ==> Given(s.server) == []
    ensures |Given(s.server)| < 4
    ensures Serving(s) == |s.client.results| ==>
              |Upto(Frames(cfg.cmds), Serving(s), TakenNow(cfg, s))| + |s.up|
              == |Upto(Frames(cfg.cmds), Serving(s), SentNow(cfg, s.client))|
  {
    hide Frames, Upto, SentNow, TakenNow, Answers, Answer, EncodeInt32, CString;
    var blocks, i, j := Frames(cfg.cmds), |s.client.results|, Serving(s);
    Positions(cfg, s);
    ChannelCounts(cfg, s);
    assert |Given(s.server)| < 4;
    if i < j {
      UptoOrdered(blocks, i, SentNow(cfg, s.client), j, TakenNow(cfg, s));
      if i + 1 < j {
        UptoNext(blocks, i);
        UptoGrows(blocks, i, SentNow(cfg, s.client), |blocks[i]| - SentNow(cfg, s.client));
        UptoOrdered(blocks, i + 1, 0, j, TakenNow(cfg, s));
      }
    }
  }

  // ---- Steps keep the invariant ----

  lemma SendIsNextOfFrame(cmd: seq<byte>, c: Client, k: nat)
    requires Sendable(cmd) && 1 <= k && c.position + k <= |Outgoing(cmd, c.at)|
    ensures c.at != AwaitingReply && SentOf(cmd, c) + k <= |Counted(cmd)|
    ensures Counted(cmd)[SentOf(cmd, c)..SentOf(cmd, c) + k] == Outgoing(cmd, c.at)[c.position..c.position + k]
    ensures SentOf(cmd, AfterSend(c, |Outgoing(cmd, c.at)|, k)) == SentOf(cmd, c) + k
  {
    assert Counted(cmd) == EncodeInt32(|cmd| + 1) + (cmd + [0]);
  }

  lemma BlockNotEmpty(cmd: seq<byte>, at: ClientAt)
    requires Sendable(cmd)
    ensures at != AwaitingReply ==> Outgoing(cmd, at) != []
  {
  }

  lemma ClientSendsKeepsInv(cfg: Config, s: State, k: nat)
    requires cfg.Valid() && Inv(cfg, s) && Enabled(cfg, s, ClientSends(k))
    ensures Inv(cfg, Apply(cfg, s, ClientSends(k)))
  {
    hide Frames, Upto, EncodeInt32, Answers, ServerInside, SentOf, TakenOf, Counted, CString, ResultsInv,
         Outgoing, Given;
    var c := s.client;
    var cmd := cfg.cmds[|c.results|];
    SendIsNextOfFrame(cmd, c, k);
    UptoGrows(Frames(cfg.cmds), |c.results|, SentOf(cmd, c), k);
    BlockNotEmpty(cmd, Apply(cfg, s, ClientSends(k)).client.at);
  }

  lemma ReplyIsVerdict(cfg: Config, s: State, k: nat)
    requires cfg.Valid() && Inv(cfg, s) && Enabled(cfg, s, ClientReceives(k)) && |s.client.reply| + k == 4
    ensures var i := |s.client.results|;
            && Serving(s) == i + 1 && s.client.reply + s.down[..k] == Answer(s.verdicts[i])
            && s.down[k..] == Given(s.server)
            && Answers(s.verdicts[..i + 1]) + ([] + s.down[k..]) == Answers(s.verdicts[..Serving(s)]) + Given(s.server)
  {
    hide Frames, Upto, EncodeInt32, Answers, Answer, Given, ServerInside, SentNow, TakenNow, Counted;
    var i := |s.client.results|;
    AtMostOneAhead(cfg, s);
    ChannelCounts(cfg, s);
    AnswersSnoc(s.verdicts, i);
    var answer, back := Answer(s.verdicts[i]), s.client.reply + s.down;
    assert Answers(s.verdicts[..i]) + answer + Given(s.server) == Answers(s.verdicts[..i]) + (answer + Given(s.server));
    CancelPrefix(Answers(s.verdicts[..i]), back, answer + Given(s.server));
    assert s.client.reply + s.down[..k] == back[..4] == answer;
    assert s.down[k..] == back[4..] == Given(s.server);
    assert [] + s.down[k..] == s.down[k..];
  }

  lemma ClientReceivesKeepsInv(cfg: Config, s: State, k: nat)
    requires cfg.Valid() && Inv(cfg, s) && Enabled(cfg, s, ClientReceives(k))
    ensures Inv(cfg, Apply(cfg, s, ClientReceives(k)))
  {
    hide Frames, Upto, EncodeInt32, DecodeInt32, Answers, Given, ServerInside, TakenOf, Counted, Answer;
    var c := s.client;
    assert c.reply + s.down[..k] + s.down[k..] == c.reply + s.down;
    AtMostOneAhead(cfg, s);
    Positions(cfg, s);
    if |c.reply| + k == 4 {
      ReplyIsVerdict(cfg, s, k);
      UptoNext(Frames(cfg.cmds), |c.results|);
      FreshClient(cfg, AfterReply(c, s.down[..k]));
    }
  }

  lemma FreshClient(cfg: Config, c: Client)
    requires cfg.Valid() && |c.results| <= |cfg.cmds| && c.at == SendingLength && c.position == 0 && c.reply == []
    ensures ClientInv(cfg, c) && SentNow(cfg, c) == 0
  {
  }

  ghost predicate ReadAdvances(cmd: seq<byte>, v: Server, v': Server, k: nat)
    requires Sendable(cmd)
  {
    ServerInside(cmd, v') && TakenOf(cmd, v') == TakenOf(cmd, v) + k && v'.at !in {Answering, Ended}
  }

  lemma ReadLengthKeepsServer(cmd: seq<byte>, v: Server, bs: seq<byte>)
    requires Sendable(cmd) && ServerInside(cmd, v) && v.at == ReceivingLength && 1 <= |bs| <= Wanted(v)
    requires bs == EncodeInt32(|cmd| + 1)[|v.word|..|v.word| + |bs|]
    ensures ReadAdvances(cmd, v, AfterRead(v, bs), |bs|)
  {
    Int32RoundTrip(|cmd| + 1);
    hide EncodeInt32, DecodeInt32, WriteAt, CString;
    Glue(EncodeInt32(|cmd| + 1), 0, |v.word|, |v.word| + |bs|);
  }

  lemma ReadStringKeepsServer(cmd: seq<byte>, v: Server, bs: seq<byte>)
    requires Sendable(cmd) && ServerInside(cmd, v) && v.at == ReceivingString && 1 <= |bs| <= Wanted(v)
    requires bs == (cmd + [0])[v.position..v.position + |bs|]
    ensures ReadAdvances(cmd, v, AfterRead(v, bs), |bs|)
  {
    hide EncodeInt32, DecodeInt32, WriteAt, CString;
    var whole, buffer, position := cmd + [0], WriteAt(v.buffer, v.position, bs), v.position + |bs|;
    assert buffer[v.position..position] == bs;
    assert buffer[..v.position] == v.buffer[..v.position];
    assert buffer[..position] == whole[..position];
    if position == |whole| {
      assert buffer == cmd + [0] + buffer[position..];
      CStringOfTerminated(cmd, buffer[position..]);
    }
  }

  lemma ReadKeepsServer(cmd: seq<byte>, v: Server, bs: seq<byte>)
    requires Sendable(cmd) && ServerInside(cmd, v) && 1 <= |bs| <= Wanted(v)
    requires TakenOf(cmd, v) + |bs| <= |Counted(cmd)|
    requires bs == Counted(cmd)[TakenOf(cmd, v)..TakenOf(cmd, v) + |bs|]
    ensures ReadAdvances(cmd, v, AfterRead(v, bs), |bs|)
  {
    hide EncodeInt32, DecodeInt32, CString, AfterRead, ReadAdvances;
    assert Counted(cmd) == EncodeInt32(|cmd| + 1) + (cmd + [0]);
    if v.at == ReceivingLength {
      ReadLengthKeepsServer(cmd, v, bs);
    } else {
      ReadStringKeepsServer(cmd, v, bs);
    }
  }

  lemma WantedIsInside(cmd: seq<byte>, v: Server)
    requires Sendable(cmd) && ServerInside(cmd, v)
    ensures TakenOf(cmd, v) + Wanted(v) <= |Counted(cmd)|
  {
    hide EncodeInt32;
  }

  lemma ServerReceivesKeepsInv(cfg: Config, s: State, k: nat)
    requires cfg.Valid() && Inv(cfg, s) && Enabled(cfg, s, ServerReceives(k))
    ensures Inv(cfg, Apply(cfg, s, ServerReceives(k)))
  {
    hide Frames, Upto, EncodeInt32, Answers, Answer, ServerInside, SentNow, TakenOf, Counted, AfterRead, CString;
    var j := Serving(s);
    Positions(cfg, s);
    if j < |cfg.cmds| {
      WantedIsInside(cfg.cmds[j], s.server);
    }
    NextInFlight(Frames(cfg.cmds), |s.client.results|, SentNow(cfg, s.client), j, TakenNow(cfg, s), s.up, k);
    ReadKeepsServer(cfg.cmds[j], s.server, s.up[..k]);
  }

  lemma ServerExecutesKeepsInv(cfg: Config, s: State, ok: bool)
    requires cfg.Valid() && Inv(cfg, s) && Enabled(cfg, s, ServerExecutes(ok))
    ensures Inv(cfg, Apply(cfg, s, ServerExecutes(ok)))
  {
    hide Frames, Upto, EncodeInt32, Answers, Answer, SentNow, Counted, CString;
    var s' := Apply(cfg, s, ServerExecutes(ok));
    AtMostOneAhead(cfg, s);
    assert s'.verdicts[..|s.verdicts|] == s.verdicts == s.verdicts[..|s.heard|];
    assert s'.verdicts[..|s.client.results|] == s.verdicts[..|s.client.results|];
    assert s'.heard == cfg.cmds[..|s.heard| + 1];
    assert Given(s'.server) == [] == Given(s.server);
  }

  lemma AnswerGrows(v: Server, k: nat)
    requires v.at == Answering && IsInt32(v.message) && 1 <= k && v.position + k <= 4
    ensures var part := EncodeInt32(v.message)[v.position..v.position + k];
            if v.position + k < 4 then Given(AfterAnswer(v, k)) == Given(v) + part
            else Given(v) + part == EncodeInt32(v.message) && Given(AfterAnswer(v, k)) == []
  {
    hide EncodeInt32;
    var answer := EncodeInt32(v.message);
    assert answer[..v.position] + answer[v.position..v.position + k] == answer[..v.position + k];
    assert answer[..4] == answer;
  }

  /** The bytes put on the way back are the next of the answers. */
  lemma AnswerExtends(cfg: Config, s: State, k: nat)
    requires cfg.Valid() && Inv(cfg, s) && Enabled(cfg, s, ServerAnswers(k))
    ensures var s' := Apply(cfg, s, ServerAnswers(k));
            && |s.client.results| <= Serving(s') <= |s.verdicts|
            && Answers(s.verdicts[..|s.client.results|]) + (s.client.reply + s'.down)
               == Answers(s.verdicts[..Serving(s')]) + Given(s'.server)
  {
    hide Frames, Upto, EncodeInt32, Answers, SentNow, TakenNow, Counted, CString, Given, ServerInside, ClientInv;
    var v, j := s.server, Serving(s);
    AtMostOneAhead(cfg, s);
    AnswerGrows(v, k);
    var part := EncodeInt32(v.message)[v.position..v.position + k];
    var seen, done := Answers(s.verdicts[..|s.client.results|]), Answers(s.verdicts[..j]);
    assert seen + (s.client.reply + (s.down + part)) == seen + (s.client.reply + s.down) + part;
    assert done + Given(v) + part == done + (Given(v) + part);
    if v.position + k == 4 {
      AnswersSnoc(s.verdicts, j);
      assert Answers(s.verdicts[..j + 1]) + [] == Answers(s.verdicts[..j + 1]);
    }
  }

  lemma ServerAnswersKeepsInv(cfg: Config, s: State, k: nat)
    requires cfg.Valid() && Inv(cfg, s) && Enabled(cfg, s, ServerAnswers(k))
    ensures Inv(cfg, Apply(cfg, s, ServerAnswers(k)))
  {
    hide Frames, Upto, EncodeInt32, Answers, SentNow, Counted, CString, Given, ClientInv;
    AnswerExtends(cfg, s, k);
    Positions(cfg, s);
    UptoNext(Frames(cfg.cmds), Serving(s));
  }

  lemma StepKeepsInv(cfg: Config, s: State, step: Step)
    requires cfg.Valid() && Inv(cfg, s) && Enabled(cfg, s, step)
    ensures Inv(cfg, Apply(cfg, s, step))
  {
    hide Inv, Enabled, Apply;
    match step
    case ClientSends(k) => ClientSendsKeepsInv(cfg, s, k);
    case ClientReceives(k) => ClientReceivesKeepsInv(cfg, s, k);
    case ServerReceives(k) => ServerReceivesKeepsInv(cfg, s, k);
    case ServerExecutes(ok) => ServerExecutesKeepsInv(cfg, s, ok);
    case ServerAnswers(k) => ServerAnswersKeepsInv(cfg, s, k);
    case ClientFails => FailureKeepsInv(cfg, s, step);
    case ServerFails => FailureKeepsInv(cfg, s, step);
  }

  lemma FailureKeepsInv(cfg: Config, s: State, step: Step)
    requires cfg.Valid() && Inv(cfg, s) && Enabled(cfg, s, step) && (step.ClientFails? || step.ServerFails?)
    ensures Inv(cfg, Apply(cfg, s, step))
  {
    hide Frames, Upto, EncodeInt32, Answers, Counted, CString;
  }

  lemma {:induction false} RunKeepsInv(cfg: Config, s: State, steps: seq<Step>)
    requires cfg.Valid() && Inv(cfg, s) && Legal(cfg, s, steps)
    ensures Inv(cfg, Run(cfg, s, steps))
    decreases steps
  {
    hide Inv, Enabled, Apply;
    if steps != [] {
      StepKeepsInv(cfg, s, steps[0]);
      RunKeepsInv(cfg, Apply(cfg, s, steps[0]), steps[1..]);
    }
  }

  // ---- Safety, whatever fails ----

  /** However the calls interleave and wherever the connection breaks: Ned heard a prefix of the commands,
      each whole and none merged; every result the client got is the verdict on the command of the same
      number; and at most the last command heard is still unanswered. */
  lemma EveryReachableState(cfg: Config, s0: State, steps: seq<Step>)
    requires cfg.Valid() && Initial(s0) && Legal(cfg, s0, steps)
    ensures var s := Run(cfg, s0, steps);
            && s.heard <= cfg.cmds && |s.verdicts| == |s.heard|
            && |s.client.results| <= |s.heard| <= |s.client.results| + 1
            && forall n :: 0 <= n < |s.client.results| ==>
                 s.client.results[n] == if s.verdicts[n] then 0x10A900D else 0x10ABAD
  {
    hide Initial, Legal, Run, Frames, Upto, Answers;
    InitialInv(cfg, s0);
    RunKeepsInv(cfg, s0, steps);
    var s := Run(cfg, s0, steps);
    AtMostOneAhead(cfg, s);
    ChannelCounts(cfg, s);
    UnansweredIsLast(cfg, s);
  }

  lemma UnansweredIsLast(cfg: Config, s: State)
    requires cfg.Valid() && Inv(cfg, s)
    ensures |s.heard| <= |s.client.results| + 1
  {
    hide Frames, Upto, Answers, Answer, EncodeInt32, CString, Counted, TakenOf, SentOf;
    AtMostOneAhead(cfg, s);
    if s.server.at == Answering && Serving(s) == |s.client.results| + 1 {
      Positions(cfg, s);
      ChannelCounts(cfg, s);
      var blocks, i := Frames(cfg.cmds), |s.client.results|;
      UptoNext(blocks, i);
      UptoGrows(blocks, i + 1, 0, |blocks[i + 1]|);
      assert false;
    }
  }

  // ---- No deadlock, and every run finishes ----

  ghost predicate Connected(s: State) {
    !s.client.broken && !s.server.closed
  }

  /** With nothing in flight to the server and the server reading, the client can move. */
  lemma ClientCanStep(cfg: Config, s: State) returns (step: Step)
    requires cfg.Valid() && Inv(cfg, s) && Connected(s) && !Finished(cfg, s)
    requires s.up == [] && s.server.at in {ReceivingLength, ReceivingString}
    ensures Enabled(cfg, s, step) && !step.ClientFails? && !step.ServerFails?
  {
    hide Frames, EncodeInt32, Answers, Counted, CString, Flat, TakenOf, SentOf;
    AtMostOneAhead(cfg, s);
    Positions(cfg, s);
    ChannelCounts(cfg, s);
    if s.client.at == AwaitingReply {
      step := ClientReceives(1);
    } else {
      step := ClientSends(1);
    }
  }

  lemma AnswerCanMove(cfg: Config, s: State) returns (step: Step)
    requires cfg.Valid() && Inv(cfg, s) && Connected(s) && s.server.at == Answering
    ensures Enabled(cfg, s, step) && !step.ClientFails? && !step.ServerFails?
  {
    hide Frames, EncodeInt32, Answers, Counted, CString, Flat, TakenOf, SentOf;
    if |s.down| < cfg.downCapacity {
      step := ServerAnswers(1);
    } else {
      AtMostOneAhead(cfg, s);
      Positions(cfg, s);
      ChannelCounts(cfg, s);
      step := ClientReceives(1);
    }
  }

  lemma BytesCanBeRead(cfg: Config, s: State)
    requires cfg.Valid() && Inv(cfg, s) && s.up != [] && s.server.at in {ReceivingLength, ReceivingString}
    ensures 1 <= Wanted(s.server)
  {
    hide Frames, EncodeInt32, Answers, Counted, CString, Flat;
  }

  /** Whatever the capacities, while the connection lives and a call is outstanding somebody can move. */
  lemma NoDeadlock(cfg: Config, s: State) returns (step: Step)
    requires cfg.Valid() && Inv(cfg, s) && Connected(s) && !Finished(cfg, s)
    ensures Enabled(cfg, s, step) && !step.ClientFails? && !step.ServerFails?
  {
    hide Inv, Finished;
    assert s.server.at != Ended by { NeverEnded(cfg, s); }
    if s.server.at == Executing {
      step := ServerExecutes(true);
    } else if s.server.at == Answering {
      step := AnswerCanMove(cfg, s);
    } else if s.up != [] {
      BytesCanBeRead(cfg, s);
      step := ServerReceives(1);
    } else {
      step := ClientCanStep(cfg, s);
    }
  }

  lemma NeverEnded(cfg: Config, s: State)
    requires cfg.Valid() && Inv(cfg, s)
    ensures s.server.at != Ended
  {
  }

  /** Everything done so far: bytes sent and taken in both directions, commands heard. */
  ghost function Done(cfg: Config, s: State): nat
    requires cfg.Valid() && Inv(cfg, s)
  {
    |Upto(Frames(cfg.cmds), |s.client.results|, SentNow(cfg, s.client))|
    + |Upto(Frames(cfg.cmds), Serving(s), TakenNow(cfg, s))|
    + 4 * |s.client.results| + |s.client.reply| + 4 * Serving(s) + |Given(s.server)| + |s.heard|
  }

  ghost function AllThereIs(cfg: Config): nat
    requires cfg.Valid()
  {
    2 * |LuaStream(cfg.cmds)| + 9 * |cfg.cmds|
  }

  function Amount(step: Step): nat {
    match step
    case ClientSends(k) => k
    case ClientReceives(k) => k
    case ServerReceives(k) => k
    case ServerAnswers(k) => k
    case ServerExecutes(_) => 1
    case _ => 0
  }

  /** A step adds its own amount to one of the counts that the channel equations tie together, and leaves
      the other end's counts alone. */
  lemma StepAdvances(cfg: Config, s: State, step: Step)
    requires cfg.Valid() && Inv(cfg, s) && Enabled(cfg, s, step)
    ensures Inv(cfg, Apply(cfg, s, step))
    ensures Done(cfg, Apply(cfg, s, step)) == Done(cfg, s) + Amount(step)
    ensures !step.ClientFails? && !step.ServerFails? ==> Amount(step) >= 1
  {
    hide Frames, Upto, EncodeInt32, DecodeInt32, Answers, Counted, CString, WriteAt, Inv, Outgoing, Wanted,
         AfterSend, AfterReply, AfterRead, AfterAnswer, SentNow, TakenOf, Given;
    StepKeepsInv(cfg, s, step);
    ChannelCounts(cfg, s);
    ChannelCounts(cfg, Apply(cfg, s, step));
  }

  lemma StaysConnected(cfg: Config, s: State, step: Step)
    requires Enabled(cfg, s, step) && Connected(s) && !step.ClientFails? && !step.ServerFails?
    ensures Connected(Apply(cfg, s, step))
  {
  }

  lemma DoneIsBounded(cfg: Config, s: State)
    requires cfg.Valid() && Inv(cfg, s)
    ensures Done(cfg, s) <= AllThereIs(cfg)
  {
    hide Upto, EncodeInt32, Answers, Counted, LuaStream, Flat, Frames, TakenNow, SentNow, ServerInside;
    Positions(cfg, s);
    ChannelCounts(cfg, s);
    UptoPrefix(Frames(cfg.cmds), |s.client.results|, SentNow(cfg, s.client));
    StreamOfFrames(cfg.cmds);
    assert 4 * Serving(s) + |Given(s.server)| <= 4 * |cfg.cmds|;
  }

  ghost predicate FailureFree(steps: seq<Step>) {
    forall i :: 0 <= i < |steps| ==> !steps[i].ClientFails? && !steps[i].ServerFails?
  }

  lemma {:induction false} RunAdvances(cfg: Config, s: State, steps: seq<Step>)
    requires cfg.Valid() && Inv(cfg, s) && Legal(cfg, s, steps) && Connected(s) && FailureFree(steps)
    ensures Inv(cfg, Run(cfg, s, steps)) && Connected(Run(cfg, s, steps))
    ensures Done(cfg, s) + |steps| <= Done(cfg, Run(cfg, s, steps))
    decreases steps
  {
    hide Inv, Enabled, Apply, Done, Amount;
    if steps != [] {
      StepAdvances(cfg, s, steps[0]);
      StaysConnected(cfg, s, steps[0]);
      RunAdvances(cfg, Apply(cfg, s, steps[0]), steps[1..]);
    }
  }

  /** Without failures no run is longer than all the work there is, and one that only a failure could continue
      has had every command heard, in order, and every verdict reported. */
  lemma EveryFailureFreeRunCompletes(cfg: Config, s0: State, steps: seq<Step>)
    requires cfg.Valid() && Initial(s0) && Legal(cfg, s0, steps) && FailureFree(steps)
    ensures |steps| <= AllThereIs(cfg)
    ensures var s := Run(cfg, s0, steps);
            (forall step :: Enabled(cfg, s, step) ==> step.ClientFails? || step.ServerFails?) ==>
              s.heard == cfg.cmds && |s.client.results| == |cfg.cmds|
  {
    hide Inv, Enabled, Apply, Done, AllThereIs, Finished;
    InitialInv(cfg, s0);
    RunAdvances(cfg, s0, steps);
    var s := Run(cfg, s0, steps);
    DoneIsBounded(cfg, s);
    if forall step :: Enabled(cfg, s, step) ==> step.ClientFails? || step.ServerFails? {
      if !Finished(cfg, s) {
        var step := NoDeadlock(cfg, s);
        assert false;
      }
      AllAnswered(cfg, s);
    }
  }

  lemma AllAnswered(cfg: Config, s: State)
    requires cfg.Valid() && Inv(cfg, s) && Finished(cfg, s)
    ensures s.heard == cfg.cmds && |s.client.results| == |cfg.cmds|
  {
  }

  /** The two views of the server agree: what Ned has heard in any state is a prefix of the commands that the
      connection handler finds in the client's stream. */
  lemma HeardMeetsHandler(cfg: Config, s0: State, steps: seq<Step>)
    requires cfg.Valid() && Initial(s0) && Legal(cfg, s0, steps)
    ensures LuaStreamFits(LuaStream(cfg.cmds)) && Run(cfg, s0, steps).heard <= Commands(LuaStream(cfg.cmds))
  {
    EveryReachableState(cfg, s0, steps);
    hide Initial, Legal, Run;
    var all := LuaStream(cfg.cmds);
    assert all[..|all|] == all;
    CutLuaStream(cfg.cmds, |all|);
    WholeBeforeIsLargest(cfg.cmds, |all|);
    var m := WholeBefore(cfg.cmds, |all|);
    if m < |cfg.cmds| {
      LuaStreamGrows(cfg.cmds, m + 1);
      assert false;
    }
    assert cfg.cmds[..m] == cfg.cmds;
  }

  lemma {:induction false} LuaStreamGrows(cmds: seq<seq<byte>>, n: nat)
    requires AllSendable(cmds) && n <= |cmds|
    ensures AllSendable(cmds[..n]) && |LuaStream(cmds[..n])| <= |LuaStream(cmds)|
  {
    if n > 0 {
      assert cmds[..n][1..] == cmds[1..][..n - 1];
      LuaStreamGrows(cmds[1..], n - 1);
    }
  }

  /** A client whose connection has failed does nothing more, whatever the server does. */
  lemma {:induction false} ClientFailsForGood(cfg: Config, s: State, steps: seq<Step>)
    requires s.client.broken && Legal(cfg, s, steps)
    ensures Run(cfg, s, steps).client == s.client
    decreases steps
  {
    if steps != [] {
      ClientFailsForGood(cfg, Apply(cfg, s, steps[0]), steps[1..]);
    }
  }

  /** A server whose connection has failed hears and answers nothing more. */
  lemma {:induction false} ServerFailsForGood(cfg: Config, s: State, steps: seq<Step>)
    requires s.server.closed && Legal(cfg, s, steps)
    ensures var end := Run(cfg, s, steps);
            end.server == s.server && end.heard == s.heard && end.verdicts == s.verdicts
    decreases steps
  {
    if steps != [] {
      ServerFailsForGood(cfg, Apply(cfg, s, steps[0]), steps[1..]);
    }
  }

  /** A failure is final: nothing that its end could do is left, in any continuation. */
  lemma FailureIsFinal(cfg: Config, s: State, steps: seq<Step>)
    ensures Enabled(cfg, s, ClientFails) && Legal(cfg, Apply(cfg, s, ClientFails), steps) ==>
              Run(cfg, Apply(cfg, s, ClientFails), steps).client == s.client.(broken := true)
    ensures Enabled(cfg, s, ServerFails) && Legal(cfg, Apply(cfg, s, ServerFails), steps) ==>
              var end := Run(cfg, Apply(cfg, s, ServerFails), steps);
              end.server == s.server.(closed := true) && end.heard == s.heard && end.verdicts == s.verdicts
  {
    if Enabled(cfg, s, ClientFails) && Legal(cfg, Apply(cfg, s, ClientFails), steps) {
      ClientFailsForGood(cfg, Apply(cfg, s, ClientFails), steps);
    }
    if Enabled(cfg, s, ServerFails) && Legal(cfg, Apply(cfg, s, ServerFails), steps) {
      ServerFailsForGood(cfg, Apply(cfg, s, ServerFails), steps);
    }
  }
}
