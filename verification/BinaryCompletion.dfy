/**
 The binary protocol end to end: what the server's machine holds after any interleaving, that no
 interleaving gets stuck, and that every one of them finishes.
 */
module BinaryCompletion {
  import opened Bytes
  import opened Wire
  import opened BinaryProtocol
  import opened BinarySafety
  import opened Streams

  // ---- Safety ----

  /** However the calls interleave and fragment: the names opened are the names sent, in order; every
      finished transfer is stored, of the current one exactly the part written so far; and whenever both
      ends stand between the same two transfers nothing is in flight. */
  lemma EveryReachableState(cfg: Config, s0: State, steps: seq<Step>)
    requires cfg.Valid() && Initial(cfg, s0) && Legal(cfg, s0, steps)
    ensures var s := Run(cfg, s0, steps);
            && s.server.stored <= s.client.index <= |cfg.todo|
            && s.names <= Names(cfg.todo)
            && (!HasOpened(s.server) ==> s.files == StoreAll(cfg.files, cfg.todo[..s.server.stored]))
            && (HasOpened(s.server) ==>
                  && s.server.stored < |cfg.todo| && s.server.offset <= |cfg.todo[s.server.stored].data|
                  && var t := cfg.todo[s.server.stored];
                     s.files == Store(StoreAll(cfg.files, cfg.todo[..s.server.stored]),
                                      Transfer(t.name, t.data[..s.server.offset])))
    ensures var s := Run(cfg, s0, steps);
            (s.client.index == s.server.stored && s.client.at == SendingLength && s.client.position == 0 &&
             s.server.at == ReceivingLength && s.server.word == []) ==> s.up == [] && s.down == []
  {
    hide Initial, Run, Image, Store, StoreAll, EncodeInt32, Permissions;
    InitialInv(cfg, s0);
    RunKeepsInv(cfg, s0, steps);
    var s := Run(cfg, s0, steps);
    AtMostOneAhead(cfg, s);
    OpenedNames(cfg, s);
  }

  lemma OpenedNames(cfg: Config, s: State)
    requires cfg.Valid() && Inv(cfg, s)
    ensures s.names <= Names(cfg.todo)
    ensures |s.names| == s.server.stored + if HasOpened(s.server) then 1 else 0
    ensures |Names(cfg.todo)| == |cfg.todo|
  {
    hide Image, Store, StoreAll, EncodeInt32, Permissions, Names, ChannelInv, ClientInv, ServerInside;
    var j := s.server.stored;
    assert cfg.todo[..|cfg.todo|] == cfg.todo;
    NamesAreAPrefix(cfg.todo, |cfg.todo|);
    NamesAreAPrefix(cfg.todo, j);
    if HasOpened(s.server) {
      OnlyInsideOpened(cfg, s.server);
      FinishTransfer(cfg, j);
      NamesAreAPrefix(cfg.todo, j + 1);
    }
  }

  lemma OnlyInsideOpened(cfg: Config, v: Server)
    requires cfg.Valid() && ServerInv(cfg, v) && HasOpened(v)
    ensures v.stored < |cfg.todo|
  {
  }

  lemma {:induction false} NamesAreAPrefix(ts: seq<Transfer>, j: nat)
    requires j <= |ts|
    ensures Names(ts[..j]) <= Names(ts) && |Names(ts[..j])| == j
    decreases ts
  {
    if j > 0 {
      assert ts[..j][1..] == ts[1..][..j - 1];
      NamesAreAPrefix(ts[1..], j - 1);
    }
  }

  /** When both sides are through, the files are those of storing the transfers one after the other. */
  lemma FinishedState(cfg: Config, s: State)
    requires cfg.Valid() && Inv(cfg, s) && Finished(cfg, s)
    ensures s.files == StoreAll(cfg.files, cfg.todo) && s.names == Names(cfg.todo)
    ensures s.up == [] && s.down == []
  {
    hide Image, Store, StoreAll, EncodeInt32, Permissions, Names;
    AtMostOneAhead(cfg, s);
    assert cfg.todo[..|cfg.todo|] == cfg.todo;
  }

  // ---- No deadlock ----

  lemma ServerSideCanStep(cfg: Config, s: State) returns (step: Step)
    requires cfg.Valid() && Inv(cfg, s)
    requires s.server.at in {Opening, WritingChunk} || (s.up != [] && s.server.at != SendingPermission)
    ensures Enabled(cfg, s, step)
  {
    hide Image, StoreAll, EncodeInt32, Permissions, Upto, Images, SentOf, ClientInv;
    var v := s.server;
    if v.at == Opening {
      step := ServerOpens;
    } else if v.at == WritingChunk {
      step := ServerWrites(1);
    } else {
      MoreToTake(cfg, s);
      step := ServerReceives(1);
    }
  }

  lemma MoreToTake(cfg: Config, s: State)
    requires cfg.Valid() && Inv(cfg, s) && s.up != []
    ensures s.server.stored < |cfg.todo|
  {
    hide Image, Images, Store, StoreAll, EncodeInt32, Permissions, SentOf, Flat;
    SentInside(cfg, s.client);
    UptoPrefix(Images(cfg.todo), s.client.index, SentNow(cfg, s.client));
  }

  /** With the two ends in the same transfer, the client has sent at least what the server has taken, and
      exactly that if nothing is in flight. */
  lemma SameTransfer(cfg: Config, s: State)
    requires cfg.Valid() && Inv(cfg, s) && s.client.index == s.server.stored < |cfg.todo|
    ensures var t := cfg.todo[s.client.index]; SentOf(t, s.client) == TakenOf(t, s.server) + |s.up|
  {
    hide Store, StoreAll, EncodeInt32, Permissions, SentOf, TakenOf, TransferStream, Outgoing, Image;
    SentInside(cfg, s.client);
    TakenInside(cfg, s.server);
  }

  lemma NothingInFlight(cfg: Config, s: State)
    requires cfg.Valid() && Inv(cfg, s) && s.up == [] && s.server.at != WritingChunk
    ensures s.client.index == s.server.stored
  {
    hide Store, StoreAll, EncodeInt32, Permissions, SentOf, TakenOf, TransferStream, Outgoing, Image, Upto, Images;
    AtMostOneAhead(cfg, s);
    var c, v := s.client, s.server;
    if c.index == v.stored + 1 {
      TakenInside(cfg, v);
      SentInside(cfg, c);
      UptoOrdered(Images(cfg.todo), v.stored, TakenNow(cfg, v), c.index, SentNow(cfg, c));
    }
  }

  lemma PermissionCanMove(cfg: Config, s: State) returns (step: Step)
    requires cfg.Valid() && Inv(cfg, s) && s.server.at == SendingPermission
    ensures Enabled(cfg, s, step)
  {
    hide Store, StoreAll, EncodeInt32, Permissions, TransferStream, Image, Upto, Images;
    step := ServerSends(1);
    if |s.down| >= cfg.downCapacity {
      AtMostOneAhead(cfg, s);
      SameTransfer(cfg, s);
      step := ClientReceives(1);
    }
  }

  lemma ClientCanStep(cfg: Config, s: State) returns (step: Step)
    requires cfg.Valid() && Inv(cfg, s) && !Finished(cfg, s)
    requires s.up == [] && s.server.at !in {Opening, WritingChunk, SendingPermission}
    ensures Enabled(cfg, s, step)
  {
    hide Store, StoreAll, EncodeInt32, Permissions, TransferStream, Image, Upto, Images;
    NothingInFlight(cfg, s);
    SameTransfer(cfg, s);
    if s.client.at == AwaitingPermission {
      AtMostOneAhead(cfg, s);
      step := ClientReceives(1);
    } else {
      step := ClientSends(1);
    }
  }

  /** Whatever the capacities, every reachable state in which somebody is not through has an enabled step. */
  lemma NoDeadlock(cfg: Config, s: State) returns (step: Step)
    requires cfg.Valid() && Inv(cfg, s) && !Finished(cfg, s)
    ensures Enabled(cfg, s, step)
  {
    hide Inv, Finished, Enabled;
    if s.server.at == SendingPermission {
      step := PermissionCanMove(cfg, s);
    } else if s.server.at in {Opening, WritingChunk} || s.up != [] {
      step := ServerSideCanStep(cfg, s);
    } else {
      step := ClientCanStep(cfg, s);
    }
  }

  // ---- Every run finishes ----

  function DataBytes(ts: seq<Transfer>): nat {
    if ts == [] then 0 else DataBytes(ts[..|ts| - 1]) + |ts[|ts| - 1].data|
  }

  lemma DataBytesSnoc(ts: seq<Transfer>, j: nat)
    requires j < |ts|
    ensures DataBytes(ts[..j + 1]) == DataBytes(ts[..j]) + |ts[j].data|
  {
    assert ts[..j + 1][..j] == ts[..j];
  }

  /** Data bytes that are in files. */
  ghost function Written(cfg: Config, v: Server): nat
    requires v.stored <= |cfg.todo|
  {
    DataBytes(cfg.todo[..v.stored]) + if HasOpened(v) then v.offset else 0
  }

  /** Everything done so far: bytes sent and taken in both directions, files opened, bytes written. */
  ghost function Done(cfg: Config, s: State): nat
    requires cfg.Valid() && Inv(cfg, s)
  {
    |Sent(cfg, s.client)| + |Taken(cfg, s.server)|
    + 4 * s.client.index + |PermitSeen(s.client)| + 4 * s.server.stored + |PermitGiven(s.server)|
    + |s.names| + Written(cfg, s.server)
  }

  ghost function AllThereIs(cfg: Config): nat
    requires cfg.Valid()
  {
    2 * |TransferStream(cfg.todo)| + 9 * |cfg.todo| + DataBytes(cfg.todo)
  }

  function Amount(step: Step): nat {
    if step.ServerOpens? then 1 else step.k
  }

  /** The channel equations, counted. */
  lemma ChannelCounts(cfg: Config, s: State)
    requires cfg.Valid() && Inv(cfg, s)
    ensures |Taken(cfg, s.server)| + |s.up| == |Sent(cfg, s.client)|
    ensures 4 * s.client.index + |PermitSeen(s.client)| + |s.down| == 4 * s.server.stored + |PermitGiven(s.server)|
  {
    hide Store, StoreAll, Permissions, SentOf, TakenOf, Upto, Images, ServerInside, FilesInv;
    PermissionsLength(s.client.index);
    PermissionsLength(s.server.stored);
  }

  lemma WritesAreCounted(cfg: Config, s: State, step: Step)
    requires cfg.Valid() && Inv(cfg, s) && Enabled(cfg, s, step) && Inv(cfg, Apply(cfg, s, step))
    ensures var s' := Apply(cfg, s, step);
            && Written(cfg, s'.server) == Written(cfg, s.server) + (if step.ServerWrites? then step.k else 0)
            && |s'.names| == |s.names| + (if step.ServerOpens? then 1 else 0)
  {
    hide Inv, Outgoing, WriteAt, CString, Opened, AfterSend, AfterReply, DataBytes, EncodeInt32, DecodeInt32;
    var v, v' := s.server, Apply(cfg, s, step).server;
    assert ServerInv(cfg, v) && ServerInv(cfg, v') by {
      ServerIsSound(cfg, s);
      ServerIsSound(cfg, Apply(cfg, s, step));
    }
    if step.ServerWrites? && v'.stored != v.stored {
      DataBytesSnoc(cfg.todo, v.stored);
    }
  }

  lemma ServerIsSound(cfg: Config, s: State)
    requires cfg.Valid() && Inv(cfg, s)
    ensures ServerInv(cfg, s.server)
  {
  }

  /** Each step does at least one unit of work, and none is ever undone. */
  lemma StepAdvances(cfg: Config, s: State, step: Step)
    requires cfg.Valid() && Inv(cfg, s) && Enabled(cfg, s, step)
    ensures Amount(step) >= 1
    ensures Inv(cfg, Apply(cfg, s, step))
    ensures Done(cfg, Apply(cfg, s, step)) == Done(cfg, s) + Amount(step)
  {
    hide Inv, Written, Sent, Taken, PermitSeen, PermitGiven, AfterSend, AfterReply, AfterRead, AfterWrite,
         AfterPermission;
    StepKeepsInv(cfg, s, step);
    WritesAreCounted(cfg, s, step);
    ChannelCounts(cfg, s);
    ChannelCounts(cfg, Apply(cfg, s, step));
  }

  lemma {:induction false} DataBytesGrow(ts: seq<Transfer>, j: nat)
    requires j <= |ts|
    ensures DataBytes(ts[..j]) <= DataBytes(ts)
    ensures j < |ts| ==> DataBytes(ts[..j]) + |ts[j].data| <= DataBytes(ts)
    decreases |ts| - j
  {
    if j == |ts| {
      assert ts[..j] == ts;
    } else {
      DataBytesSnoc(ts, j);
      DataBytesGrow(ts, j + 1);
    }
  }

  lemma DoneIsBounded(cfg: Config, s: State)
    requires cfg.Valid() && Inv(cfg, s)
    ensures Done(cfg, s) <= AllThereIs(cfg)
  {
    hide Store, StoreAll, Permissions, SentOf, TakenOf, Upto, Images, EncodeInt32, TransferStream, Outgoing,
         ChannelInv, Names, DataBytes;
    ChannelCounts(cfg, s);
    SentInside(cfg, s.client);
    UptoPrefix(Images(cfg.todo), s.client.index, SentNow(cfg, s.client));
    StreamOfImages(cfg.todo);
    OpenedNames(cfg, s);
    DataBytesGrow(cfg.todo, s.server.stored);
  }

  lemma {:induction false} RunAdvances(cfg: Config, s: State, steps: seq<Step>)
    requires cfg.Valid() && Inv(cfg, s) && Legal(cfg, s, steps)
    ensures Inv(cfg, Run(cfg, s, steps))
    ensures Done(cfg, s) + |steps| <= Done(cfg, Run(cfg, s, steps))
    decreases steps
  {
    hide Inv, Enabled, Apply, Done;
    if steps != [] {
      StepAdvances(cfg, s, steps[0]);
      RunAdvances(cfg, Apply(cfg, s, steps[0]), steps[1..]);
    }
  }

  /** No run is longer than all the work there is. */
  lemma RunsAreBounded(cfg: Config, s0: State, steps: seq<Step>)
    requires cfg.Valid() && Initial(cfg, s0) && Legal(cfg, s0, steps)
    ensures |steps| <= AllThereIs(cfg)
  {
    hide Inv, Enabled, Apply, Done, AllThereIs;
    InitialInv(cfg, s0);
    RunAdvances(cfg, s0, steps);
    DoneIsBounded(cfg, Run(cfg, s0, steps));
  }

  /** A run that cannot be continued has stored every transfer completely, in order, and left both channels
      empty. As runs are bounded, every interleaving and fragmentation ends so. */
  lemma EveryMaximalRunCompletes(cfg: Config, s0: State, steps: seq<Step>)
    requires cfg.Valid() && Initial(cfg, s0) && Legal(cfg, s0, steps)
    requires forall step :: !Enabled(cfg, Run(cfg, s0, steps), step)
    ensures var s := Run(cfg, s0, steps);
            && Finished(cfg, s) && s.files == StoreAll(cfg.files, cfg.todo) && s.names == Names(cfg.todo)
            && s.up == [] && s.down == []
  {
    hide Inv, Enabled, Apply, Finished, Initial;
    InitialInv(cfg, s0);
    RunKeepsInv(cfg, s0, steps);
    var s := Run(cfg, s0, steps);
    if !Finished(cfg, s) {
      var step := NoDeadlock(cfg, s);
      assert false;
    }
    FinishedState(cfg, s);
  }

  /** The two views of the server agree: such a run leaves what the connection handler promises for the stream
      of that client, whatever the interleaving. */
  lemma MaximalRunMeetsHandler(cfg: Config, s0: State, steps: seq<Step>)
    requires cfg.Valid() && Initial(cfg, s0) && Legal(cfg, s0, steps)
    requires forall step :: !Enabled(cfg, Run(cfg, s0, steps), step)
    ensures Servable(TransferStream(cfg.todo)) && LoneName(TransferStream(cfg.todo)) == []
    ensures var s, ts := Run(cfg, s0, steps), Transfers(TransferStream(cfg.todo));
            s.files == StoreAll(cfg.files, ts) && s.names == Names(ts)
  {
    EveryMaximalRunCompletes(cfg, s0, steps);
    hide Inv, Enabled, Apply, Finished, Initial, Legal, Run;
    TransfersOfStream(cfg.todo);
    AllReadUnlessEmpty(cfg.todo);
  }
}
