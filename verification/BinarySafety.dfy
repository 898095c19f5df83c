/**
 Every step of the binary protocol keeps its invariant.
 */
module BinarySafety {
  import opened Bytes
  import opened Wire
  import opened BinaryProtocol
  import opened Streams

  lemma InitialInv(cfg: Config, s: State)
    requires cfg.Valid() && Initial(cfg, s)
    ensures Inv(cfg, s)
  {
    assert cfg.todo[..0] == [];
  }

  // ---- The client ----

  /** The bytes of a send are the next bytes of the image. */
  lemma SendIsNextOfImage(t: Transfer, c: Client, k: nat)
    requires Countable(t) && 1 <= k && c.position + k <= |Outgoing(t, c.at)|
    ensures c.at != AwaitingPermission && SentOf(t, c) + k <= |Image(t)|
    ensures Image(t)[SentOf(t, c)..SentOf(t, c) + k] == Outgoing(t, c.at)[c.position..c.position + k]
    ensures var c' := AfterSend(c, |Outgoing(t, c.at)|, k);
            if c'.index == c.index then SentOf(t, c') == SentOf(t, c) + k else SentOf(t, c) + k == |Image(t)|
  {
    assert Image(t) == EncodeInt32(|t.name| + 1) + (t.name + [0]) + EncodeInt32(|t.data|) + t.data;
  }

  lemma BlockNotEmpty(t: Transfer, at: ClientAt)
    requires Countable(t) && t.data != []
    ensures at != AwaitingPermission ==> Outgoing(t, at) != []
  {
  }

  /** Every block to send has at least one byte, so a finished send leaves the client before a fresh one. */
  lemma ClientSendsKeepsClient(cfg: Config, s: State, k: nat)
    requires cfg.Valid() && ClientInv(cfg, s.client) && Enabled(cfg, s, ClientSends(k))
    ensures ClientInv(cfg, Apply(cfg, s, ClientSends(k)).client)
  {
    hide Outgoing;
    SendIsNextOfImage(cfg.todo[s.client.index], s.client, k);
    var c' := Apply(cfg, s, ClientSends(k)).client;
    if c'.index < |cfg.todo| {
      BlockNotEmpty(cfg.todo[c'.index], c'.at);
    }
  }

  lemma ClientSendsExtends(cfg: Config, s: State, k: nat)
    requires cfg.Valid() && Inv(cfg, s) && Enabled(cfg, s, ClientSends(k))
    requires ClientInv(cfg, Apply(cfg, s, ClientSends(k)).client)
    ensures var t, c := cfg.todo[s.client.index], s.client;
            Sent(cfg, c) + Outgoing(t, c.at)[c.position..c.position + k]
            == Sent(cfg, Apply(cfg, s, ClientSends(k)).client)
  {
    hide Image, Images, Outgoing, SentOf, Upto, EncodeInt32;
    var t, c := cfg.todo[s.client.index], s.client;
    SendIsNextOfImage(t, c, k);
    UptoGrows(Images(cfg.todo), c.index, SentOf(t, c), k);
    var c' := Apply(cfg, s, ClientSends(k)).client;
    if c'.index != c.index {
      UptoNext(Images(cfg.todo), c.index);
      if c'.index < |cfg.todo| {
        NothingSentYet(cfg.todo[c'.index], c');
      }
    }
  }

  lemma NothingSentYet(t: Transfer, c: Client)
    requires c.at == SendingLength && c.position == 0
    ensures SentOf(t, c) == 0
  {
  }

  lemma PermissionSnoc(n: nat)
    ensures Permissions(n) + EncodeInt32(GO_SEND) == Permissions(n + 1) + []
  {
  }

  lemma {:induction false} PermissionsLength(n: nat)
    ensures |Permissions(n)| == 4 * n
  {
    if n > 0 {
      PermissionsLength(n - 1);
    }
  }

  lemma ClientSendsKeepsInv(cfg: Config, s: State, k: nat)
    requires cfg.Valid() && Inv(cfg, s) && Enabled(cfg, s, ClientSends(k))
    ensures Inv(cfg, Apply(cfg, s, ClientSends(k)))
  {
    hide StoreAll, Store, ServerInside, EncodeInt32, TakenOf, Outgoing, SentOf, ClientInv, Upto, Images, Permissions;
    ClientSendsKeepsClient(cfg, s, k);
    ClientSendsExtends(cfg, s, k);
    SendIsNextOfImage(cfg.todo[s.client.index], s.client, k);
    NoReplyWhileSending(cfg, s.client);
    PermissionSnoc(s.client.index);
  }

  lemma NoReplyWhileSending(cfg: Config, c: Client)
    requires cfg.Valid() && ClientInv(cfg, c)
    ensures c.at != AwaitingPermission ==> c.reply == []
  {
  }

  // ---- Where the two ends are relative to each other ----

  /** The client is in the server's transfer, or one ahead with nothing on its way back. */
  lemma AtMostOneAhead(cfg: Config, s: State)
    requires cfg.Valid() && Inv(cfg, s)
    ensures s.server.stored <= s.client.index <= s.server.stored + 1
    ensures s.client.index == s.server.stored ==> PermitSeen(s.client) + s.down == PermitGiven(s.server)
    ensures s.client.index == s.server.stored + 1 ==>
              PermitSeen(s.client) == [] && s.down == [] && PermitGiven(s.server) == EncodeInt32(GO_SEND)
  {
    hide StoreAll, Store, EncodeInt32, TakenOf, Outgoing, SentOf, Upto, Images, Permissions, FilesInv;
    var c, v := s.client, s.server;
    PermissionsLength(c.index);
    PermissionsLength(v.stored);
    assert c.index <= v.stored + 1;
    if c.index < v.stored {
      SentInside(cfg, c);
      TakenInside(cfg, v);
      UptoOrdered(Images(cfg.todo), c.index, SentNow(cfg, c), v.stored, TakenNow(cfg, v));
    }
    var back := PermitSeen(c) + s.down;
    if c.index == v.stored {
      CancelPrefix(Permissions(c.index), back, PermitGiven(v));
    } else {
      PermissionSnoc(v.stored);
      CancelPrefix(Permissions(v.stored), EncodeInt32(GO_SEND) + back, PermitGiven(v));
    }
  }

  lemma SentInside(cfg: Config, c: Client)
    requires cfg.Valid() && ClientInv(cfg, c)
    ensures c.index < |cfg.todo| ==> 0 <= SentOf(cfg.todo[c.index], c) < |Image(cfg.todo[c.index])|
  {
  }

  lemma TakenInside(cfg: Config, v: Server)
    requires cfg.Valid() && ServerInv(cfg, v)
    ensures v.stored < |cfg.todo| ==> 0 <= TakenNow(cfg, v) <= |Image(cfg.todo[v.stored])|
    ensures v.stored < |cfg.todo| && v.at != WritingChunk ==> TakenNow(cfg, v) < |Image(cfg.todo[v.stored])|
  {
  }

  lemma ClientReceivesKeepsInv(cfg: Config, s: State, k: nat)
    requires cfg.Valid() && Inv(cfg, s) && Enabled(cfg, s, ClientReceives(k))
    ensures Inv(cfg, Apply(cfg, s, ClientReceives(k)))
  {
    hide StoreAll, Store, ServerInside, TakenOf, Permissions, Upto, Images, EncodeInt32, FilesInv;
    AtMostOneAhead(cfg, s);
    var reply := s.client.reply + s.down[..k];
    var before := Permissions(s.client.index);
    assert before + reply + s.down[k..] == before + s.client.reply + s.down;
    assert reply + s.down[k..] == s.client.reply + s.down;
    if |reply| == 4 {
      assert PermitGiven(s.server)[..4] == reply;
      FullPermission(s.server);
      BlockNotEmpty(cfg.todo[s.client.index], SendingData);
    }
  }

  lemma FullPermission(v: Server)
    requires |PermitGiven(v)| == 4
    ensures PermitGiven(v) == EncodeInt32(GO_SEND)
  {
  }

  // ---- The server ----

  /** What a read does to the server, seen from the transfer it is in. */
  ghost predicate ReadAdvances(cfg: Config, t: Transfer, v: Server, v': Server, k: nat)
    requires Transferable(t)
  {
    && ServerInside(cfg, t, v') && TakenOf(t, v') == TakenOf(t, v) + k
    && PermitGiven(v') == PermitGiven(v) && HasOpened(v') == HasOpened(v)
    && v'.offset == v.offset && v'.stored == v.stored
  }

  lemma ReadWordKeepsServer(cfg: Config, t: Transfer, v: Server, bs: seq<byte>)
    requires Transferable(t) && ServerInside(cfg, t, v) && v.at in {ReceivingLength, ReceivingSize}
    requires 1 <= |bs| <= Wanted(cfg, v)
    requires bs == EncodeInt32(if v.at == ReceivingLength then |t.name| + 1 else |t.data|)[|v.word|..|v.word| + |bs|]
    ensures ReadAdvances(cfg, t, v, AfterRead(cfg, v, bs), |bs|)
  {
    var number := if v.at == ReceivingLength then |t.name| + 1 else |t.data|;
    Glue(EncodeInt32(number), 0, |v.word|, |v.word| + |bs|);
    Int32RoundTrip(number);
    hide EncodeInt32, DecodeInt32, WriteAt, CString;
  }

  lemma ReadChunkKeepsServer(cfg: Config, t: Transfer, v: Server, bs: seq<byte>)
    requires Transferable(t) && ServerInside(cfg, t, v) && v.at == ReceivingChunk
    requires 1 <= |bs| <= Wanted(cfg, v)
    requires bs == t.data[v.offset + |v.chunk|..v.offset + |v.chunk| + |bs|]
    ensures ReadAdvances(cfg, t, v, AfterRead(cfg, v, bs), |bs|)
  {
    hide EncodeInt32, DecodeInt32, WriteAt, CString, Image;
    Glue(t.data, v.offset, v.offset + |v.chunk|, v.offset + |v.chunk| + |bs|);
    var v' := AfterRead(cfg, v, bs);
    assert v'.chunk == v.chunk + bs == t.data[v.offset..v.offset + |v'.chunk|];
    if |v'.chunk| < ChunkSize(cfg, v.left) {
      assert v' == v.(chunk := v'.chunk);
    } else {
      assert v' == v.(at := WritingChunk, chunk := v'.chunk, left := v.left - |v'.chunk|, written := 0);
    }
  }

  lemma ReadKeepsServer(cfg: Config, t: Transfer, v: Server, bs: seq<byte>)
    requires Transferable(t) && cfg.maxChunk > 0 && ServerInside(cfg, t, v)
    requires 1 <= |bs| <= Wanted(cfg, v)
    requires 0 <= TakenOf(t, v) && TakenOf(t, v) + |bs| <= |Image(t)|
    requires bs == Image(t)[TakenOf(t, v)..TakenOf(t, v) + |bs|]
    ensures ReadAdvances(cfg, t, v, AfterRead(cfg, v, bs), |bs|)
  {
    hide AfterRead, ReadAdvances, EncodeInt32, DecodeInt32;
    assert Image(t) == EncodeInt32(|t.name| + 1) + (t.name + [0]) + EncodeInt32(|t.data|) + t.data;
    if v.at == ReceivingName {
      ReadNameKeepsServer(cfg, t, v, bs);
    } else if v.at == ReceivingChunk {
      ReadChunkKeepsServer(cfg, t, v, bs);
    } else {
      ReadWordKeepsServer(cfg, t, v, bs);
    }
  }

  lemma ReadNameKeepsServer(cfg: Config, t: Transfer, v: Server, bs: seq<byte>)
    requires Transferable(t) && ServerInside(cfg, t, v) && v.at == ReceivingName
    requires 1 <= |bs| <= Wanted(cfg, v)
    requires bs == (t.name + [0])[v.position..v.position + |bs|]
    ensures ReadAdvances(cfg, t, v, AfterRead(cfg, v, bs), |bs|)
  {
    hide WriteAt, CString, EncodeInt32, DecodeInt32;
    var whole := t.name + [0];
    var buffer, position := WriteAt(v.buffer, v.position, bs), v.position + |bs|;
    assert buffer[v.position..position] == bs;
    assert buffer[..v.position] == v.buffer[..v.position];
    assert buffer[..position] == whole[..position];
    if position == |whole| {
      assert buffer == t.name + [0] + buffer[position..];
      CStringOfTerminated(t.name, buffer[position..]);
    }
  }


  /** The server's current read returns the next bytes of the image it is in. */
  lemma ReadIsNextOfImage(cfg: Config, s: State, k: nat)
    requires cfg.Valid() && Inv(cfg, s) && Enabled(cfg, s, ServerReceives(k))
    ensures s.server.stored < |cfg.todo|
    ensures var t, v := cfg.todo[s.server.stored], s.server;
            && 0 <= TakenOf(t, v) && TakenOf(t, v) + k <= |Image(t)|
            && s.up[..k] == Image(t)[TakenOf(t, v)..TakenOf(t, v) + k]
            && Upto(Images(cfg.todo), v.stored, TakenOf(t, v) + k) + s.up[k..] == Sent(cfg, s.client)
  {
    hide StoreAll, Store, EncodeInt32, SentOf, TakenOf, Permissions, Upto, Images, FilesInv, Image, Outgoing, Wanted;
    var v := s.server;
    if v.stored < |cfg.todo| {
      WantedIsInside(cfg, cfg.todo[v.stored], v);
    }
    SentInside(cfg, s.client);
    NextInFlight(Images(cfg.todo), s.client.index, SentNow(cfg, s.client), v.stored, TakenNow(cfg, v), s.up, k);
  }

  lemma WantedIsInside(cfg: Config, t: Transfer, v: Server)
    requires Transferable(t) && ServerInside(cfg, t, v)
    ensures 0 <= TakenOf(t, v) && TakenOf(t, v) + Wanted(cfg, v) <= |Image(t)|
  {
    hide EncodeInt32;
  }

  lemma ServerReceivesKeepsInv(cfg: Config, s: State, k: nat)
    requires cfg.Valid() && Inv(cfg, s) && Enabled(cfg, s, ServerReceives(k))
    ensures Inv(cfg, Apply(cfg, s, ServerReceives(k)))
  {
    hide Image, Store, StoreAll, ServerInside, EncodeInt32, AfterRead, TakenOf, Wanted, Permissions, Upto, Images;
    ReadIsNextOfImage(cfg, s, k);
    var t := cfg.todo[s.server.stored];
    ReadKeepsServer(cfg, t, s.server, s.up[..k]);
  }

  lemma PermissionKeepsServer(cfg: Config, t: Transfer, v: Server, k: nat)
    requires Transferable(t) && t.data != [] && cfg.maxChunk > 0
    requires ServerInside(cfg, t, v) && v.at == SendingPermission && 1 <= k && v.position + k <= 4
    ensures var v' := AfterPermission(v, k);
            && ServerInside(cfg, t, v') && TakenOf(t, v') == TakenOf(t, v) && HasOpened(v')
            && v'.offset == v.offset && v'.stored == v.stored
            && PermitGiven(v') == PermitGiven(v) + EncodeInt32(GO_SEND)[v.position..v.position + k]
  {
    hide EncodeInt32;
    var go := EncodeInt32(GO_SEND);
    Glue(go, 0, v.position, v.position + k);
    assert go[0..v.position] == go[..v.position] && go[0..v.position + k] == go[..v.position + k];
  }

  lemma ServerSendsKeepsInv(cfg: Config, s: State, k: nat)
    requires cfg.Valid() && Inv(cfg, s) && Enabled(cfg, s, ServerSends(k))
    ensures Inv(cfg, Apply(cfg, s, ServerSends(k)))
  {
    hide Image, Store, StoreAll, EncodeInt32, Permissions, Upto, Images, SentOf, TakenOf,
         AfterPermission, PermitGiven, PermitSeen;
    var v := s.server;
    assert v.stored < |cfg.todo|;
    PermissionKeepsServer(cfg, cfg.todo[v.stored], v, k);
    hide ServerInside;
    var part := EncodeInt32(GO_SEND)[v.position..v.position + k];
    var before := Permissions(s.client.index) + PermitSeen(s.client);
    assert before + s.down + part == before + (s.down + part);
  }

  lemma ServerOpensKeepsInv(cfg: Config, s: State)
    requires cfg.Valid() && Inv(cfg, s) && Enabled(cfg, s, ServerOpens)
    ensures Inv(cfg, Apply(cfg, s, ServerOpens))
  {
    hide Image, StoreAll, EncodeInt32, Permissions, Upto, Images, SentOf, Opened;
    assert s.server.stored < |cfg.todo|;
    var t := cfg.todo[s.server.stored];
    assert t.data[..0] == [];
    assert s.up == Apply(cfg, s, ServerOpens).up;
  }

  lemma WritePartOfImage(cfg: Config, s: State, k: nat)
    requires cfg.Valid() && Inv(cfg, s) && Enabled(cfg, s, ServerWrites(k))
    ensures var v, files := s.server, Apply(cfg, s, ServerWrites(k)).files;
            && v.stored < |cfg.todo| && v.offset + k <= |cfg.todo[v.stored].data|
            && files == Store(StoreAll(cfg.files, cfg.todo[..v.stored]),
                              Transfer(cfg.todo[v.stored].name, cfg.todo[v.stored].data[..v.offset + k]))
  {
    hide Image, Store, StoreAll, EncodeInt32, ChannelInv, ClientInv, CString, WriteAt, AfterWrite, Names;
    var v := s.server;
    var t := cfg.todo[v.stored];
    var piece := v.chunk[v.written..v.written + k];
    SubSlice(t.data, |t.data| - v.left - |v.chunk|, |t.data| - v.left, v.written, v.written + k);
    assert t.data[..v.offset] + piece == t.data[..v.offset + k];
    StoreMore(StoreAll(cfg.files, cfg.todo[..v.stored]), t.name, t.data[..v.offset], piece);
  }

  lemma FinishTransfer(cfg: Config, j: nat)
    requires cfg.Valid() && j < |cfg.todo|
    ensures Store(StoreAll(cfg.files, cfg.todo[..j]), cfg.todo[j]) == StoreAll(cfg.files, cfg.todo[..j + 1])
    ensures Names(cfg.todo[..j]) + [cfg.todo[j].name] == Names(cfg.todo[..j + 1])
  {
    assert cfg.todo[..j] + [cfg.todo[j]] == cfg.todo[..j + 1];
    StoreAllSnoc(cfg.files, cfg.todo[..j], cfg.todo[j]);
    NamesSnoc(cfg.todo[..j], cfg.todo[j]);
  }

  lemma ServerWritesKeepsInv(cfg: Config, s: State, k: nat)
    requires cfg.Valid() && Inv(cfg, s) && Enabled(cfg, s, ServerWrites(k))
    ensures Inv(cfg, Apply(cfg, s, ServerWrites(k)))
  {
    hide Store, StoreAll, EncodeInt32, Permissions, Upto, Images, SentOf, ClientInv,
         Names, CString, WriteAt, PermitSeen;
    var v, v' := s.server, Apply(cfg, s, ServerWrites(k)).server;
    WritePartOfImage(cfg, s, k);
    var t := cfg.todo[v.stored];
    if v'.stored != v.stored {
      assert v.offset + k == |t.data| && t.data[..|t.data|] == t.data;
      FinishTransfer(cfg, v.stored);
      UptoNext(Images(cfg.todo), v.stored);
      PermissionSnoc(v.stored);
    }
  }

  /** One step, whichever it is. */
  lemma StepKeepsInv(cfg: Config, s: State, step: Step)
    requires cfg.Valid() && Inv(cfg, s) && Enabled(cfg, s, step)
    ensures Inv(cfg, Apply(cfg, s, step))
  {
    hide Inv, Enabled, Apply;
    match step
    case ClientSends(k) => ClientSendsKeepsInv(cfg, s, k);
    case ClientReceives(k) => ClientReceivesKeepsInv(cfg, s, k);
    case ServerReceives(k) => ServerReceivesKeepsInv(cfg, s, k);
    case ServerSends(k) => ServerSendsKeepsInv(cfg, s, k);
    case ServerOpens => ServerOpensKeepsInv(cfg, s);
    case ServerWrites(k) => ServerWritesKeepsInv(cfg, s, k);
  }

  lemma {:induction false} RunKeepsInv(cfg: Config, s: State, steps: seq<Step>)
    requires cfg.Valid() && Inv(cfg, s) && Legal(cfg, s, steps)
    ensures Inv(cfg, Run(cfg, s, steps))
    decreases steps
  {
    hide Inv, Enabled, Apply;
    if steps != [] {
      StepKeepsInv(cfg, s, steps[0]);
      RunKeepsInv(cfg, Apply(cfg, s, steps[0]), steps[1..]);
    }
  }
}
