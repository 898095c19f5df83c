/**
 The byte formats of the two connections between dom0 instances, and the parsers that say what a
 server must make of an arbitrary, possibly truncated, stream.
 */
module Wire {
  import opened Bytes
  import Streams

  const LUA_OK := 0x10A900D
  const LUA_ERROR := 0x10ABAD
  const GO_SEND := 0x90

  /** Size of the buffer a server receives a Lua command or a file name into. */
  const BUF_LEN := 1024

  /** A string that can be sent: it has no NUL of its own and fits the server's buffer with one. */
  ghost predicate Sendable(s: seq<byte>) {
    0 !in s && |s| + 1 <= BUF_LEN
  }

  /** A length, then the string with its NUL. */
  function Counted(s: seq<byte>): (bs: seq<byte>)
    requires IsInt32(|s| + 1)
    ensures |bs| == 5 + |s|
  {
    EncodeInt32(|s| + 1) + (s + [0])
  }

  // ---- The Lua connection ----

  ghost predicate AllSendable(cmds: seq<seq<byte>>) {
    forall i :: 0 <= i < |cmds| ==> Sendable(cmds[i])
  }

  /** Everything a client sends to have `cmds` executed. */
  function LuaStream(cmds: seq<seq<byte>>): seq<byte>
    requires AllSendable(cmds)
  {
    if cmds == [] then [] else Counted(cmds[0]) + LuaStream(cmds[1..])
  }

  ghost function Frames(cmds: seq<seq<byte>>): (blocks: seq<seq<byte>>)
    requires AllSendable(cmds)
    ensures |blocks| == |cmds| && forall i :: 0 <= i < |cmds| ==> blocks[i] == Counted(cmds[i])
  {
    if cmds == [] then [] else [Counted(cmds[0])] + Frames(cmds[1..])
  }

  lemma {:induction false} StreamOfFrames(cmds: seq<seq<byte>>)
    requires AllSendable(cmds)
    ensures Streams.Flat(Frames(cmds)) == LuaStream(cmds)
  {
    hide Counted;
    if cmds != [] {
      assert Frames(cmds)[1..] == Frames(cmds[1..]);
      StreamOfFrames(cmds[1..]);
    }
  }

  /** A complete counted string at the head of a stream. */
  ghost predicate HasString(stream: seq<byte>) {
    |stream| >= 4 && var n := DecodeInt32(stream[..4]); 1 <= n <= |stream| - 4
  }

  function StringEnd(stream: seq<byte>): (n: nat)
    requires HasString(stream)
    ensures 5 <= n <= |stream|
  {
    4 + DecodeInt32(stream[..4])
  }

  /** What the server assumes of its peer: a length is never negative nor larger than the buffer, and a
      complete string has a NUL. */
  ghost predicate StringFits(stream: seq<byte>) {
    && (|stream| >= 4 ==> 0 <= DecodeInt32(stream[..4]) <= BUF_LEN)
    && (HasString(stream) ==> 0 in stream[4..StringEnd(stream)])
  }

  ghost predicate LuaStreamFits(stream: seq<byte>) {
    StringFits(stream) && (HasString(stream) ==> LuaStreamFits(stream[StringEnd(stream)..]))
  }

  /** The commands that arrived completely. */
  ghost function Commands(stream: seq<byte>): seq<seq<byte>> {
    if HasString(stream)
    then [CString(stream[4..StringEnd(stream)])] + Commands(stream[StringEnd(stream)..])
    else []
  }

  lemma CountedParses(s: seq<byte>, rest: seq<byte>)
    requires Sendable(s)
    ensures var stream := Counted(s) + rest;
            && StringFits(stream) && HasString(stream) && StringEnd(stream) == |Counted(s)|
            && CString(stream[4..StringEnd(stream)]) == s && stream[StringEnd(stream)..] == rest
  {
    var stream := Counted(s) + rest;
    assert stream[..4] == EncodeInt32(|s| + 1);
    Int32RoundTrip(|s| + 1);
    assert stream[4..|Counted(s)|] == s + [0] + [];
    CStringOfTerminated(s, []);
    assert (s + [0])[|s|] == 0;
  }

  lemma CutCountedParses(s: seq<byte>, cut: nat)
    requires Sendable(s) && cut < |Counted(s)|
    ensures StringFits(Counted(s)[..cut]) && !HasString(Counted(s)[..cut])
  {
    if cut >= 4 {
      assert Counted(s)[..cut][..4] == EncodeInt32(|s| + 1);
      Int32RoundTrip(|s| + 1);
    }
  }

  lemma NothingArrived()
    ensures LuaStreamFits([]) && Commands([]) == []
  {
  }

  lemma CutBehindString(s: seq<byte>, tail: seq<byte>, cut: nat)
    requires Sendable(s) && |Counted(s)| <= cut <= |Counted(s)| + |tail|
    ensures var rest := tail[..cut - |Counted(s)|];
            && LuaStreamFits((Counted(s) + tail)[..cut]) == LuaStreamFits(rest)
            && Commands((Counted(s) + tail)[..cut]) == [s] + Commands(rest)
  {
    var rest := tail[..cut - |Counted(s)|];
    assert (Counted(s) + tail)[..cut] == Counted(s) + rest;
    CountedParses(s, rest);
  }

  lemma CutInsideString(s: seq<byte>, tail: seq<byte>, cut: nat)
    requires Sendable(s) && cut < |Counted(s)|
    ensures LuaStreamFits((Counted(s) + tail)[..cut]) && Commands((Counted(s) + tail)[..cut]) == []
  {
    assert (Counted(s) + tail)[..cut] == Counted(s)[..cut];
    CutCountedParses(s, cut);
  }

  /** How many of the commands lie completely before a cut. */
  function WholeBefore(cmds: seq<seq<byte>>, cut: nat): (m: nat)
    requires AllSendable(cmds)
    ensures m <= |cmds|
  {
    if cmds == [] || cut < |Counted(cmds[0])| then 0
    else 1 + WholeBefore(cmds[1..], cut - |Counted(cmds[0])|)
  }

  lemma {:induction false} WholeBeforeIsLargest(cmds: seq<seq<byte>>, cut: nat)
    requires AllSendable(cmds) && cut <= |LuaStream(cmds)|
    ensures var m := WholeBefore(cmds, cut);
            && |LuaStream(cmds[..m])| <= cut
            && (m < |cmds| ==> cut < |LuaStream(cmds[..m + 1])|)
  {
    if cmds != [] {
      var m := WholeBefore(cmds, cut);
      if m > 0 {
        WholeBeforeIsLargest(cmds[1..], cut - |Counted(cmds[0])|);
        assert cmds[..m][1..] == cmds[1..][..m - 1];
      }
      if m < |cmds| {
        assert cmds[..m + 1][1..] == cmds[1..][..m];
      }
    }
  }

  /** Cut a client's stream at any byte: the server finds exactly the commands whose last byte came
      through, each whole, in order. */
  lemma {:induction false} CutLuaStream(cmds: seq<seq<byte>>, cut: nat)
    requires AllSendable(cmds) && cut <= |LuaStream(cmds)|
    ensures LuaStreamFits(LuaStream(cmds)[..cut])
    ensures Commands(LuaStream(cmds)[..cut]) == cmds[..WholeBefore(cmds, cut)]
  {
    hide LuaStreamFits, Commands;
    if cmds == [] {
      NothingArrived();
      assert LuaStream(cmds)[..cut] == [];
    } else if cut < |Counted(cmds[0])| {
      CutInsideString(cmds[0], LuaStream(cmds[1..]), cut);
    } else {
      var rest := cut - |Counted(cmds[0])|;
      CutBehindString(cmds[0], LuaStream(cmds[1..]), cut);
      CutLuaStream(cmds[1..], rest);
      assert [cmds[0]] + cmds[1..][..WholeBefore(cmds[1..], rest)] == cmds[..WholeBefore(cmds, cut)];
    }
  }

  function Code(ok: bool): (code: int)
    ensures IsInt32(code) && code == if ok then 0x10A900D else 0x10ABAD
  {
    if ok then LUA_OK else LUA_ERROR
  }

  function Answer(ok: bool): (bs: seq<byte>)
    ensures |bs| == 4
    ensures DecodeInt32(bs) == Code(ok)
  {
    Int32RoundTrip(Code(ok));
    EncodeInt32(Code(ok))
  }

  /** The replies to a list of verdicts. */
  function Answers(verdicts: seq<bool>): seq<byte> {
    if verdicts == [] then [] else Answers(verdicts[..|verdicts| - 1]) + Answer(verdicts[|verdicts| - 1])
  }

  // ---- The binary connection ----

  datatype Transfer = Transfer(name: seq<byte>, data: seq<byte>)

  /** What an int32_t can count; the server's buffer asks for a shorter name. */
  ghost predicate Countable(t: Transfer) {
    IsInt32(|t.name| + 1) && IsInt32(|t.data|)
  }

  ghost predicate Transferable(t: Transfer) {
    Sendable(t.name) && Countable(t)
  }

  ghost predicate AllTransferable(ts: seq<Transfer>) {
    forall i :: 0 <= i < |ts| ==> Transferable(ts[i])
  }

  /** What the client sends before it waits for the permission to go on. */
  function Head(t: Transfer): (bs: seq<byte>)
    requires Countable(t)
    ensures |bs| == 9 + |t.name|
  {
    Counted(t.name) + EncodeInt32(|t.data|)
  }

  function Image(t: Transfer): seq<byte>
    requires Countable(t)
  {
    Head(t) + t.data
  }

  function TransferStream(ts: seq<Transfer>): seq<byte>
    requires AllTransferable(ts)
  {
    if ts == [] then [] else Image(ts[0]) + TransferStream(ts[1..])
  }

  ghost function Images(ts: seq<Transfer>): (blocks: seq<seq<byte>>)
    requires AllTransferable(ts)
    ensures |blocks| == |ts| && forall i :: 0 <= i < |ts| ==> blocks[i] == Image(ts[i])
  {
    if ts == [] then [] else [Image(ts[0])] + Images(ts[1..])
  }

  lemma {:induction false} StreamOfImages(ts: seq<Transfer>)
    requires AllTransferable(ts)
    ensures Streams.Flat(Images(ts)) == TransferStream(ts)
  {
    hide Image;
    if ts != [] {
      assert Images(ts)[1..] == Images(ts[1..]);
      StreamOfImages(ts[1..]);
    }
  }

  /** A name, a size and that many bytes at the head of a stream. */
  ghost predicate HasTransfer(stream: seq<byte>) {
    HasString(stream) &&
    var rest := stream[StringEnd(stream)..];
    |rest| >= 4 && 0 <= DecodeInt32(rest[..4]) <= |rest| - 4
  }

  ghost function FirstTransfer(stream: seq<byte>): (t: Transfer)
    requires HasTransfer(stream)
  {
    var rest := stream[StringEnd(stream)..];
    Transfer(CString(stream[4..StringEnd(stream)]), rest[4..4 + DecodeInt32(rest[..4])])
  }

  ghost function TransferEnd(stream: seq<byte>): (n: nat)
    requires HasTransfer(stream)
    ensures 9 <= n <= |stream|
  {
    StringEnd(stream) + 4 + |FirstTransfer(stream).data|
  }

  /** What the server can cope with: lengths it does not check are in range, and the stream does not end in the
      middle of data. It may end anywhere else. A transfer of no bytes ends the conversation whatever follows. */
  ghost predicate Servable(stream: seq<byte>) {
    && StringFits(stream)
    && (HasString(stream) && |stream| >= StringEnd(stream) + 4 ==>
          && HasTransfer(stream)
          && (FirstTransfer(stream).data != [] ==> Servable(stream[TransferEnd(stream)..])))
  }

  /** The transfers that arrived completely, up to and including the first empty one. */
  ghost function Transfers(stream: seq<byte>): seq<Transfer> {
    if !HasTransfer(stream) then []
    else if FirstTransfer(stream).data == [] then [FirstTransfer(stream)]
    else [FirstTransfer(stream)] + Transfers(stream[TransferEnd(stream)..])
  }

  /** The name behind them, if one arrived and its size did not. */
  ghost function LoneName(stream: seq<byte>): seq<seq<byte>> {
    if HasTransfer(stream) then
      if FirstTransfer(stream).data == [] then [] else LoneName(stream[TransferEnd(stream)..])
    else if HasString(stream) then [CString(stream[4..StringEnd(stream)])]
    else []
  }

  /** A list up to and including its first empty transfer. */
  function UpToEmpty(ts: seq<Transfer>): seq<Transfer> {
    if ts == [] then [] else if ts[0].data == [] then [ts[0]] else [ts[0]] + UpToEmpty(ts[1..])
  }

  lemma ImageParses(t: Transfer, rest: seq<byte>)
    requires Transferable(t)
    ensures var stream := Image(t) + rest;
            && HasTransfer(stream) && StringFits(stream) && FirstTransfer(stream) == t
            && TransferEnd(stream) == |Image(t)| && stream[TransferEnd(stream)..] == rest
  {
    var stream := Image(t) + rest;
    var after := EncodeInt32(|t.data|) + t.data + rest;
    assert stream == Counted(t.name) + after;
    CountedParses(t.name, after);
    assert after[..4] == EncodeInt32(|t.data|);
    Int32RoundTrip(|t.data|);
    assert after[4..4 + |t.data|] == t.data;
    assert stream[|Image(t)|..] == rest;
  }

  lemma NothingToServe()
    ensures Servable([]) && Transfers([]) == [] && LoneName([]) == []
  {
  }

  /** The server decodes exactly the transfers the client encoded, up to the first empty one. */
  lemma {:induction false} TransfersOfStream(ts: seq<Transfer>)
    requires AllTransferable(ts)
    ensures Servable(TransferStream(ts)) && LoneName(TransferStream(ts)) == []
    ensures Transfers(TransferStream(ts)) == UpToEmpty(ts)
  {
    if ts == [] {
      NothingToServe();
    } else {
      ImageParses(ts[0], TransferStream(ts[1..]));
      TransfersOfStream(ts[1..]);
    }
  }

  /** All transfers of a stream are read by the server if and only if none but the last is empty. */
  lemma AllReadUnlessEmpty(ts: seq<Transfer>)
    requires AllTransferable(ts)
    ensures Transfers(TransferStream(ts)) == ts <==> forall i :: 0 <= i < |ts| - 1 ==> ts[i].data != []
  {
    TransfersOfStream(ts);
    UpToEmptyKeepsAll(ts);
  }

  lemma {:induction false} UpToEmptyKeepsAll(ts: seq<Transfer>)
    ensures UpToEmpty(ts) == ts <==> forall i :: 0 <= i < |ts| - 1 ==> ts[i].data != []
  {
    if |ts| > 1 {
      var rest := ts[1..];
      UpToEmptyKeepsAll(rest);
      assert ts == [ts[0]] + rest;
      assert forall i :: 1 <= i < |ts| - 1 ==> ts[i] == rest[i - 1];
      assert forall i :: 0 <= i < |rest| - 1 ==> rest[i] == ts[i + 1];
      assert ts[0].data != [] && UpToEmpty(ts) == ts ==> UpToEmpty(rest) == ts[1..];
    }
  }

  /** How many transfers lie completely before a cut. */
  function WholeTransfers(ts: seq<Transfer>, cut: nat): (m: nat)
    requires AllTransferable(ts)
    ensures m <= |ts|
  {
    if ts == [] || cut < |Image(ts[0])| then 0 else 1 + WholeTransfers(ts[1..], cut - |Image(ts[0])|)
  }

  /** How far a cut is behind the last of them. */
  function Beyond(ts: seq<Transfer>, cut: nat): nat
    requires AllTransferable(ts)
  {
    if ts == [] || cut < |Image(ts[0])| then cut else Beyond(ts[1..], cut - |Image(ts[0])|)
  }

  /** A cut that leaves either all of a transfer's data or not even its size. */
  ghost predicate OutsideData(ts: seq<Transfer>, cut: nat)
    requires AllTransferable(ts)
  {
    var m := WholeTransfers(ts, cut);
    m < |ts| ==> Beyond(ts, cut) < |Head(ts[m])|
  }

  lemma CutInsideHead(t: Transfer, tail: seq<byte>, cut: nat)
    requires Transferable(t) && cut < |Head(t)|
    ensures var stream := (Image(t) + tail)[..cut];
            && Servable(stream) && Transfers(stream) == []
            && LoneName(stream) == if cut < |Counted(t.name)| then [] else [t.name]
  {
    var stream := (Image(t) + tail)[..cut];
    var c := Counted(t.name);
    if cut < |c| {
      assert stream == c[..cut];
      CutCountedParses(t.name, cut);
    } else {
      var rest := EncodeInt32(|t.data|)[..cut - |c|];
      assert stream == c + rest;
      CountedParses(t.name, rest);
      assert |stream| < StringEnd(stream) + 4;
    }
  }

  lemma CutBehindImage(t: Transfer, tail: seq<byte>, cut: nat)
    requires Transferable(t) && |Image(t)| <= cut <= |Image(t)| + |tail|
    ensures var stream, rest := (Image(t) + tail)[..cut], tail[..cut - |Image(t)|];
            && (Servable(stream) <==> t.data == [] || Servable(rest))
            && Transfers(stream) == [t] + (if t.data == [] then [] else Transfers(rest))
            && LoneName(stream) == if t.data == [] then [] else LoneName(rest)
  {
    var rest := tail[..cut - |Image(t)|];
    assert (Image(t) + tail)[..cut] == Image(t) + rest;
    ImageParses(t, rest);
  }

  /** Cut a client's stream anywhere but inside of data: the server finds exactly the transfers that came through
      whole, in order, and at most one name more. */
  lemma {:induction false} CutTransferStream(ts: seq<Transfer>, cut: nat)
    requires AllTransferable(ts) && cut <= |TransferStream(ts)| && OutsideData(ts, cut)
    ensures var stream, m := TransferStream(ts)[..cut], WholeTransfers(ts, cut);
            && Servable(stream) && Transfers(stream) == UpToEmpty(ts[..m])
            && LoneName(stream) ==
                 if UpToEmpty(ts[..m]) == ts[..m] && (m > 0 ==> ts[m - 1].data != [])
                    && m < |ts| && Beyond(ts, cut) >= |Counted(ts[m].name)|
                 then [ts[m].name] else []
  {
    hide Servable, Transfers, LoneName, Image, Head, Counted;
    var m := WholeTransfers(ts, cut);
    if ts == [] {
      NothingToServe();
      assert TransferStream(ts)[..cut] == [];
    } else if m == 0 {
      CutInsideHead(ts[0], TransferStream(ts[1..]), cut);
    } else {
      var rest, later := ts[1..], cut - |Image(ts[0])|;
      CutBehindImage(ts[0], TransferStream(rest), cut);
      assert ts[..m] == [ts[0]] + rest[..m - 1];
      if ts[0].data != [] {
        CutTransferStream(rest, later);
        assert UpToEmpty(ts[..m]) == [ts[0]] + UpToEmpty(rest[..m - 1]);
        assert UpToEmpty(ts[..m]) == ts[..m] <==> UpToEmpty(rest[..m - 1]) == rest[..m - 1];
      }
    }
  }

  function Names(ts: seq<Transfer>): seq<seq<byte>> {
    if ts == [] then [] else [ts[0].name] + Names(ts[1..])
  }

  lemma {:induction false} NamesSnoc(ts: seq<Transfer>, t: Transfer)
    ensures Names(ts + [t]) == Names(ts) + [t.name]
  {
    if ts == [] {
      assert Names([t]) == [t.name] + Names([]);
    } else {
      assert (ts + [t])[1..] == ts[1..] + [t];
      NamesSnoc(ts[1..], t);
    }
  }

  /** The permission to send, once per transfer. */
  function Permissions(n: nat): (bs: seq<byte>)
    ensures |bs| == 4 * n
    ensures n > 0 ==> bs[4 * n - 4..] == [0x90, 0, 0, 0]
  {
    if n == 0 then [] else Permissions(n - 1) + EncodeInt32(GO_SEND)
  }

  // ---- What a transfer does to the receiving machine's files ----

  type Files = map<seq<byte>, seq<byte>>

  /** Opening with O_CREAT but without O_TRUNC: an existing file keeps its content. */
  function Opened(files: Files, name: seq<byte>): (r: Files)
    ensures name in r && r.Keys == files.Keys + {name}
    ensures forall n :: n in files ==> r[n] == files[n]
    ensures name !in files ==> r[name] == []
  {
    if name in files then files else files[name := []]
  }

  function Store(files: Files, t: Transfer): Files {
    var before := Opened(files, t.name);
    before[t.name := WriteAt(before[t.name], 0, t.data)]
  }

  /** Opening a name that nothing follows, if there is one. */
  function OpenedLone(files: Files, lone: seq<seq<byte>>): Files {
    if lone == [] then files else Opened(files, lone[0])
  }

  function StoreAll(files: Files, ts: seq<Transfer>): Files
    decreases ts
  {
    if ts == [] then files else StoreAll(Store(files, ts[0]), ts[1..])
  }

  lemma {:induction false} StoreAllSnoc(files: Files, ts: seq<Transfer>, t: Transfer)
    ensures StoreAll(files, ts + [t]) == Store(StoreAll(files, ts), t)
    decreases ts
  {
    if ts == [] {
      assert StoreAll(files, [t]) == StoreAll(Store(files, t), []);
    } else {
      assert (ts + [t])[1..] == ts[1..] + [t];
      StoreAllSnoc(Store(files, ts[0]), ts[1..], t);
    }
  }

  /** Storing a little more of the same transfer. */
  lemma StoreMore(files: Files, name: seq<byte>, a: seq<byte>, b: seq<byte>)
    ensures var part := Store(files, Transfer(name, a));
            && name in part
            && part[name := WriteAt(part[name], |a|, b)] == Store(files, Transfer(name, a + b))
  {
    WriteAtAdjacent(Opened(files, name)[name], 0, a, b);
  }

  /** A stored file starts with the bytes sent; the tail of an older, longer file survives, and
      no other file changes. */
  lemma StoreOverwritesPrefix(files: Files, t: Transfer)
    ensures var r := Store(files, t);
            && t.name in r && t.data <= r[t.name]
            && (t.name in files && |t.data| <= |files[t.name]| ==>
                  r[t.name] == t.data + files[t.name][|t.data|..])
            && (t.name !in files || |files[t.name]| <= |t.data| ==> r[t.name] == t.data)
            && r.Keys == files.Keys + {t.name}
            && forall n :: n in files && n != t.name ==> r[n] == files[n]
  {
    var before := Opened(files, t.name);
    var r := WriteAt(before[t.name], 0, t.data);
    if t.data != [] {
      assert r[0..|t.data|] == t.data;
    }
  }
}
