/**
 Names on their way to the file system: the client stubs of libfs, the name-reading operator of svr.cc, and the
 path translation of fs_srv. Buffers are reused from request to request and keep whatever was in them.
 */
module FileNames {
  import opened Bytes

  /** 63 message words less 5; `word` is the size of a machine word, 4 bytes on x86 and 8 on amd64. */
  function MaxPathSize(word: nat): nat {
    (63 - 5) * word
  }

  const PATH_LEN: nat := 255
  const ENAMETOOLONG := 36

  /** "/tmp/" */
  const TMP_DIR: seq<byte> := [47, 116, 109, 112, 47]

  /** What the file system is asked to do. */
  datatype Call =
    | Open(path: seq<byte>)
    | Mkdir(path: seq<byte>)
    | Rmdir(path: seq<byte>)
    | Unlink(path: seq<byte>)
    | Rename(from: seq<byte>, to: seq<byte>)

  ghost function Prefixed(name: seq<byte>): seq<byte> {
    TMP_DIR + name
  }

  lemma {:induction false} CStringEnds(src: seq<byte>)
    requires 0 in src
    ensures |CString(src)| < |src| && src[|CString(src)|] == 0
    ensures forall i :: 0 <= i < |CString(src)| ==> src[i] == CString(src)[i] && src[i] != 0
  {
    if src[0] != 0 {
      CStringEnds(src[1..]);
      assert forall i :: 1 <= i < |src| ==> src[i] == src[1..][i - 1];
    }
  }

  /** The path buffer has room for the directory, the name and a terminator. */
  predicate FitsPath(name: seq<byte>): (r: bool)
    ensures r <==> |name| <= 249
  {
    |TMP_DIR| + |name| + 1 <= PATH_LEN
  }

  /** strcpy out of a block of memory that holds a terminated string. */
  method StrCpy(dest: array<byte>, at: nat, src: seq<byte>)
    requires 0 in src && at + |CString(src)| + 1 <= dest.Length
    modifies dest
    ensures dest[..] == old(dest[..at]) + CString(src) + [0] + old(dest[at + |CString(src)| + 1..])
  {
    CStringEnds(src);
    hide CString;
    ghost var s := CString(src);
    var k := 0;
    while src[k] != 0
      invariant 0 <= k <= |s|
      invariant dest[..at] == old(dest[..at]) && dest[at..at + k] == s[..k]
      invariant dest[at + k..] == old(dest[..])[at + k..]
      decreases |s| - k
    {
      assert s[k] == src[k];
      dest[at + k] := src[k];
      k := k + 1;
    }
    assert k == |s| && s[..k] == s;
    dest[at + k] := 0;
    assert dest[..] == dest[..at] + dest[at..at + k] + [dest[at + k]] + dest[at + k + 1..];
  }

  class Server {
    const word: nat
    const actualPath: array<byte>
    const nameBuf: array<byte>
    const rwBuf: array<byte>
    /** What reached the file system below, in order. */
    var calls: seq<Call>

    ghost predicate Valid()
      reads this, actualPath
    {
      && actualPath.Length == PATH_LEN && nameBuf.Length == MaxPathSize(word)
      && rwBuf.Length >= MaxPathSize(word) && word > 0
      && actualPath != nameBuf && actualPath != rwBuf && nameBuf != rwBuf
      && actualPath[..5] == TMP_DIR
    }

    constructor (word: nat)
      requires word in {4, 8}
      ensures Valid() && this.word == word && calls == []
      ensures fresh(actualPath) && fresh(nameBuf) && fresh(rwBuf)
    {
      this.word, calls := word, [];
      actualPath, nameBuf := new byte[PATH_LEN], new byte[MaxPathSize(word)];
      rwBuf := new byte[1024 * 1024];
      new;
      TmpDirTerminated();
      StrCpy(actualPath, 0, TMP_DIR + [0]);
    }

    /** The name-reading operator: what is on the wire, cut to the buffer, whose last byte becomes 0. */
    method ReadName(wire: seq<byte>)
      requires Valid()
      modifies nameBuf
      ensures 0 in nameBuf[..]
      ensures forall name :: wire == name + [0] && 0 !in name && |wire| <= MaxPathSize(word) ==>
                CString(nameBuf[..]) == name
    {
      var n := if |wire| < MaxPathSize(word) then |wire| else MaxPathSize(word);
      for k := 0 to n
        invariant nameBuf[..k] == wire[..k]
      {
        nameBuf[k] := wire[k];
      }
      nameBuf[MaxPathSize(word) - 1] := 0;
      assert nameBuf[..][MaxPathSize(word) - 1] == 0;
      forall name | wire == name + [0] && 0 !in name && |wire| <= MaxPathSize(word)
        ensures CString(nameBuf[..]) == name {
        assert nameBuf[..] == name + [0] + nameBuf[n..];
        CStringOfTerminated(name, nameBuf[n..]);
      }
    }

    /** getActualPath: the translated path is read from the front of the buffer, whatever lies behind its end. */
    method GetActualPath(src: array<byte>)
      requires Valid() && src != actualPath && 0 in src[..] && FitsPath(CString(src[..]))
      modifies actualPath
      ensures Valid() && CString(actualPath[..]) == Prefixed(CString(src[..]))
    {
      hide CString;
      StrCpy(actualPath, 5, src[..]);
      PrefixedTerminated(src[..], actualPath[..]);
    }

    /** Server::rename: the second name is in the shared buffer. */
    method Rename() returns (result: int)
      requires Valid() && 0 in nameBuf[..] && 0 in rwBuf[..]
      requires FitsPath(CString(nameBuf[..])) && FitsPath(CString(rwBuf[..]))
      modifies this`calls, actualPath
      ensures Valid()
      ensures calls == old(calls) + [Call.Rename(Prefixed(CString(nameBuf[..])), Prefixed(CString(rwBuf[..])))]
    {
      hide CString;
      var tmp := new byte[PATH_LEN];
      TmpDirTerminated();
      StrCpy(tmp, 0, TMP_DIR + [0]);
      assert tmp[..5] == TMP_DIR;
      StrCpy(tmp, 5, rwBuf[..]);
      PrefixedTerminated(rwBuf[..], tmp[..]);
      GetActualPath(nameBuf);
      calls := calls + [Call.Rename(CString(actualPath[..]), CString(tmp[..]))];
      result := *;
    }

    /** open, mkdir, rmdir and unlink. */
    method Single(op: Operation) returns (result: int)
      requires Valid() && 0 in nameBuf[..] && FitsPath(CString(nameBuf[..]))
      modifies this`calls, actualPath
      ensures Valid()
      ensures calls == old(calls) + [Asked(op, Prefixed(CString(nameBuf[..])))]
    {
      GetActualPath(nameBuf);
      calls := calls + [Asked(op, CString(actualPath[..]))];
      result := *;
    }
  }

  datatype Operation = ToOpen | ToMkdir | ToRmdir | ToUnlink

  function Asked(op: Operation, path: seq<byte>): Call {
    match op
    case ToOpen => Open(path)
    case ToMkdir => Mkdir(path)
    case ToRmdir => Rmdir(path)
    case ToUnlink => Unlink(path)
  }

  lemma TmpDirTerminated()
    ensures CString(TMP_DIR + [0]) == TMP_DIR
  {
    CStringOfTerminated(TMP_DIR, []);
    assert TMP_DIR + [0] + [] == TMP_DIR + [0];
  }

  /** A block that starts with the directory and a terminated name reads as the two together. */
  lemma PrefixedTerminated(src: seq<byte>, block: seq<byte>)
    requires TMP_DIR + CString(src) + [0] <= block
    ensures CString(block) == Prefixed(CString(src))
  {
    var path := TMP_DIR + CString(src);
    assert block == path + [0] + block[|path| + 1..];
    CStringOfTerminated(path, block[|path| + 1..]);
  }

  // The client

  /** A request of a client that shares the server's buffer. Names are C strings. */
  datatype Request = On(op: Operation, name: seq<byte>) | ToRename(from: seq<byte>, to: seq<byte>)

  ghost predicate IsName(name: seq<byte>) {
    0 !in name
  }

  predicate TooLong(word: nat, name: seq<byte>) {
    |name| + 1 > MaxPathSize(word)
  }

  /** The server copies without a check, so a name has to be too long for the client or short enough for the
      server. EveryNameIsDecided says when all names are. */
  ghost predicate Decided(word: nat, name: seq<byte>) {
    IsName(name) && (TooLong(word, name) || FitsPath(name))
  }

  ghost predicate Proper(word: nat, r: Request) {
    match r
    case On(_, name) => Decided(word, name)
    case ToRename(from, to) => Decided(word, from) && Decided(word, to)
  }

  /** Every name that a client lets through fits the path buffer if and only if words are small enough: on
      x86, but not on amd64. */
  lemma EveryNameIsDecided(word: nat)
    requires word > 0
    ensures (forall name :: IsName(name) ==> Decided(word, name)) <==> 58 * word + 5 <= 255
    ensures forall name :: IsName(name) ==> Decided(4, name)
    ensures !forall name :: IsName(name) ==> Decided(8, name)
  {
    LongestName(word);
    LongestName(8);
  }

  /** The longest name the client lets through. */
  lemma LongestName(word: nat)
    requires word > 0
    ensures var name := seq(MaxPathSize(word) - 1, _ => 47 as byte);
            IsName(name) && (Decided(word, name) <==> MaxPathSize(word) + |TMP_DIR| <= PATH_LEN)
  {
  }

  /** What a request means to the file system: its names behind the directory, or nothing if one is too long. */
  ghost function Meaning(word: nat, r: Request): seq<Call> {
    match r
    case On(op, name) => if TooLong(word, name) then [] else [Asked(op, Prefixed(name))]
    case ToRename(from, to) =>
      if TooLong(word, from) || TooLong(word, to) then [] else [Call.Rename(Prefixed(from), Prefixed(to))]
  }

  ghost function Meanings(word: nat, rs: seq<Request>): seq<Call> {
    if rs == [] then [] else Meanings(word, rs[..|rs| - 1]) + Meaning(word, rs[|rs| - 1])
  }

  method CallOn(svr: Server, op: Operation, name: seq<byte>) returns (ret: int)
    requires svr.Valid() && Decided(svr.word, name)
    modifies svr`calls, svr.actualPath, svr.nameBuf
    ensures svr.Valid() && svr.calls == old(svr.calls) + Meaning(svr.word, On(op, name))
    ensures |name| + 1 > 58 * svr.word ==> ret == -36 && svr.calls == old(svr.calls)
    ensures |name| + 1 <= 58 * svr.word ==>
              svr.calls == old(svr.calls) + [match op
                                             case ToOpen => Open([47, 116, 109, 112, 47] + name)
                                             case ToMkdir => Mkdir([47, 116, 109, 112, 47] + name)
                                             case ToRmdir => Rmdir([47, 116, 109, 112, 47] + name)
                                             case ToUnlink => Unlink([47, 116, 109, 112, 47] + name)]
  {
    if |name| + 1 > MaxPathSize(svr.word) {
      return -ENAMETOOLONG;
    }
    svr.ReadName(name + [0]);
    ret := svr.Single(op);
  }

  /** L4fs_dir::rename and its stub: the second name goes through the shared buffer, terminated. */
  method CallRename(svr: Server, from: seq<byte>, to: seq<byte>) returns (ret: int)
    requires svr.Valid() && Decided(svr.word, from) && Decided(svr.word, to)
    modifies svr`calls, svr.actualPath, svr.nameBuf, svr.rwBuf
    ensures svr.Valid() && svr.calls == old(svr.calls) + Meaning(svr.word, ToRename(from, to))
    ensures |from| + 1 > 58 * svr.word || |to| + 1 > 58 * svr.word ==>
              ret == -36 && svr.calls == old(svr.calls)
    ensures |from| + 1 <= 58 * svr.word && |to| + 1 <= 58 * svr.word ==>
              svr.calls == old(svr.calls) + [Call.Rename([47, 116, 109, 112, 47] + from, [47, 116, 109, 112, 47] + to)]
  {
    var toSize := |to| + 1;
    if toSize > MaxPathSize(svr.word) {
      return -ENAMETOOLONG;
    }
    for k := 0 to toSize
      invariant svr.rwBuf[..k] == (to + [0])[..k]
      invariant svr.Valid() && svr.calls == old(svr.calls)
    {
      svr.rwBuf[k] := (to + [0])[k];
    }
    assert svr.rwBuf[..] == to + [0] + svr.rwBuf[toSize..];
    CStringOfTerminated(to, svr.rwBuf[toSize..]);
    if |from| + 1 > MaxPathSize(svr.word) {
      return -ENAMETOOLONG;
    }
    svr.ReadName(from + [0]);
    ret := svr.Rename();
  }

  /** What reaches the file system for one request, written out: "/tmp/" in front of each name. */
  ghost predicate Reaches(word: nat, r: Request, calls: seq<Call>) {
    match r
    case On(op, name) =>
      if |name| + 1 > 58 * word then calls == []
      else
        && |calls| == 1
        && (match op
            case ToOpen => calls[0] == Open([47, 116, 109, 112, 47] + name)
            case ToMkdir => calls[0] == Mkdir([47, 116, 109, 112, 47] + name)
            case ToRmdir => calls[0] == Rmdir([47, 116, 109, 112, 47] + name)
            case ToUnlink => calls[0] == Unlink([47, 116, 109, 112, 47] + name))
    case ToRename(from, to) =>
      if |from| + 1 > 58 * word || |to| + 1 > 58 * word then calls == []
      else calls == [Call.Rename([47, 116, 109, 112, 47] + from, [47, 116, 109, 112, 47] + to)]
  }

  lemma MeaningReaches(word: nat, r: Request)
    ensures Reaches(word, r, Meaning(word, r))
  {
  }

  ghost function All(calls: seq<seq<Call>>): seq<Call> {
    if calls == [] then [] else All(calls[..|calls| - 1]) + calls[|calls| - 1]
  }

  /** Any sequence of requests reaches the file system as exactly what it means, part i of the calls for request i:
      whatever longer names came before, and whatever data is left in the shared buffer. */
  method Requests(svr: Server, rs: seq<Request>) returns (ghost parts: seq<seq<Call>>)
    requires svr.Valid() && forall i :: 0 <= i < |rs| ==> Proper(svr.word, rs[i])
    modifies svr`calls, svr.actualPath, svr.nameBuf, svr.rwBuf
    ensures svr.Valid() && svr.calls == old(svr.calls) + Meanings(svr.word, rs)
    ensures svr.calls == old(svr.calls) + All(parts)
    ensures |parts| == |rs| && forall i :: 0 <= i < |rs| ==> Reaches(svr.word, rs[i], parts[i])
  {
    hide Reaches;
    parts := [];
    for i := 0 to |rs|
      invariant svr.Valid() && svr.calls == old(svr.calls) + Meanings(svr.word, rs[..i])
      invariant svr.calls == old(svr.calls) + All(parts) && |parts| == i
      invariant forall j :: 0 <= j < i ==> Reaches(svr.word, rs[j], parts[j])
    {
      assert rs[..i + 1][..i] == rs[..i];
      match rs[i] {
        case On(op, name) => var _ := CallOn(svr, op, name);
        case ToRename(from, to) => var _ := CallRename(svr, from, to);
      }
      ghost var part := Meaning(svr.word, rs[i]);
      MeaningReaches(svr.word, rs[i]);
      assert (parts + [part])[..i] == parts;
      parts := parts + [part];
    }
    assert rs[..|rs|] == rs;
  }
}
