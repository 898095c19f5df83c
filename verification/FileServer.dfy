/**
 Reading and writing at the file server: Server::pread and Server::pwrite of fs_srv, the dispatch of svr.cc
 that calls them, and the client stubs of l4fs.cc that call it. Data passes through one shared buffer.
 */
module FileServer {
  import opened Bytes

  /** Size of the buffer the file-system client shares with its server: no single transfer may exceed it. */
  const MAX_RW_BUFFER_SIZE := 1024 * 1024
  const ENOMEM := 12

  lemma UpperBound(used: set<int>) returns (b: nat)
    ensures forall fh :: fh in used ==> fh < b
  {
    b := 0;
    if fh :| fh in used {
      var rest := UpperBound(used - {fh});
      assert forall x :: x in used ==> x == fh || x in used - {fh};
      b := if fh < rest then rest else fh + 1;
    }
  }

  /** The contents of all files, by file number. */
  type Contents = map<nat, seq<byte>>

  /** A read or write the server was asked for, and its answer. */
  datatype Access = Access(write: bool, fh: int, size: nat, offset: int, ret: int)

  class Server {
    const rwBuf: array<byte>
    /** Whether the file system below refuses nothing without a reason this model knows, and makes progress. */
    const sound: bool
    /** Which file an open handle stands for. */
    var handles: map<int, nat>
    var files: Contents
    /** What it has been asked for so far. */
    var asked: seq<Access>

    ghost predicate Valid()
      reads this
    {
      && rwBuf.Length == MAX_RW_BUFFER_SIZE
      && forall fh :: fh in handles ==> fh >= 0 && handles[fh] in files
    }

    ghost predicate Usable(fh: int)
      requires Valid()
      reads this
    {
      fh in handles
    }

    /** The contents of the file behind an open handle. */
    ghost function File(fh: int): seq<byte>
      requires Valid() && Usable(fh)
      reads this
    {
      files[handles[fh]]
    }

    constructor (sound: bool)
      ensures Valid() && fresh(rwBuf) && this.sound == sound && handles == map[] && files == map[]
    {
      this.sound, handles, files, asked := sound, map[], map[], [];
      rwBuf := new byte[MAX_RW_BUFFER_SIZE];
    }

    /** Gives a file a handle that is not in use; a file that does not exist yet is created. */
    method Open(node: nat) returns (fh: int)
      requires Valid()
      modifies this`handles, this`files
      ensures Valid() && fh >= 0 && fh !in old(handles) && handles == old(handles)[fh := node]
      ensures files == if node in old(files) then old(files) else old(files)[node := []]
    {
      ghost var b := UpperBound(handles.Keys);
      assert b !in handles;
      fh :| fh >= 0 && fh !in handles;
      handles := handles[fh := node];
      if node !in files {
        files := files[node := []];
      }
    }

    /** A file that does not exist. */
    method NewNode() returns (node: nat)
      ensures node !in files
    {
      ghost var used := set n | n in files :: n as int;
      ghost var b := UpperBound(used);
      assert b in files ==> b as int in used;
      node :| node !in files;
    }

    /** pread64 into the shared buffer: a short count means the end of the file. */
    method Pread(fh: int, size: nat, offset: int) returns (ret: int)
      requires Valid() && size <= MAX_RW_BUFFER_SIZE
      modifies rwBuf, this`asked
      ensures ret >= 0 ==> Usable(fh) && offset >= 0
      ensures ret >= 0 ==>
                ret == if |File(fh)| <= offset then 0
                       else if |File(fh)| - offset < size then |File(fh)| - offset
                       else size
      ensures ret >= 0 ==> forall i :: 0 <= i < ret ==> rwBuf[i] == File(fh)[offset + i]
      ensures ret < 0 ==> rwBuf[..] == old(rwBuf[..])
      ensures asked == old(asked) + [Access(false, fh, size, offset, ret)]
      ensures sound && Usable(fh) && offset >= 0 ==> ret >= 0
    {
      var refused: bool := *;
      if fh !in handles || offset < 0 || (!sound && refused) {
        asked := asked + [Access(false, fh, size, offset, -1)];
        return -1;
      }
      var data := ReadAt(files[handles[fh]], offset, size);
      ReadAtIs(files[handles[fh]], offset, size);
      hide ReadAt;
      for i := 0 to |data|
        invariant asked == old(asked) && forall j :: 0 <= j < i ==> rwBuf[j] == data[j]
      {
        rwBuf[i] := data[i];
      }
      ret := |data|;
      asked := asked + [Access(false, fh, size, offset, ret)];
    }

    /** pwrite64 out of the shared buffer: it may accept a part only. */
    method Pwrite(fh: int, size: nat, offset: int) returns (ret: int)
      requires Valid() && size <= MAX_RW_BUFFER_SIZE
      modifies this`files, this`asked
      ensures Valid() && asked == old(asked) + [Access(true, fh, size, offset, ret)]
      ensures ret >= 0 ==> Usable(fh) && offset >= 0 && ret <= size
      ensures ret >= 0 ==> files == old(files)[handles[fh] := WriteAt(old(File(fh)), offset, rwBuf[..ret])]
      ensures ret < 0 ==> files == old(files)
      ensures sound && Usable(fh) && offset >= 0 ==> ret >= 0 && (size > 0 ==> ret >= 1)
    {
      var refused: bool := *;
      if fh !in handles || offset < 0 || (!sound && refused) {
        asked := asked + [Access(true, fh, size, offset, -1)];
        return -1;
      }
      ret :| 0 <= ret <= size && (sound && size > 0 ==> ret >= 1);
      files := files[handles[fh] := WriteAt(files[handles[fh]], offset, rwBuf[..ret])];
      asked := asked + [Access(true, fh, size, offset, ret)];
    }
  }

  /** A size_t that an answer of type ssize_t is read into. */
  function AsSize(ret: int): (n: nat)
    ensures 0 <= ret < 0x8000_0000 ==> n == ret
  {
    ret % 0x1_0000_0000
  }

  /** The stub of pread: `size` goes in and the server's count comes out, whatever it is. */
  method CallPread(svr: Server, fh: int, size: nat, offset: int) returns (err: int, count: nat)
    requires svr.Valid()
    modifies svr.rwBuf, svr`asked
    ensures err <= 0
    ensures size > 0x10_0000 ==>
              err == -12 && svr.rwBuf[..] == old(svr.rwBuf[..]) && svr.asked == old(svr.asked)
    ensures size <= MAX_RW_BUFFER_SIZE ==>
              svr.asked == old(svr.asked) + [Access(false, fh, size, offset, if err < 0 then err else count)]
    ensures err == 0 ==> size <= MAX_RW_BUFFER_SIZE && svr.Usable(fh) && offset >= 0 && count <= size
    ensures err == 0 ==> svr.rwBuf[..count] == ReadAt(svr.File(fh), offset, size)
    ensures svr.sound && svr.Usable(fh) && offset >= 0 && size <= MAX_RW_BUFFER_SIZE ==> err == 0
  {
    if size > MAX_RW_BUFFER_SIZE {
      return -ENOMEM, size;
    }
    var ret := svr.Pread(fh, size, offset);
    err := if ret < 0 then ret else 0;
    count := AsSize(ret);
    if err == 0 {
      ReadAtIs(svr.File(fh), offset, size);
      assert svr.rwBuf[..count] == ReadAt(svr.File(fh), offset, size);
    }
  }

  method CallPwrite(svr: Server, fh: int, size: nat, offset: int) returns (err: int, count: nat)
    requires svr.Valid()
    modifies svr`files, svr`asked
    ensures svr.Valid() && err <= 0
    ensures size > 0x10_0000 ==> err == -12 && svr.asked == old(svr.asked)
    ensures size <= MAX_RW_BUFFER_SIZE ==>
              svr.asked == old(svr.asked) + [Access(true, fh, size, offset, if err < 0 then err else count)]
    ensures err == 0 ==> size <= MAX_RW_BUFFER_SIZE && svr.Usable(fh) && offset >= 0 && count <= size
    ensures err == 0 ==>
              svr.files == old(svr.files)[svr.handles[fh] := WriteAt(old(svr.File(fh)), offset, svr.rwBuf[..count])]
    ensures err < 0 ==> svr.files == old(svr.files)
    ensures svr.sound && svr.Usable(fh) && offset >= 0 && size <= MAX_RW_BUFFER_SIZE ==>
              err == 0 && (size > 0 ==> count >= 1)
  {
    if size > MAX_RW_BUFFER_SIZE {
      return -ENOMEM, size;
    }
    var ret := svr.Pwrite(fh, size, offset);
    err := if ret < 0 then ret else 0;
    count := AsSize(ret);
  }
}
