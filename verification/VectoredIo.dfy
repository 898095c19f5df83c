/**
 Vectored reading and writing of a client file: L4fs_file::preadv and L4fs_file::pwritev. A vector of pieces
 of memory is read into, or written from, one stretch of the file.
 */
module VectoredIo {
  import opened Bytes
  import opened Streams
  import opened FileServer

  /** What the pieces hold. */
  ghost function Pieces(iov: seq<array<byte>>): (r: seq<seq<byte>>)
    reads iov
    ensures |r| == |iov|
  {
    seq(|iov|, i requires 0 <= i < |iov| reads iov => iov[i][..])
  }

  ghost predicate Separate(iov: seq<array<byte>>, buffer: array<byte>) {
    && buffer !in iov
    && forall i, j :: 0 <= i < j < |iov| ==> iov[i] != iov[j]
  }

  ghost predicate AllWithin(iov: seq<array<byte>>) {
    forall i :: 0 <= i < |iov| ==> iov[i].Length <= MAX_RW_BUFFER_SIZE
  }

  /** Two reads, the second where the first stopped, are one read of both lengths. */
  lemma ReadAtSplit(content: seq<byte>, p: nat, m: nat, n: nat)
    ensures var a := ReadAt(content, p, m);
            ReadAt(content, p, m + n) == a + ReadAt(content, p + |a|, if |a| == m then n else 0)
    ensures var a := ReadAt(content, p, m); |a| < m ==> ReadAt(content, p + |a|, n) == []
  {
  }

  /** Memory after reading: the data in front, and what was there before behind it. */
  ghost function Overlaid(data: seq<byte>, before: seq<byte>): seq<byte>
    requires |data| <= |before|
  {
    data + before[|data|..]
  }

  lemma OverlaidNext(data: seq<byte>, before: seq<byte>, more: seq<byte>, piece: seq<byte>)
    requires |data| <= |before| && |more| <= |piece|
    requires |data| < |before| ==> more == []
    ensures Overlaid(data, before) + Overlaid(more, piece) == Overlaid(data + more, before + piece)
  {
  }

  /** After i pieces: n bytes have been read, they fill those pieces from the front, and the rest of them is as
      it was. */
  ghost predicate ReadSoFar(content: seq<byte>, p: int, was: seq<seq<byte>>, now: seq<seq<byte>>, i: nat, n: nat) {
    && i <= |was| && i <= |now|
    && if i == 0 then n == 0
       else
         && p >= 0 && n == |ReadAt(content, p, |Flat(was[..i])|)|
         && Flat(now[..i]) == Overlaid(ReadAt(content, p, |Flat(was[..i])|), Flat(was[..i]))
  }

  /** An error leaves the pieces before the failing one filled and the others as they were. */
  ghost predicate FailedReading(content: seq<byte>, p: int, was: seq<seq<byte>>, now: seq<seq<byte>>) {
    exists i, n ::
      0 <= i < |was| && i <= |now| && 0 <= n && ReadSoFar(content, p, was, now, i, n) && now[i..] == was[i..]
  }

  lemma ReadWhole(content: seq<byte>, p: int, was: seq<seq<byte>>, now: seq<seq<byte>>, n: nat)
    requires ReadSoFar(content, p, was, now, |was|, n) && |now| == |was| && was != []
    ensures p >= 0 && n == |ReadAt(content, p, |Flat(was)|)|
    ensures Flat(now) == Overlaid(ReadAt(content, p, |Flat(was)|), Flat(was))
  {
    assert was[..|was|] == was && now[..|now|] == now;
  }

  /** A whole reading, byte by byte. */
  lemma ReadAll(content: seq<byte>, p: int, was: seq<seq<byte>>, now: seq<seq<byte>>, n: nat)
    requires ReadSoFar(content, p, was, now, |was|, n) && |now| == |was| && was != []
    ensures p >= 0
    ensures n == if |content| <= p then 0 else if |content| - p < |Flat(was)| then |content| - p else |Flat(was)|
    ensures |Flat(now)| == |Flat(was)|
    ensures forall i :: 0 <= i < n ==> Flat(now)[i] == content[p + i]
    ensures forall i :: n <= i < |Flat(was)| ==> Flat(now)[i] == Flat(was)[i]
  {
    hide Flat, ReadAt, ReadSoFar, Overlaid;
    ReadWhole(content, p, was, now, n);
    ReadAtIs(content, p, |Flat(was)|);
    OverlaidAt(ReadAt(content, p, |Flat(was)|), Flat(was));
  }

  lemma OverlaidAt(data: seq<byte>, before: seq<byte>)
    requires |data| <= |before|
    ensures |Overlaid(data, before)| == |before|
    ensures forall i :: 0 <= i < |data| ==> Overlaid(data, before)[i] == data[i]
    ensures forall i :: |data| <= i < |before| ==> Overlaid(data, before)[i] == before[i]
  {
  }

  lemma ReadUniform(content: seq<byte>, p: nat, was: seq<seq<byte>>, now: seq<seq<byte>>, i: nat, n: nat)
    requires ReadSoFar(content, p, was, now, i, n)
    ensures n == |ReadAt(content, p, |Flat(was[..i])|)|
    ensures Flat(now[..i]) == Overlaid(ReadAt(content, p, |Flat(was[..i])|), Flat(was[..i]))
  {
    if i == 0 {
      assert was[..0] == [] && now[..0] == [];
    }
  }

  lemma ReadNext(content: seq<byte>, p: nat, was: seq<seq<byte>>, now: seq<seq<byte>>, next: seq<seq<byte>>,
      i: nat, n: nat)
    requires ReadSoFar(content, p, was, now, i, n)
    requires i < |was| && i < |next| && next[..i] == now[..i]
    requires next[i] == Overlaid(ReadAt(content, p + n, |was[i]|), was[i])
    ensures ReadSoFar(content, p, was, next, i + 1, n + |ReadAt(content, p + n, |was[i]|)|)
  {
    hide ReadAt, Flat, Overlaid;
    ReadUniform(content, p, was, now, i, n);
    var a, m := ReadAt(content, p, |Flat(was[..i])|), |Flat(was[..i])|;
    ReadAtSplit(content, p, m, |was[i]|);
    assert was[..i + 1] == was[..i] + [was[i]];
    assert next[..i + 1] == now[..i] + [next[i]];
    FlatSnoc(was[..i], was[i]);
    FlatSnoc(now[..i], next[i]);
    OverlaidNext(a, Flat(was[..i]), ReadAt(content, p + |a|, |was[i]|), was[i]);
  }

  // What the server is asked for

  /** What the server's answers add up to. */
  ghost function Sum(log: seq<Access>): int {
    if log == [] then 0 else Sum(log[..|log| - 1]) + log[|log| - 1].ret
  }

  /** Request i is for piece i, where the one before it stopped. */
  ghost predicate AskedFor(log: seq<Access>, write: bool, fh: int, pieces: seq<seq<byte>>, p: int, i: nat) {
    && i < |log| && i < |pieces|
    && log[i] == Access(write, fh, |pieces[i]|, p + Sum(log[..i]), log[i].ret)
  }

  /** One request per piece, from the first on. */
  ghost predicate PerPiece(log: seq<Access>, write: bool, fh: int, pieces: seq<seq<byte>>, p: int) {
    |log| <= |pieces| && forall i | 0 <= i < |log| :: AskedFor(log, write, fh, pieces, p, i)
  }

  ghost predicate Answered(log: seq<Access>) {
    forall a :: a in log ==> a.ret >= 0
  }

  /** All that was asked was accepted. */
  ghost predicate Full(log: seq<Access>) {
    forall a :: a in log ==> a.ret == a.size
  }

  ghost function ButLast(log: seq<Access>): seq<Access> {
    if log == [] then [] else log[..|log| - 1]
  }

  ghost predicate LastShort(log: seq<Access>) {
    log != [] && 0 <= log[|log| - 1].ret < log[|log| - 1].size
  }

  ghost predicate LastFailed(log: seq<Access>) {
    log != [] && log[|log| - 1].ret < 0
  }

  /** What a reading has asked for, and what it makes of the answers: each piece is asked for until one fails or
      is larger than the shared buffer. */
  ghost predicate ReadAsked(log: seq<Access>, fh: int, pieces: seq<seq<byte>>, p: int, r: int) {
    && PerPiece(log, false, fh, pieces, p) && Answered(ButLast(log))
    && if r >= 0 then Answered(log) && |log| == |pieces| && r == Sum(log)
       else if LastFailed(log) then r == log[|log| - 1].ret
       else r == -ENOMEM && |log| < |pieces| && |pieces[|log|]| > MAX_RW_BUFFER_SIZE
  }

  /** What a writing has asked for, and what it makes of the answers: it goes on as long as the server accepts all
      of a piece, so that only a short answer at the end keeps it from writing all of them. */
  ghost predicate WriteAsked(log: seq<Access>, fh: int, pieces: seq<seq<byte>>, p: int, r: int) {
    && PerPiece(log, true, fh, pieces, p) && Full(ButLast(log))
    && (r < 0 ==> LastFailed(log) && r == log[|log| - 1].ret)
    && (r >= 0 ==> r == Sum(log) && (|log| == |pieces| || LastShort(log)))
    && (r >= 0 && Full(log) ==> r == |Flat(pieces)|)
    && (0 <= r < |Flat(pieces)| ==> LastShort(log))
  }

  lemma Since(before: seq<Access>, log: seq<Access>)
    ensures before <= before + log && (before + log)[|before|..] == log
  {
  }

  lemma NothingAsked(write: bool, fh: int, pieces: seq<seq<byte>>, p: int)
    ensures PerPiece([], write, fh, pieces, p) && Sum([]) == 0 && Full([]) && Answered([])
  {
  }

  lemma OneMoreAsked(log: seq<Access>, write: bool, fh: int, pieces: seq<seq<byte>>, p: int, ret: int)
    requires PerPiece(log, write, fh, pieces, p) && |log| < |pieces|
    ensures var more := log + [Access(write, fh, |pieces[|log|]|, p + Sum(log), ret)];
            && PerPiece(more, write, fh, pieces, p) && Sum(more) == Sum(log) + ret && ButLast(more) == log
            && more[|more| - 1].ret == ret
            && (Answered(log) && ret >= 0 ==> Answered(more))
            && (Full(log) && ret == |pieces[|log|]| ==> Full(more))
  {
    var last := Access(write, fh, |pieces[|log|]|, p + Sum(log), ret);
    var more := log + [last];
    assert more[..|more| - 1] == log && more[|more| - 1] == last;
    assert forall a :: a in more ==> a in log || a == last;
    forall i | 0 <= i < |more| ensures AskedFor(more, write, fh, pieces, p, i) {
      assert more[..i] == log[..i];
      if i < |log| {
        assert AskedFor(log, write, fh, pieces, p, i);
      } else {
        assert log[..i] == log;
      }
    }
  }

  lemma ReadStops(log: seq<Access>, fh: int, pieces: seq<seq<byte>>, p: int)
    requires PerPiece(log, false, fh, pieces, p) && Answered(log)
    requires |log| < |pieces| && |pieces[|log|]| > MAX_RW_BUFFER_SIZE
    ensures ReadAsked(log, fh, pieces, p, -ENOMEM)
  {
    if log != [] {
      assert log[|log| - 1] in log;
    }
    SumPositive(log);
  }

  lemma {:induction false} SumPositive(log: seq<Access>)
    requires Answered(log)
    ensures Sum(log) >= 0 && Answered(ButLast(log))
  {
    if log != [] {
      assert log[|log| - 1] in log;
      SumPositive(log[..|log| - 1]);
    }
  }

  lemma ReadFails(log: seq<Access>, fh: int, pieces: seq<seq<byte>>, p: int, err: int)
    requires PerPiece(log, false, fh, pieces, p) && Answered(log) && |log| < |pieces| && err < 0
    ensures |pieces[|log|]| > MAX_RW_BUFFER_SIZE ==> ReadAsked(log, fh, pieces, p, -ENOMEM)
    ensures ReadAsked(log + [Access(false, fh, |pieces[|log|]|, p + Sum(log), err)], fh, pieces, p, err)
  {
    hide PerPiece, Answered;
    OneMoreAsked(log, false, fh, pieces, p, err);
    if |pieces[|log|]| > MAX_RW_BUFFER_SIZE {
      ReadStops(log, fh, pieces, p);
    }
  }

  lemma ReadEnds(log: seq<Access>, fh: int, pieces: seq<seq<byte>>, p: int)
    requires PerPiece(log, false, fh, pieces, p) && Answered(log) && |log| == |pieces|
    ensures ReadAsked(log, fh, pieces, p, Sum(log))
  {
    SumPositive(log);
  }

  lemma WriteFails(log: seq<Access>, fh: int, pieces: seq<seq<byte>>, p: int)
    requires PerPiece(log, true, fh, pieces, p) && Full(ButLast(log)) && LastFailed(log)
    ensures WriteAsked(log, fh, pieces, p, log[|log| - 1].ret)
  {
  }

  /** If all of each piece was accepted, all of them together was. */
  lemma {:induction false} FullSum(log: seq<Access>, write: bool, fh: int, pieces: seq<seq<byte>>, p: int)
    requires PerPiece(log, write, fh, pieces, p) && Full(log)
    ensures Sum(log) == |Flat(pieces[..|log|])|
  {
    if log != [] {
      var n := |log| - 1;
      forall i | 0 <= i < n ensures AskedFor(log[..n], write, fh, pieces, p, i) {
        assert AskedFor(log, write, fh, pieces, p, i);
        assert log[..n][..i] == log[..i];
      }
      FullSum(log[..n], write, fh, pieces, p);
      assert AskedFor(log, write, fh, pieces, p, n) && log[n] in log;
      assert pieces[..|log|] == pieces[..n] + [pieces[n]];
      FlatSnoc(pieces[..n], pieces[n]);
    }
  }

  /** A writing that ran out of pieces, or was cut short. */
  lemma WriteEnds(log: seq<Access>, fh: int, pieces: seq<seq<byte>>, p: int)
    requires PerPiece(log, true, fh, pieces, p) && Sum(log) >= 0
    requires (Full(log) && |log| == |pieces|) || (Full(ButLast(log)) && LastShort(log))
    ensures WriteAsked(log, fh, pieces, p, Sum(log))
  {
    hide PerPiece, Flat, Sum;
    if LastShort(log) {
      assert log[|log| - 1] in log && !Full(log);
    }
    if Full(log) {
      FullSum(log, true, fh, pieces, p);
      assert pieces[..|pieces|] == pieces;
      assert forall a :: a in ButLast(log) ==> a in log;
    }
  }

  /** A reading under way: what it has read, and what it has asked for. */
  ghost predicate Reading(content: seq<byte>, fh: int, p: int, was: seq<seq<byte>>, now: seq<seq<byte>>,
      i: nat, n: nat, log: seq<Access>) {
    && ReadSoFar(content, p, was, now, i, n)
    && |log| == i && PerPiece(log, false, fh, was, p) && Answered(log) && Sum(log) == n
  }

  lemma ReadingStarts(content: seq<byte>, fh: int, p: int, was: seq<seq<byte>>)
    ensures Reading(content, fh, p, was, was, 0, 0, [])
  {
    NothingAsked(false, fh, was, p);
  }

  lemma ReadingFits(content: seq<byte>, fh: int, p: int, was: seq<seq<byte>>, now: seq<seq<byte>>,
      i: nat, n: nat, log: seq<Access>)
    requires Reading(content, fh, p, was, now, i, n, log)
    ensures i == 0 ==> n == 0
  {
  }

  lemma ReadingNext(content: seq<byte>, fh: int, p: nat, was: seq<seq<byte>>, now: seq<seq<byte>>,
      next: seq<seq<byte>>, i: nat, n: nat, log: seq<Access>)
    requires Reading(content, fh, p, was, now, i, n, log)
    requires i < |was| && i < |next| && next[..i] == now[..i]
    requires next[i] == Overlaid(ReadAt(content, p + n, |was[i]|), was[i])
    ensures var len := |ReadAt(content, p + n, |was[i]|)|;
            Reading(content, fh, p, was, next, i + 1, n + len, log + [Access(false, fh, |was[i]|, p + n, len)])
  {
    ReadNext(content, p, was, now, next, i, n);
    OneMoreAsked(log, false, fh, was, p, |ReadAt(content, p + n, |was[i]|)|);
    hide ReadSoFar, PerPiece, Answered, Sum, ReadAt, Overlaid;
  }

  lemma ReadingFails(content: seq<byte>, fh: int, p: int, was: seq<seq<byte>>, now: seq<seq<byte>>,
      i: nat, n: nat, log: seq<Access>, err: int)
    requires Reading(content, fh, p, was, now, i, n, log) && i < |was| && now[i..] == was[i..] && err < 0
    ensures FailedReading(content, p, was, now)
    ensures |was[i]| > MAX_RW_BUFFER_SIZE ==> ReadAsked(log, fh, was, p, -ENOMEM)
    ensures ReadAsked(log + [Access(false, fh, |was[i]|, p + n, err)], fh, was, p, err)
  {
    ReadFails(log, fh, was, p, err);
    hide PerPiece, Answered, Sum, ReadAsked, ReadSoFar;
  }

  lemma ReadingEnds(content: seq<byte>, fh: int, p: int, was: seq<seq<byte>>, now: seq<seq<byte>>,
      n: nat, log: seq<Access>)
    requires Reading(content, fh, p, was, now, |was|, n, log) && |now| == |was|
    ensures ReadAsked(log, fh, was, p, n)
    ensures was == [] ==> n == 0
    ensures was != [] ==> p >= 0 && |Flat(now)| == |Flat(was)|
    ensures was != [] ==>
              n == if |content| <= p then 0 else if |content| - p < |Flat(was)| then |content| - p else |Flat(was)|
    ensures was != [] ==> forall i :: 0 <= i < n ==> Flat(now)[i] == content[p + i]
    ensures was != [] ==> forall i :: n <= i < |Flat(was)| ==> Flat(now)[i] == Flat(was)[i]
  {
    hide Flat, PerPiece, Answered, Sum, ReadAsked;
    ReadEnds(log, fh, was, p);
    if was != [] {
      ReadAll(content, p, was, now, n);
    }
  }

  // Writing

  /** One file of many is overwritten. */
  ghost function Written(files: Contents, node: nat, p: nat, data: seq<byte>): Contents
    requires node in files
  {
    files[node := WriteAt(files[node], p, data)]
  }

  ghost predicate WroteSoFar(files: Contents, now: Contents, node: nat, p: int, pieces: seq<seq<byte>>, i: nat) {
    && i <= |pieces|
    && if i == 0 then now == files else p >= 0 && node in files && now == Written(files, node, p, Flat(pieces[..i]))
  }

  /** An error leaves exactly the pieces before the failing one written. */
  ghost predicate FailedAt(files: Contents, now: Contents, node: nat, p: int, pieces: seq<seq<byte>>) {
    exists i :: 0 <= i < |pieces| && WroteSoFar(files, now, node, p, pieces, i)
  }

  lemma NothingWritten(files: Contents, node: nat, p: int, pieces: seq<seq<byte>>)
    ensures WroteSoFar(files, files, node, p, pieces, 0) && Flat(pieces[..0]) == []
  {
  }

  /** A server that accepts `len` bytes of piece i. */
  lemma WriteNext(files: Contents, before: Contents, node: nat, p: nat, pieces: seq<seq<byte>>,
      i: nat, len: nat)
    requires WroteSoFar(files, before, node, p, pieces, i) && i < |pieces| && len <= |pieces[i]| && node in before
    ensures node in files
    ensures var now := Written(before, node, p + |Flat(pieces[..i])|, pieces[i][..len]);
            && now == Written(files, node, p, Flat(pieces[..i]) + pieces[i][..len])
            && (len == |pieces[i]| ==>
                  && WroteSoFar(files, now, node, p, pieces, i + 1)
                  && |Flat(pieces[..i + 1])| == |Flat(pieces[..i])| + len)
    ensures |Flat(pieces[..i])| + len <= |Flat(pieces)|
    ensures Flat(pieces[..i]) + pieces[i][..len] == Flat(pieces)[..|Flat(pieces[..i])| + len]
  {
    hide WriteAt, Flat;
    var done := Flat(pieces[..i]);
    if i == 0 {
      NothingWritten(files, node, p, pieces);
      assert [] + pieces[i][..len] == pieces[i][..len];
    } else {
      WriteAtAdjacent(files[node], p, done, pieces[i][..len]);
      assert before[node] == WriteAt(files[node], p, done);
      assert Written(before, node, p + |done|, pieces[i][..len]) == Written(files, node, p, done + pieces[i][..len]);
    }
    assert pieces[..i + 1] == pieces[..i] + [pieces[i]];
    FlatSnoc(pieces[..i], pieces[i]);
    assert pieces[i][..|pieces[i]|] == pieces[i];
    UptoPrefix(pieces, i, len);
    assert Upto(pieces, i, len) == done + pieces[i][..len];
  }

  /** A writing under way: what it has written, and what it has asked for. */
  ghost predicate Writing(files: Contents, now: Contents, node: nat, fh: int, p: int, pieces: seq<seq<byte>>,
      i: nat, n: nat, log: seq<Access>) {
    && WroteSoFar(files, now, node, p, pieces, i) && n == |Flat(pieces[..i])|
    && |log| == i && PerPiece(log, true, fh, pieces, p) && Full(log) && Sum(log) == n
  }

  lemma WritingStarts(files: Contents, node: nat, fh: int, p: int, pieces: seq<seq<byte>>)
    ensures Writing(files, files, node, fh, p, pieces, 0, 0, [])
  {
    NothingWritten(files, node, p, pieces);
    NothingAsked(true, fh, pieces, p);
  }

  lemma WritingFits(files: Contents, now: Contents, node: nat, fh: int, p: int, pieces: seq<seq<byte>>,
      i: nat, n: nat, log: seq<Access>)
    requires Writing(files, now, node, fh, p, pieces, i, n, log)
    ensures |log| == i && (i == 0 ==> n == 0)
    ensures forall a: Access :: (log + [a])[..i] == log
  {
    NothingWritten(files, node, p, pieces);
  }

  /** The server accepted `len` bytes of piece i: all of it, and writing goes on, or less, and it ends. */
  lemma WritingNext(files: Contents, now: Contents, node: nat, fh: int, p: nat, pieces: seq<seq<byte>>,
      i: nat, n: nat, log: seq<Access>, len: nat)
    requires Writing(files, now, node, fh, p, pieces, i, n, log)
    requires i < |pieces| && len <= |pieces[i]| && node in now
    ensures node in files && n + len <= |Flat(pieces)|
    ensures var next := Written(now, node, p + n, pieces[i][..len]);
            var more := log + [Access(true, fh, |pieces[i]|, p + n, len)];
            && next == Written(files, node, p, Flat(pieces)[..n + len])
            && if len == |pieces[i]| then Writing(files, next, node, fh, p, pieces, i + 1, n + len, more)
               else WriteAsked(more, fh, pieces, p, n + len)
  {
    hide Flat, PerPiece, Sum, Full, WriteAt, WriteAsked, Written;
    WriteNext(files, now, node, p, pieces, i, len);
    OneMoreAsked(log, true, fh, pieces, p, len);
    if len != |pieces[i]| {
      WriteEnds(log + [Access(true, fh, |pieces[i]|, p + n, len)], fh, pieces, p);
    }
  }

  lemma WritingFails(files: Contents, now: Contents, node: nat, fh: int, p: int, pieces: seq<seq<byte>>,
      i: nat, n: nat, log: seq<Access>, err: int)
    requires Writing(files, now, node, fh, p, pieces, i, n, log) && i < |pieces| && err < 0
    ensures FailedAt(files, now, node, p, pieces)
    ensures WriteAsked(log + [Access(true, fh, |pieces[i]|, p + n, err)], fh, pieces, p, err)
  {
    hide Flat, PerPiece, Sum, Full, WriteAsked, WroteSoFar;
    OneMoreAsked(log, true, fh, pieces, p, err);
    WriteFails(log + [Access(true, fh, |pieces[i]|, p + n, err)], fh, pieces, p);
  }

  lemma WritingEnds(files: Contents, now: Contents, node: nat, fh: int, p: int, pieces: seq<seq<byte>>,
      n: nat, log: seq<Access>)
    requires Writing(files, now, node, fh, p, pieces, |pieces|, n, log)
    ensures n == |Flat(pieces)| && WriteAsked(log, fh, pieces, p, n)
    ensures pieces == [] ==> n == 0 && now == files
    ensures pieces != [] ==> p >= 0 && node in files && now == Written(files, node, p, Flat(pieces)[..n])
  {
    assert pieces[..|pieces|] == pieces && Flat(pieces)[..|Flat(pieces)|] == Flat(pieces);
    NothingWritten(files, node, p, pieces);
    WriteEnds(log, fh, pieces, p);
    hide PerPiece, Sum, Full, WriteAsked, WriteAt;
  }

  /** memcpy to the front of a piece of memory. */
  method Copy(to: array<byte>, from: array<byte>, n: nat)
    requires n <= to.Length && n <= from.Length && to != from
    modifies to
    ensures to[..] == from[..n] + old(to[n..])
  {
    for k := 0 to n
      invariant to[..k] == from[..k] && to[k..] == old(to[k..])
    {
      to[k] := from[k];
    }
    assert to[..] == to[..n] + to[n..];
  }

  class L4fsFile {
    const svr: Server
    var fh: int

    constructor (svr: Server, fh: int)
      ensures this.svr == svr && this.fh == fh
    {
      this.svr, this.fh := svr, fh;
    }

    /** Reads into the pieces in order. A result counts the bytes of the file there are at `p`, up to the total
        length; they fill the pieces from the front, and the rest of the memory is as it was. Every piece is asked
        for, unless the server fails or a piece is larger than the shared buffer. */
    method Preadv(iov: seq<array<byte>>, p: int) returns (r: int)
      requires svr.Valid() && Separate(iov, svr.rwBuf)
      modifies svr.rwBuf, svr`asked, iov
      ensures r >= 0 && iov != [] ==> svr.Usable(fh) && p >= 0
      ensures r >= 0 && iov != [] ==>
                var file, before, after := svr.File(fh), Flat(old(Pieces(iov))), Flat(Pieces(iov));
                && r == (if |file| <= p then 0 else if |file| - p < |before| then |file| - p else |before|)
                && |after| == |before|
                && (forall i :: 0 <= i < r ==> after[i] == file[p + i])
                && (forall i :: r <= i < |before| ==> after[i] == before[i])
      ensures iov == [] ==> r == 0
      ensures r < 0 ==> FailedReading(if svr.Usable(fh) then svr.File(fh) else [], p, old(Pieces(iov)), Pieces(iov))
      ensures old(svr.asked) <= svr.asked
      ensures ReadAsked(svr.asked[|old(svr.asked)|..], fh, old(Pieces(iov)), p, r)
      ensures svr.sound && svr.Usable(fh) && p >= 0 && AllWithin(iov) ==> r >= 0
      ensures !AllWithin(iov) ==> r < 0
    {
      hide Reading, Flat, ReadAt, ReadAsked, FailedReading, Overlaid;
      ghost var was, content := Pieces(iov), if svr.Usable(fh) then svr.File(fh) else [];
      ghost var asked, log: seq<Access> := svr.asked, [];
      ReadingStarts(content, fh, p, was);
      var readBytes, at := 0, p;
      for i := 0 to |iov|
        invariant at == p + readBytes && readBytes >= 0
        invariant i > 0 ==> svr.Usable(fh) && p >= 0
        invariant Reading(content, fh, p, was, Pieces(iov), i, readBytes, log) && svr.asked == asked + log
        invariant forall j :: i <= j < |iov| ==> iov[j][..] == was[j]
        invariant forall j :: 0 <= j < i ==> iov[j].Length <= MAX_RW_BUFFER_SIZE
      {
        var buf := iov[i];
        ghost var pieces := Pieces(iov);
        ReadingFits(content, fh, p, was, pieces, i, readBytes, log);
        var err, len := ReadPiece(buf, at);
        if err < 0 {
          assert Pieces(iov) == pieces && pieces[i..] == was[i..];
          ReadingFails(content, fh, p, was, pieces, i, readBytes, log, err);
          ghost var last := Access(false, fh, buf.Length, at, err);
          assert asked + log + [last] == asked + (log + [last]);
          Since(asked, if buf.Length > MAX_RW_BUFFER_SIZE then log else log + [last]);
          return err;
        }
        assert Pieces(iov)[..i] == pieces[..i];
        ReadingNext(content, fh, p, was, pieces, Pieces(iov), i, readBytes, log);
        log := log + [Access(false, fh, buf.Length, at, len)];
        readBytes := readBytes + len;
        at := at + len;
      }
      Since(asked, log);
      ReadingEnds(content, fh, p, was, Pieces(iov), readBytes, log);
      r := readBytes;
    }

    /** One round of reading. */
    method ReadPiece(buf: array<byte>, at: int) returns (err: int, len: nat)
      requires svr.Valid() && buf != svr.rwBuf
      modifies svr.rwBuf, svr`asked, buf
      ensures err <= 0
      ensures err < 0 ==> buf[..] == old(buf[..])
      ensures err == 0 ==> svr.Usable(fh) && at >= 0 && buf.Length <= MAX_RW_BUFFER_SIZE
      ensures err == 0 ==> len == |ReadAt(svr.File(fh), at, buf.Length)| <= buf.Length
      ensures err == 0 ==> buf[..] == Overlaid(ReadAt(svr.File(fh), at, buf.Length), old(buf[..]))
      ensures buf.Length > MAX_RW_BUFFER_SIZE ==> err == -ENOMEM && svr.asked == old(svr.asked)
      ensures buf.Length <= MAX_RW_BUFFER_SIZE ==>
                svr.asked == old(svr.asked) + [Access(false, fh, buf.Length, at, if err < 0 then err else len)]
      ensures svr.sound && svr.Usable(fh) && at >= 0 && buf.Length <= MAX_RW_BUFFER_SIZE ==> err == 0
    {
      hide ReadAt;
      err, len := CallPread(svr, fh, buf.Length, at);
      if err == 0 {
        Copy(buf, svr.rwBuf, len);
      }
    }

    /** Writes the pieces in order. A result counts how much of their concatenation now stands at `p`; on an
        error exactly the pieces before the failing one do. It goes on as long as the server accepts all of a
        piece. The source copies a piece before it checks its length, so a caller has to keep each within the
        shared buffer. */
    method Pwritev(iov: seq<array<byte>>, p: int) returns (r: int)
      requires svr.Valid() && Separate(iov, svr.rwBuf)
      requires AllWithin(iov)
      modifies svr.rwBuf, svr`files, svr`asked
      ensures svr.Valid()
      ensures r >= 0 && iov != [] ==> svr.Usable(fh) && p >= 0 && r <= |Flat(Pieces(iov))|
      ensures r >= 0 && iov != [] ==> svr.files == Written(old(svr.files), svr.handles[fh], p, Flat(Pieces(iov))[..r])
      ensures iov == [] ==> r == 0 && svr.files == old(svr.files)
      ensures r < 0 ==>
                FailedAt(old(svr.files), svr.files, if svr.Usable(fh) then svr.handles[fh] else 0, p, Pieces(iov))
      ensures old(svr.asked) <= svr.asked
      ensures WriteAsked(svr.asked[|old(svr.asked)|..], fh, Pieces(iov), p, r)
      ensures svr.sound && svr.Usable(fh) && p >= 0 ==>
                r >= 0 && (iov != [] && iov[0].Length > 0 ==> r >= 1)
    {
      hide Writing, Flat, WriteAt, WriteAsked, FailedAt, Written;
      ghost var was, files := Pieces(iov), svr.files;
      ghost var node := if svr.Usable(fh) then svr.handles[fh] else 0;
      ghost var asked, log: seq<Access> := svr.asked, [];
      WritingStarts(files, node, fh, p, was);
      ghost var whole := true;
      var writtenBytes, at := 0, p;
      for i := 0 to |iov|
        invariant whole && svr.Valid() && Pieces(iov) == was && at == p + writtenBytes
        invariant i > 0 ==> svr.Usable(fh) && p >= 0
        invariant Writing(files, svr.files, node, fh, p, was, i, writtenBytes, log) && svr.asked == asked + log
        invariant i > 0 && svr.sound && iov[0].Length > 0 ==> writtenBytes >= 1
      {
        var buf := iov[i];
        ghost var before := svr.files;
        WritingFits(files, before, node, fh, p, was, i, writtenBytes, log);
        var err, len := WritePiece(buf, at);
        log := log + [Access(true, fh, buf.Length, at, if err < 0 then err else len)];
        assert svr.asked[|asked|..] == log;
        if err < 0 {
          WritingFails(files, before, node, fh, p, was, i, writtenBytes, log[..i], err);
          return err;
        }
        WritingNext(files, before, node, fh, p, was, i, writtenBytes, log[..i], len);
        writtenBytes := writtenBytes + len;
        at := at + len;
        if len != buf.Length {
          whole := false;
          break;
        }
      }
      assert svr.asked[|asked|..] == log;
      if whole {
        WritingEnds(files, svr.files, node, fh, p, was, writtenBytes, log);
      }
      r := writtenBytes;
    }

    /** One round of writing. */
    method WritePiece(buf: array<byte>, at: int) returns (err: int, len: nat)
      requires svr.Valid() && buf != svr.rwBuf && buf.Length <= MAX_RW_BUFFER_SIZE
      modifies svr.rwBuf, svr`files, svr`asked
      ensures svr.Valid() && err <= 0
      ensures err == 0 ==> svr.Usable(fh) && at >= 0 && len <= buf.Length
      ensures err == 0 ==> svr.files == Written(old(svr.files), svr.handles[fh], at, buf[..][..len])
      ensures err < 0 ==> svr.files == old(svr.files)
      ensures svr.asked == old(svr.asked) + [Access(true, fh, buf.Length, at, if err < 0 then err else len)]
      ensures svr.sound && svr.Usable(fh) && at >= 0 ==> err == 0 && (buf.Length > 0 ==> len >= 1)
    {
      hide WriteAt;
      Copy(svr.rwBuf, buf, buf.Length);
      err, len := CallPwrite(svr, fh, buf.Length, at);
      assert err == 0 ==> svr.rwBuf[..len] == buf[..][..len];
    }
  }

  // Round trip

  /** What was written is read back, and if more is asked for it comes first. */
  lemma ReadBack(content: seq<byte>, p: nat, data: seq<byte>, n: nat)
    requires |data| <= n
    ensures data <= ReadAt(WriteAt(content, p, data), p, n)
  {
    ReadAfterWrite(content, p, data);
    ReadAtSplit(WriteAt(content, p, data), p, |data|, n - |data|);
  }

  /** Memory read from where `data` was written starts with it. */
  lemma ReadBackFront(content: seq<byte>, p: nat, data: seq<byte>, after: seq<byte>, r: nat)
    requires var file := WriteAt(content, p, data);
             && r == (if |file| <= p then 0 else if |file| - p < |after| then |file| - p else |after|)
             && forall i :: 0 <= i < r ==> after[i] == file[p + i]
    requires |data| <= |after|
    ensures |data| <= r && after[..|data|] == data
  {
    var file := WriteAt(content, p, data);
    ReadBack(content, p, data, |after|);
    ReadAtIs(file, p, |after|);
    hide WriteAt;
    assert forall i :: 0 <= i < |data| ==> data[i] == ReadAt(file, p, |after|)[i] == file[p + i];
  }

  /** Writing some pieces and reading as many bytes from the same place into other pieces, however they are
      cut: the memory read into starts with all that was accepted; if all was, it equals what was written.
      `between` is what the server had been asked for in between. */
  method WriteThenRead(file: L4fsFile, out: seq<array<byte>>, into: seq<array<byte>>, p: int)
    returns (w: int, r: int, ghost between: seq<Access>)
    requires file.svr.Valid() && Separate(out, file.svr.rwBuf) && Separate(into, file.svr.rwBuf)
    requires AllWithin(out) && forall i :: 0 <= i < |out| ==> out[i] !in into
    requires |Flat(Pieces(out))| == |Flat(Pieces(into))| && out != [] && into != []
    modifies file.svr.rwBuf, file.svr`files, file.svr`asked, into
    ensures Pieces(out) == old(Pieces(out)) && file.svr.Valid()
    ensures old(file.svr.asked) <= between <= file.svr.asked
    ensures WriteAsked(between[|old(file.svr.asked)|..], file.fh, Pieces(out), p, w)
    ensures ReadAsked(file.svr.asked[|between|..], file.fh, old(Pieces(into)), p, r)
    ensures w >= 0 && r >= 0 ==> w <= |Flat(Pieces(out))| && |Flat(Pieces(into))| == |Flat(Pieces(out))|
    ensures w >= 0 && r >= 0 ==> Flat(Pieces(into))[..w] == Flat(Pieces(out))[..w]
    ensures w >= 0 && r >= 0 && Full(between[|old(file.svr.asked)|..]) ==>
              Flat(Pieces(into)) == Flat(Pieces(out)) && r == w == |Flat(Pieces(out))|
  {
    hide Flat, ReadAt, WriteAt, Pieces, PerPiece, ReadAsked, FailedAt, FailedReading;
    ghost var bytes, before := Flat(Pieces(out)), file.svr.files;
    w := file.Pwritev(out, p);
    between := file.svr.asked;
    r := file.Preadv(into, p);
    if w >= 0 && r >= 0 {
      ghost var after := Flat(Pieces(into));
      ReadBackFront(before[file.svr.handles[file.fh]], p, bytes[..w], after, r);
      assert w == |bytes| ==> after[..w] == after && bytes[..w] == bytes;
    }
  }
}
