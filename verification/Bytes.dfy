/**
 Bytes, the little-endian 32-bit integers both ends of a connection use, C strings,
 and the effect of a write at an offset of a file.
 */
module Bytes {

  newtype byte = x: int | 0 <= x < 256

  // ---- 32-bit integers as the four bytes that cross the wire ----

  ghost predicate IsInt32(x: int) {
    -0x8000_0000 <= x < 0x8000_0000
  }

  /** The memory image of an int32_t on a little-endian machine. */
  function EncodeInt32(x: int): (bs: seq<byte>)
    requires IsInt32(x)
    ensures |bs| == 4
  {
    var u := x % 0x1_0000_0000;
    [(u % 0x100) as byte, (u / 0x100 % 0x100) as byte, (u / 0x1_0000 % 0x100) as byte, (u / 0x100_0000) as byte]
  }

  /** The value of four bytes read back as an unsigned word. */
  function DecodeWord(bs: seq<byte>): (u: nat)
    requires |bs| == 4
    ensures u < 0x1_0000_0000
  {
    bs[0] as int + 0x100 * bs[1] as int + 0x1_0000 * bs[2] as int + 0x100_0000 * bs[3] as int
  }

  function DecodeInt32(bs: seq<byte>): (x: int)
    requires |bs| == 4
    ensures IsInt32(x)
  {
    var u := DecodeWord(bs);
    if u < 0x8000_0000 then u else u - 0x1_0000_0000
  }

  /** Four bytes sent as an int32_t are received as the same int32_t. */
  lemma Int32RoundTrip(x: int)
    requires IsInt32(x)
    ensures DecodeWord(EncodeInt32(x)) == x % 0x1_0000_0000
    ensures DecodeInt32(EncodeInt32(x)) == x
  {
    var u := x % 0x1_0000_0000;
    assert u / 0x100 / 0x100 == u / 0x1_0000 && u / 0x1_0000 / 0x100 == u / 0x100_0000;
  }

  /** Adjacent slices join. */
  lemma Glue(s: seq<byte>, a: nat, b: nat, c: nat)
    requires a <= b <= c <= |s|
    ensures s[a..b] + s[b..c] == s[a..c]
  {
  }

  /** A slice of a slice. */
  lemma SubSlice(s: seq<byte>, a: nat, b: nat, i: nat, j: nat)
    requires i <= j && a + j <= b <= |s|
    ensures s[a..b][i..j] == s[a + i..a + j]
  {
    assert forall m :: 0 <= m < j - i ==> s[a..b][i..j][m] == s[a..b][i + m] == s[a + i..a + j][m];
  }

  // ---- C strings ----

  /** The bytes before the first NUL; a block without one is returned whole. */
  function CString(block: seq<byte>): (s: seq<byte>)
    ensures s <= block && 0 !in s
    ensures |s| < |block| ==> block[|s|] == 0
  {
    if block == [] || block[0] == 0 then [] else [block[0]] + CString(block[1..])
  }

  /** Whatever stale bytes follow its NUL, a string reads back as itself. */
  lemma {:induction false} CStringOfTerminated(s: seq<byte>, stale: seq<byte>)
    requires 0 !in s
    ensures CString(s + [0] + stale) == s
  {
    var block := s + [0] + stale;
    if s == [] {
    } else {
      assert block[1..] == s[1..] + [0] + stale;
      CStringOfTerminated(s[1..], stale);
    }
  }

  lemma {:induction false} CStringStopsAtNul(block: seq<byte>, stale: seq<byte>)
    requires 0 in block
    ensures CString(block + stale) == CString(block) && |CString(block)| < |block|
  {
    if block[0] != 0 {
      assert (block + stale)[1..] == block[1..] + stale;
      CStringStopsAtNul(block[1..], stale);
    }
  }

  // ---- Overwriting ----

  /** A byte file after `bs` is written at `offset`: a gap reads as zeros, and what lies beyond the
      written range stays. Writing nothing changes nothing, not even beyond the end. */
  function WriteAt(content: seq<byte>, offset: nat, bs: seq<byte>): (r: seq<byte>)
    ensures bs == [] ==> r == content
    ensures bs != [] ==> |r| == if |content| < offset + |bs| then offset + |bs| else |content|
    ensures bs != [] ==> r[offset..offset + |bs|] == bs
    ensures forall i :: 0 <= i < |r| && i < offset ==> r[i] == if i < |content| then content[i] else 0
    ensures forall i :: offset + |bs| <= i < |content| ==> i < |r| && r[i] == content[i]
  {
    if bs == [] then content
    else
      var before := if offset <= |content| then content[..offset]
                    else content + seq(offset - |content|, _ => 0 as byte);
      var after := if offset + |bs| <= |content| then content[offset + |bs|..] else [];
      before + bs + after
  }

  /** Two adjacent writes are one write of both pieces. */
  lemma WriteAtAdjacent(content: seq<byte>, offset: nat, a: seq<byte>, b: seq<byte>)
    ensures WriteAt(WriteAt(content, offset, a), offset + |a|, b) == WriteAt(content, offset, a + b)
  {
    hide WriteAt;
    if a == [] {
      assert a + b == b;
    } else if b == [] {
      assert a + b == a;
    } else {
      var once := WriteAt(content, offset, a);
      var twice := WriteAt(once, offset + |a|, b);
      var whole := WriteAt(content, offset, a + b);
      assert |twice| == |whole|;
      forall i | 0 <= i < |whole|
        ensures twice[i] == whole[i]
      {
        if offset <= i < offset + |a| {
          assert once[i] == once[offset..offset + |a|][i - offset] == a[i - offset];
          assert whole[i] == whole[offset..offset + |a + b|][i - offset];
        } else if offset + |a| <= i < offset + |a| + |b| {
          assert twice[i] == twice[offset + |a|..offset + |a| + |b|][i - offset - |a|];
          assert whole[i] == whole[offset..offset + |a + b|][i - offset];
        }
      }
    }
  }

  /** The part of a file a read of `len` bytes at `offset` can return. */
  function ReadAt(content: seq<byte>, offset: nat, len: nat): (r: seq<byte>)
    ensures |r| <= len
  {
    if |content| <= offset then []
    else if |content| < offset + len then content[offset..]
    else content[offset..offset + len]
  }

  /** It is what there is of the file at the offset, up to the end of the file and no further. */
  lemma ReadAtIs(content: seq<byte>, offset: nat, len: nat)
    ensures |ReadAt(content, offset, len)|
         == if |content| <= offset then 0 else if |content| - offset < len then |content| - offset else len
    ensures forall i :: 0 <= i < |ReadAt(content, offset, len)| ==>
              ReadAt(content, offset, len)[i] == content[offset + i]
  {
  }

  /** What was written is read back. */
  lemma ReadAfterWrite(content: seq<byte>, offset: nat, bs: seq<byte>)
    ensures ReadAt(WriteAt(content, offset, bs), offset, |bs|) == bs
  {
    if bs != [] {
      var r := WriteAt(content, offset, bs);
      assert r[offset..offset + |bs|] == bs;
    }
  }
}
