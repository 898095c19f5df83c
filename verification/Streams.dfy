/**
 A byte stream made of blocks sent one after the other, and positions in it.
 */
module Streams {
  import opened Bytes

  function Flat(blocks: seq<seq<byte>>): seq<byte> {
    if blocks == [] then [] else blocks[0] + Flat(blocks[1..])
  }

  lemma {:induction false} FlatSnoc(blocks: seq<seq<byte>>, block: seq<byte>)
    ensures Flat(blocks + [block]) == Flat(blocks) + block
  {
    if blocks == [] {
      assert Flat([block]) == block + Flat([]);
    } else {
      assert (blocks + [block])[1..] == blocks[1..] + [block];
      FlatSnoc(blocks[1..], block);
    }
  }

  /** Position `n` of block `i`; the end of the stream is position zero of the block after the last. */
  ghost predicate Position(blocks: seq<seq<byte>>, i: nat, n: int) {
    i <= |blocks| && if i < |blocks| then 0 <= n <= |blocks[i]| else n == 0
  }

  /** The stream up to a position. */
  ghost function Upto(blocks: seq<seq<byte>>, i: nat, n: int): seq<byte>
    requires Position(blocks, i, n)
  {
    if i < |blocks| then Flat(blocks[..i]) + blocks[i][..n] else Flat(blocks)
  }

  lemma UptoGrows(blocks: seq<seq<byte>>, i: nat, n: nat, k: nat)
    requires i < |blocks| && n + k <= |blocks[i]|
    ensures Upto(blocks, i, n) + blocks[i][n..n + k] == Upto(blocks, i, n + k)
  {
    assert blocks[i][..n] + blocks[i][n..n + k] == blocks[i][..n + k];
  }

  lemma UptoNext(blocks: seq<seq<byte>>, i: nat)
    requires i < |blocks|
    ensures Upto(blocks, i, |blocks[i]|) == Upto(blocks, i + 1, 0)
  {
    assert blocks[..i] + [blocks[i]] == blocks[..i + 1];
    assert blocks[..|blocks|] == blocks;
    FlatSnoc(blocks[..i], blocks[i]);
  }

  /** Whatever has passed is a prefix of all there is. */
  lemma {:induction false} UptoPrefix(blocks: seq<seq<byte>>, i: nat, n: int)
    requires Position(blocks, i, n)
    ensures Upto(blocks, i, n) <= Flat(blocks)
    decreases |blocks| - i
  {
    hide Flat;
    if i < |blocks| {
      UptoGrows(blocks, i, n, |blocks[i]| - n);
      UptoNext(blocks, i);
      UptoPrefix(blocks, i + 1, 0);
    }
  }

  /** The end of a block is not behind any position in a later one. */
  lemma {:induction false} UptoOrdered(blocks: seq<seq<byte>>, i: nat, n: int, j: nat, m: int)
    requires Position(blocks, i, n) && Position(blocks, j, m) && i < j
    ensures |Upto(blocks, i, n)| + |blocks[i]| - n <= |Upto(blocks, j, m)|
    decreases j - i
  {
    hide Flat;
    UptoGrows(blocks, i, n, |blocks[i]| - n);
    UptoNext(blocks, i);
    if i + 1 < j {
      UptoOrdered(blocks, i + 1, 0, j, m);
    }
  }

  /** Two continuations of one prefix of a stream agree as far as both reach. */
  lemma SamePlace(p: seq<byte>, a: seq<byte>, b: seq<byte>, whole: seq<byte>)
    requires p + a <= whole && p + b <= whole && |a| <= |b|
    ensures b[..|a|] == a
  {
    assert forall i :: 0 <= i < |a| ==> a[i] == (p + a)[|p| + i] == whole[|p| + i] == (p + b)[|p| + i] == b[i];
  }

  /** If all that was taken and is in flight has been sent, the next `k` bytes in flight are the next of the
      block the reader is in. */
  lemma NextInFlight(blocks: seq<seq<byte>>, i: nat, n: int, j: nat, m: int, flight: seq<byte>, k: nat)
    requires Position(blocks, i, n) && Position(blocks, j, m)
    requires Upto(blocks, j, m) + flight == Upto(blocks, i, n)
    requires 1 <= k <= |flight| && (j < |blocks| ==> m + k <= |blocks[j]|)
    ensures j < |blocks|
    ensures flight[..k] == blocks[j][m..m + k]
    ensures Upto(blocks, j, m + k) + flight[k..] == Upto(blocks, i, n)
  {
    hide Flat;
    UptoPrefix(blocks, i, n);
    if j == |blocks| {
      assert false;
    } else {
      UptoPrefix(blocks, j, m + k);
      UptoGrows(blocks, j, m, k);
      SamePlace(Upto(blocks, j, m), blocks[j][m..m + k], flight, Flat(blocks));
      assert flight == flight[..k] + flight[k..];
    }
  }

  lemma CancelPrefix(p: seq<byte>, a: seq<byte>, b: seq<byte>)
    requires p + a == p + b
    ensures a == b
  {
    assert (p + a)[|p|..] == a && (p + b)[|p|..] == b;
  }
}
