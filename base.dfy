/**
 * The disk shared by every RAID controller: an identifier and an ordered list of byte
 * chunks, nothing else. A failed disk is one whose chunk list is empty.
 */
module Base {
  import opened Bytes

  datatype Disk = Disk(id: int, data: seq<seq<byte>>)

  /** The disks a controller starts with: disk i has ID i and no chunks. */
  function FreshDisks(n: nat): (disks: seq<Disk>)
    ensures |disks| == n
    ensures forall i :: 0 <= i < n ==> disks[i].id == i && disks[i].data == []
  {
    seq(n, i => Disk(i, []))
  }

  /** Every disk keeps the ID of its position. */
  ghost predicate NumberedDisks(disks: seq<Disk>)
  {
    forall i :: 0 <= i < |disks| ==> disks[i].id == i
  }

  /** The disks' IDs, in order. */
  function Ids(disks: seq<Disk>): (ids: seq<int>)
    ensures |ids| == |disks|
  {
    seq(|disks|, i requires 0 <= i < |disks| => disks[i].id)
  }

  /** Disks with the IDs of numbered disks are numbered. */
  lemma SameIdsNumbered(a: seq<Disk>, b: seq<Disk>)
    requires NumberedDisks(a) && Ids(b) == Ids(a)
    ensures NumberedDisks(b)
  {
    forall i | 0 <= i < |b|
      ensures b[i].id == i
    {
      assert Ids(b)[i] == Ids(a)[i];
    }
  }

  /** Every chunk on every disk is exactly `size` bytes long. */
  ghost predicate ChunksSized(disks: seq<Disk>, size: int)
  {
    forall d, c {:trigger disks[d].data[c]} :: 0 <= d < |disks| && 0 <= c < |disks[d].data| ==>
      |disks[d].data[c]| == size
  }

  /** Every chunk of one disk is exactly `size` bytes long. */
  ghost predicate DiskSized(disk: Disk, size: int)
  {
    forall c :: 0 <= c < |disk.data| ==> |disk.data[c]| == size
  }

  /** Disk i failed: its chunk list is emptied, its ID and every other disk are kept. */
  function ClearDiskData(disks: seq<Disk>, i: nat): (cleared: seq<Disk>)
    requires i < |disks|
    ensures |cleared| == |disks| && cleared[i] == Disk(disks[i].id, [])
    ensures forall d :: 0 <= d < |disks| && d != i ==> cleared[d] == disks[d]
  {
    disks[i := Disk(disks[i].id, [])]
  }

  /** Clearing a disk never makes a chunk the wrong size. */
  lemma ClearKeepsChunksSized(disks: seq<Disk>, i: nat, size: int)
    requires i < |disks| && ChunksSized(disks, size)
    ensures ChunksSized(ClearDiskData(disks, i), size)
  {
  }

  /**
   * ClearDisk applied to each index of order in turn: the disks named in order are empty,
   * keeping their IDs, and every other disk is untouched.
   */
  function ClearEach(disks: seq<Disk>, order: seq<nat>): (r: seq<Disk>)
    requires forall k :: 0 <= k < |order| ==> order[k] < |disks|
    ensures |r| == |disks|
    ensures forall i :: 0 <= i < |disks| ==>
      r[i] == if i in order then Disk(disks[i].id, []) else disks[i]
  {
    if |order| == 0 then disks
    else
      var front := order[..|order| - 1];
      assert forall i :: i in order <==> i in front || i == order[|order| - 1];
      ClearDiskData(ClearEach(disks, front), order[|order| - 1])
  }

  /** Clearing the disks of [a, b] is clearing a, then b. */
  lemma ClearTwice(disks: seq<Disk>, a: nat, b: nat)
    requires a < |disks| && b < |disks|
    ensures ClearEach(disks, [a, b]) == ClearDiskData(ClearDiskData(disks, a), b)
  {
    assert ClearEach(disks, [a]) == ClearDiskData(disks, a) by {
      assert [a][..0] == [];
    }
    assert [a, b][..1] == [a];
  }

  /** Clearing the disks of [a, b, c] is clearing a, then b, then c. */
  lemma ClearThrice(disks: seq<Disk>, a: nat, b: nat, c: nat)
    requires a < |disks| && b < |disks| && c < |disks|
    ensures ClearEach(disks, [a, b, c]) == ClearDiskData(ClearDiskData(ClearDiskData(disks, a), b), c)
  {
    ClearTwice(disks, a, b);
    assert [a, b, c][..2] == [a, b];
  }

  /** A disk lengthened by count zero chunks of size bytes, as Go's `append(Data, make([]byte, size))` loops do. */
  function Extend(disk: Disk, count: nat, size: nat): (d: Disk)
    ensures d.id == disk.id && |d.data| == |disk.data| + count
    ensures d.data[..|disk.data|] == disk.data
    ensures forall c :: |disk.data| <= c < |d.data| ==> d.data[c] == Zeros(size)
  {
    Disk(disk.id, disk.data + seq(count, _ => Zeros(size)))
  }
}
