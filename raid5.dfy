/**
 * The RAID5 controller: Reed-Solomon striping with one parity shard whose disk rotates
 * (stripe s keeps its parity on disk s mod n). With a single parity shard the code is the
 * XOR of the data shards, so the controller uses `XorCode`, which is proved to rebuild any
 * one missing shard.
 */
module Raid5 {
  import opened Wrappers
  import opened Bytes
  import opened Base
  import opened RsUtil
  import opened Stripes
  import Parity

  class RAID5Controller {
    var disks: seq<Disk>
    const stripeSz: int

    /** At least three disks, a positive stripe size, every chunk stripeSz bytes, disk i keeps ID i. */
    ghost predicate Valid()
      reads this
    {
      Shape(disks, RotatingParity, stripeSz) && NumberedDisks(disks)
    }

    /** NewRAID5Controller on arguments it accepts: diskCount empty disks, disk i with ID i. */
    constructor (diskCount: int, stripeSize: int)
      requires CheckNew(RotatingParity, diskCount, stripeSize) == None
      ensures Valid()
      ensures disks == FreshDisks(diskCount) && stripeSz == stripeSize
    {
      disks := FreshDisks(diskCount);
      stripeSz := stripeSize;
    }

    /** NewRAID5Controller: the controller, or the first check the arguments fail and no controller. */
    static method New(diskCount: int, stripeSize: int) returns (c: RAID5Controller?, err: Option<Error>)
      ensures err == CheckNew(RotatingParity, diskCount, stripeSize)
      ensures err.Some? ==> c == null
      ensures err.None? ==>
        && c != null && fresh(c) && c.Valid()
        && c.disks == FreshDisks(diskCount) && c.stripeSz == stripeSize
    {
      err := CheckNew(RotatingParity, diskCount, stripeSize);
      if err.Some? {
        return null, err;
      }
      c := new RAID5Controller(diskCount, stripeSize);
    }

    /**
     * Write(data, offset): the full stripes of data are XOR-encoded and stored with rotating
     * parity, the rest by read-modify-write. It never fails, and an array whose parity shards
     * were all the XOR of their data shards keeps that property.
     */
    method Write(data: seq<byte>, offset: int) returns (err: Option<Error>)
      requires Valid() && WriteDefined(StripeBytes(RotatingParity, |disks|, stripeSz), |data|, offset)
      modifies this
      ensures Valid() && err == None
      ensures disks == WriteResult(old(disks), RotatingParity, XorCode, stripeSz, data, offset)
      ensures Parity.Consistent(old(disks), RotatingParity, XorCode, stripeSz)
        ==> Parity.Consistent(disks, RotatingParity, XorCode, stripeSz)
    {
      disks := WriteArray(disks, RotatingParity, XorCode, stripeSz, data, offset);
      SameIdsNumbered(old(disks), disks);
      if Parity.Consistent(old(disks), RotatingParity, XorCode, stripeSz) {
        Parity.XorZeroParity(|disks| - 1);
        Parity.WriteConsistent(old(disks), disks, RotatingParity, XorCode, stripeSz, data, offset);
      }
      err := None;
    }

    /** Read(start, length): the range checks, then each stripe rebuilt from the shards still present. */
    method Read(start: int, length: int) returns (r: Result<seq<byte>, Error>)
      requires Valid()
      ensures r == ReadResult(disks, RotatingParity, XorCode, stripeSz, start, length)
    {
      r := ReadArray(disks, RotatingParity, XorCode, stripeSz, start, length);
    }

    /** ClearDisk(index): an index outside the array is refused; otherwise that disk loses every chunk. */
    method ClearDisk(index: int) returns (err: Option<Error>)
      requires Valid()
      modifies this
      ensures Valid()
      ensures !(0 <= index < |old(disks)|) ==> err == Some(IndexOutOfBounds(index, |old(disks)|)) && disks == old(disks)
      ensures 0 <= index < |old(disks)| ==> err == None && disks == ClearDiskData(old(disks), index)
    {
      if index < 0 || index >= |disks| {
        return Some(IndexOutOfBounds(index, |disks|));
      }
      ClearKeepsChunksSized(disks, index, stripeSz);
      disks := ClearDiskData(disks, index);
      err := None;
    }
  }

  // -------------------------------------------------------------- one disk may fail

  /**
   * An array whose every parity shard is the XOR of its data shards reads the same with any
   * one of its disks cleared: Read rebuilds the lost shard of every stripe.
   */
  lemma ClearedDiskReads(disks: seq<Disk>, size: nat, t: nat, start: int, length: int)
    requires Parity.Consistent(disks, RotatingParity, XorCode, size) && t < |disks|
    ensures Shape(ClearDiskData(disks, t), RotatingParity, size)
    ensures ReadResult(ClearDiskData(disks, t), RotatingParity, XorCode, size, start, length)
      == ReadResult(disks, RotatingParity, XorCode, size, start, length)
  {
    RsUtil.XorRecovers(|disks| - 1);
    Parity.LostOne(|disks|, t);
    assert ClearEach(disks, [t]) == ClearDiskData(disks, t) by {
      assert [t][..0] == [];
    }
    Parity.DegradedRead(disks, RotatingParity, XorCode, size, [t], start, length);
  }

  /**
   * The simulation flow: data written at offset 0 to a new controller reads back, and still
   * reads back after any one disk is cleared.
   */
  lemma SurvivesOneFailure(n: nat, size: nat, data: seq<byte>, t: nat)
    requires CheckNew(RotatingParity, n, size) == None && |data| > 0 && t < n
    ensures var written := Parity.FreshWrite(n, RotatingParity, XorCode, size, data);
      && ReadResult(written, RotatingParity, XorCode, size, 0, |data|) == Ok(data)
      && ReadResult(ClearDiskData(written, t), RotatingParity, XorCode, size, 0, |data|) == Ok(data)
  {
    var written := Parity.FreshWrite(n, RotatingParity, XorCode, size, data);
    RsUtil.XorRecovers(n - 1);
    Parity.XorZeroParity(n - 1);
    Parity.LostOne(n, t);
    assert ClearEach(written, [t]) == ClearDiskData(written, t) by {
      assert [t][..0] == [];
    }
    Parity.FlowSurvives(n, RotatingParity, XorCode, size, data, written, [t]);
  }

  /**
   * With two different disks cleared, the read of what was written fails at stripe 0: two
   * shards are missing and one parity shard cannot rebuild them.
   */
  lemma TwoFailuresFail(n: nat, size: nat, data: seq<byte>, a: nat, b: nat)
    requires CheckNew(RotatingParity, n, size) == None && |data| > 0 && a < n && b < n && a != b
    ensures var written := Parity.FreshWrite(n, RotatingParity, XorCode, size, data);
      ReadResult(ClearDiskData(ClearDiskData(written, a), b), RotatingParity, XorCode, size, 0, |data|)
        == Err(ReconstructFailed(RotatingParity, 0, TooManyMissingShards(2, 1)))
  {
    var written := Parity.FreshWrite(n, RotatingParity, XorCode, size, data);
    Parity.XorZeroParity(n - 1);
    Parity.LostTwo(n, a, b);
    ClearTwice(written, a, b);
    Parity.FlowFails(n, RotatingParity, XorCode, size, data, written, [a, b]);
  }
}
