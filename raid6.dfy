/**
 * The RAID6 controller: Reed-Solomon striping with two parity shards on fixed disks (the
 * data shards on disks 0 .. n-3, P on disk n-2, Q on disk n-1). The Reed-Solomon code is a
 * parameter of the controller; the recovery properties hold for any code that rebuilds up
 * to two missing shards (`Recovers`) and encodes zero data as zero parity (`ZeroParity`).
 */
module Raid6 {
  import opened Wrappers
  import opened Bytes
  import opened Base
  import opened RsUtil
  import opened Stripes
  import Parity

  class RAID6Controller {
    var disks: seq<Disk>
    const stripeSz: int
    const code: Code

    /** At least four disks, a positive stripe size, every chunk stripeSz bytes, disk i keeps ID i. */
    ghost predicate Valid()
      reads this
    {
      Shape(disks, FixedParity, stripeSz) && NumberedDisks(disks)
    }

    /** NewRAID6Controller on arguments it accepts: diskCount empty disks, disk i with ID i. */
    constructor (diskCount: int, stripeSize: int, rs: Code)
      requires CheckNew(FixedParity, diskCount, stripeSize) == None
      ensures Valid()
      ensures disks == FreshDisks(diskCount) && stripeSz == stripeSize && code == rs
    {
      disks := FreshDisks(diskCount);
      stripeSz := stripeSize;
      code := rs;
    }

    /** NewRAID6Controller: the controller, or the first check the arguments fail and no controller. */
    static method New(diskCount: int, stripeSize: int, rs: Code) returns (c: RAID6Controller?, err: Option<Error>)
      ensures err == CheckNew(FixedParity, diskCount, stripeSize)
      ensures err.Some? ==> c == null
      ensures err.None? ==>
        && c != null && fresh(c) && c.Valid()
        && c.disks == FreshDisks(diskCount) && c.stripeSz == stripeSize && c.code == rs
    {
      err := CheckNew(FixedParity, diskCount, stripeSize);
      if err.Some? {
        return null, err;
      }
      c := new RAID6Controller(diskCount, stripeSize, rs);
    }

    /**
     * Write(data, offset): the full stripes of data are encoded and stored with P and Q on the
     * last two disks, the rest by read-modify-write. It never fails, and an array whose P and Q
     * were those of the code for every stripe keeps that property.
     */
    method Write(data: seq<byte>, offset: int) returns (err: Option<Error>)
      requires Valid() && WriteDefined(StripeBytes(FixedParity, |disks|, stripeSz), |data|, offset)
      modifies this
      ensures Valid() && err == None
      ensures disks == WriteResult(old(disks), FixedParity, code, stripeSz, data, offset)
      ensures Parity.ZeroParity(code, DataShards(FixedParity, |disks|), 2)
        && Parity.Consistent(old(disks), FixedParity, code, stripeSz)
        ==> Parity.Consistent(disks, FixedParity, code, stripeSz)
    {
      disks := WriteArray(disks, FixedParity, code, stripeSz, data, offset);
      SameIdsNumbered(old(disks), disks);
      if Parity.ZeroParity(code, DataShards(FixedParity, |disks|), 2) && Parity.Consistent(old(disks), FixedParity, code, stripeSz) {
        Parity.WriteConsistent(old(disks), disks, FixedParity, code, stripeSz, data, offset);
      }
      err := None;
    }

    /** Read(start, length): the range checks, then each stripe rebuilt from the shards still present. */
    method Read(start: int, length: int) returns (r: Result<seq<byte>, Error>)
      requires Valid()
      ensures r == ReadResult(disks, FixedParity, code, stripeSz, start, length)
    {
      r := ReadArray(disks, FixedParity, code, stripeSz, start, length);
    }

    /** ClearDisk(index): an index outside the array is refused; otherwise that disk loses every chunk. */
    method ClearDisk(index: int) returns (err: Option<Error>)
      requires Valid()
      modifies this
      ensures Valid()
      ensures !(0 <= index < |old(disks)|) ==> err == Some(IndexOutOfBounds(index, |old(disks)|)) && disks == old(disks)
      ensures 0 <= index < |old(disks)| ==> err == None && disks == ClearDiskData(old(disks), index)
    {
      if index < 0 || index >= |disks| {
        return Some(IndexOutOfBounds(index, |disks|));
      }
      ClearKeepsChunksSized(disks, index, stripeSz);
      disks := ClearDiskData(disks, index);
      err := None;
    }
  }

  // -------------------------------------------------------------- two disks may fail

  /** Two cleared disks, the same or different, are at most two lost. */
  lemma LostAtMostTwo(n: nat, a: nat, b: nat)
    requires a < n && b < n
    ensures |Parity.Lost([a, b], n)| <= 2
  {
    Parity.LostTwo(n, a, b);
    if a == b {
      assert {a, b} == {a};
    }
  }

  /**
   * An array whose P and Q are those of the code for every stripe reads the same with any
   * two of its disks cleared: Read rebuilds the lost shards of every stripe.
   */
  lemma ClearedDisksRead(disks: seq<Disk>, size: nat, code: Code, a: nat, b: nat, start: int, length: int)
    requires Parity.Consistent(disks, FixedParity, code, size) && a < |disks| && b < |disks|
    requires Recovers(code, DataShards(FixedParity, |disks|), 2)
    ensures Shape(ClearDiskData(ClearDiskData(disks, a), b), FixedParity, size)
    ensures ReadResult(ClearDiskData(ClearDiskData(disks, a), b), FixedParity, code, size, start, length)
      == ReadResult(disks, FixedParity, code, size, start, length)
  {
    LostAtMostTwo(|disks|, a, b);
    ClearTwice(disks, a, b);
    Parity.DegradedRead(disks, FixedParity, code, size, [a, b], start, length);
  }

  /**
   * The simulation flow: data written at offset 0 to a new controller reads back, and still
   * reads back after any two disks are cleared.
   */
  lemma SurvivesTwoFailures(n: nat, size: nat, code: Code, data: seq<byte>, a: nat, b: nat)
    requires CheckNew(FixedParity, n, size) == None && |data| > 0 && a < n && b < n
    requires Recovers(code, DataShards(FixedParity, n), 2) && Parity.ZeroParity(code, DataShards(FixedParity, n), 2)
    ensures var written := Parity.FreshWrite(n, FixedParity, code, size, data);
      && ReadResult(written, FixedParity, code, size, 0, |data|) == Ok(data)
      && ReadResult(ClearDiskData(ClearDiskData(written, a), b), FixedParity, code, size, 0, |data|) == Ok(data)
  {
    var written := Parity.FreshWrite(n, FixedParity, code, size, data);
    LostAtMostTwo(n, a, b);
    ClearTwice(written, a, b);
    Parity.FlowSurvives(n, FixedParity, code, size, data, written, [a, b]);
  }

  /**
   * With three different disks cleared, the read of what was written fails at stripe 0: three
   * shards are missing and two parity shards cannot rebuild them.
   */
  lemma ThreeFailuresFail(n: nat, size: nat, code: Code, data: seq<byte>, a: nat, b: nat, c: nat)
    requires CheckNew(FixedParity, n, size) == None && |data| > 0 && a < n && b < n && c < n
    requires a != b && b != c && a != c
    requires Parity.ZeroParity(code, DataShards(FixedParity, n), 2)
    ensures var written := Parity.FreshWrite(n, FixedParity, code, size, data);
      ReadResult(ClearDiskData(ClearDiskData(ClearDiskData(written, a), b), c), FixedParity, code, size, 0, |data|)
        == Err(ReconstructFailed(FixedParity, 0, TooManyMissingShards(3, 2)))
  {
    var written := Parity.FreshWrite(n, FixedParity, code, size, data);
    Parity.LostThree(n, a, b, c);
    ClearThrice(written, a, b, c);
    Parity.FlowFails(n, FixedParity, code, size, data, written, [a, b, c]);
  }
}
