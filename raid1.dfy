/**
 * RAID1: every disk holds the same single chunk, the whole of the last write. Read
 * serves the requested range from the first disk that still holds its copy.
 */
module Raid1 {
  import opened Wrappers
  import opened Bytes
  import opened Base

  // -------------------------------------------------------------- specification

  /** The disks after Write(data): every disk keeps its ID and holds exactly [data]. */
  function MirrorAll(disks: seq<Disk>, data: seq<byte>): (mirrored: seq<Disk>)
    ensures |mirrored| == |disks|
    ensures forall i :: 0 <= i < |disks| ==> mirrored[i] == Disk(disks[i].id, [data])
  {
    seq(|disks|, i requires 0 <= i < |disks| => Disk(disks[i].id, [data]))
  }

  /** The first disk that holds a chunk, scanning from disk 0. */
  function FirstWithData(disks: seq<Disk>): (r: Option<nat>)
    ensures r.None? <==> forall i :: 0 <= i < |disks| ==> disks[i].data == []
    ensures r.Some? ==>
      && r.value < |disks| && disks[r.value].data != []
      && forall j :: 0 <= j < r.value ==> disks[j].data == []
  {
    if |disks| == 0 then None
    else if disks[0].data != [] then Some(0)
    else
      match FirstWithData(disks[1..])
      case None => None
      case Some(i) => Some(i + 1)
  }

  /** The copy of every disk agrees: each disk holds at most one chunk, and all held chunks are equal. */
  ghost predicate Mirrored(disks: seq<Disk>)
  {
    && (forall i :: 0 <= i < |disks| ==> |disks[i].data| <= 1)
    && (forall i, j :: 0 <= i < |disks| && 0 <= j < |disks| && disks[i].data != [] && disks[j].data != [] ==>
          disks[i].data == disks[j].data)
  }

  /** Reading [start, start+length) of one copy. */
  function ReadCopy(copy: seq<byte>, start: int, length: int): Result<seq<byte>, string>
    requires start + length > |copy| || (0 <= start && 0 <= length)
  {
    if start + length > |copy| then Err("read range exceeds data length")
    else Ok(copy[start..start + length])
  }

  /**
   * The Go slice expression panics on a negative start or length that passes the range
   * check, so such a read is defined only when it is refused first or no disk has data.
   */
  ghost predicate ReadDefined(disks: seq<Disk>, start: int, length: int)
  {
    match FirstWithData(disks)
    case None => true
    case Some(i) => start + length > |disks[i].data[0]| || (0 <= start && 0 <= length)
  }

  /** What Read returns: the range of the first copy found, or why there is none. */
  function ReadResult(disks: seq<Disk>, start: int, length: int): (r: Result<seq<byte>, string>)
    requires ReadDefined(disks, start, length)
    ensures r.Ok? ==> |r.value| == length
    ensures (forall i :: 0 <= i < |disks| ==> disks[i].data == []) ==> r == Err("no available disk with data")
  {
    match FirstWithData(disks)
    case None => Err("no available disk with data")
    case Some(i) => ReadCopy(disks[i].data[0], start, length)
  }

  // -------------------------------------------------------------- controller

  class RAID1Controller {
    var disks: seq<Disk>

    /** Disk i keeps ID i, and the disks that hold a copy hold the same one. */
    ghost predicate Valid()
      reads this
    {
      NumberedDisks(disks) && Mirrored(disks)
    }

    /** NewRAID1Controller: diskCount empty disks. */
    constructor (diskCount: int)
      requires diskCount >= 0
      ensures Valid()
      ensures disks == FreshDisks(diskCount)
    {
      disks := FreshDisks(diskCount);
    }

    /** Write replaces the contents of every disk, failed or not, by [data]; it never fails. */
    method Write(data: seq<byte>) returns (err: Option<string>)
      requires Valid()
      modifies this
      ensures Valid()
      ensures err == None && disks == MirrorAll(old(disks), data)
    {
      var i := 0;
      while i < |disks|
        invariant 0 <= i <= |disks| == |old(disks)|
        invariant disks[..i] == MirrorAll(old(disks), data)[..i]
        invariant disks[i..] == old(disks)[i..]
      {
        disks := disks[i := Disk(disks[i].id, [data])];
        i := i + 1;
      }
      assert disks == disks[..i];
      return None;
    }

    /** Read skips the disks without data and serves the range from the first copy. */
    method Read(start: int, length: int) returns (r: Result<seq<byte>, string>)
      requires ReadDefined(disks, start, length)
      ensures r == ReadResult(disks, start, length)
    {
      var i := 0;
      while i < |disks|
        invariant 0 <= i <= |disks|
        invariant forall j :: 0 <= j < i ==> disks[j].data == []
      {
        if |disks[i].data| == 0 {
          i := i + 1;
          continue;
        }
        assert FirstWithData(disks) == Some(i);
        var data := disks[i].data[0];
        if start + length > |data| {
          return Err("read range exceeds data length");
        }
        return Ok(data[start..start + length]);
      }
      return Err("no available disk with data");
    }

    /** ClearDisk empties disk index; an index outside the array is refused. */
    method ClearDisk(index: int) returns (err: Option<string>)
      requires Valid()
      modifies this
      ensures Valid()
      ensures (index < 0 || index >= |old(disks)|) ==> err == Some("invalid disk index") && disks == old(disks)
      ensures 0 <= index < |old(disks)| ==> err == None && disks == ClearDiskData(old(disks), index)
    {
      if index < 0 || index >= |disks| {
        return Some("invalid disk index");
      }
      disks := ClearDiskData(disks, index);
      return None;
    }
  }

  // -------------------------------------------------------------- properties

  /** Under the mirror invariant it does not matter which copy Read finds: any copy answers. */
  lemma ReadFromAnyCopy(disks: seq<Disk>, i: nat, start: int, length: int)
    requires Mirrored(disks) && i < |disks| && disks[i].data != []
    requires start + length > |disks[i].data[0]| || (0 <= start && 0 <= length)
    ensures ReadDefined(disks, start, length)
    ensures ReadResult(disks, start, length) == ReadCopy(disks[i].data[0], start, length)
  {
    var first := FirstWithData(disks);
    assert first.Some?;
    assert disks[first.value].data == disks[i].data;
  }

  /** Write establishes the mirror invariant whatever the disks held before. */
  lemma WriteMirrors(disks: seq<Disk>, data: seq<byte>)
    ensures Mirrored(MirrorAll(disks, data))
    ensures NumberedDisks(disks) ==> NumberedDisks(MirrorAll(disks, data))
  {
  }

  /** Clearing a disk keeps the remaining copies equal. */
  lemma ClearKeepsMirrored(disks: seq<Disk>, i: nat)
    requires Mirrored(disks) && i < |disks|
    ensures Mirrored(ClearDiskData(disks, i))
  {
    var cleared := ClearDiskData(disks, i);
    forall a, b | 0 <= a < |cleared| && 0 <= b < |cleared| && cleared[a].data != [] && cleared[b].data != []
      ensures cleared[a].data == cleared[b].data
    {
      assert a != i && b != i;
    }
  }

  /** After Write(data) on at least one disk, a range inside data reads back exactly. */
  lemma WriteThenRead(disks: seq<Disk>, data: seq<byte>, start: nat, length: nat)
    requires |disks| > 0 && start + length <= |data|
    ensures ReadDefined(MirrorAll(disks, data), start, length)
    ensures ReadResult(MirrorAll(disks, data), start, length) == Ok(data[start..start + length])
  {
    var mirrored := MirrorAll(disks, data);
    assert mirrored[0].data == [data];
    assert FirstWithData(mirrored) == Some(0);
  }

  /** A range reaching past the written data is refused, not truncated. */
  lemma ReadBeyondDataFails(disks: seq<Disk>, data: seq<byte>, start: int, length: int)
    requires |disks| > 0 && start + length > |data|
    ensures ReadDefined(MirrorAll(disks, data), start, length)
    ensures ReadResult(MirrorAll(disks, data), start, length) == Err("read range exceeds data length")
  {
    var mirrored := MirrorAll(disks, data);
    assert mirrored[0].data == [data];
    assert FirstWithData(mirrored) == Some(0);
  }

  /**
   * Fault tolerance: any sequence of disk failures that leaves one copy leaves every
   * read as it was before the failures.
   */
  lemma ReadSurvivesFailures(disks: seq<Disk>, data: seq<byte>, order: seq<nat>, start: nat, length: nat)
    requires start + length <= |data|
    requires forall k :: 0 <= k < |order| ==> order[k] < |disks|
    requires exists i :: 0 <= i < |disks| && i !in order
    ensures var survivors := ClearEach(MirrorAll(disks, data), order);
      ReadDefined(survivors, start, length)
      && ReadResult(survivors, start, length) == Ok(data[start..start + length])
  {
    var mirrored := MirrorAll(disks, data);
    var survivors := ClearEach(mirrored, order);
    var i :| 0 <= i < |disks| && i !in order;
    assert survivors[i].data == [data];
    forall j | 0 <= j < |survivors|
      ensures |survivors[j].data| <= 1 && (survivors[j].data != [] ==> survivors[j].data == [data])
    {
      assert survivors[j] == if j in order then Disk(mirrored[j].id, []) else mirrored[j];
    }
    ReadFromAnyCopy(survivors, i, start, length);
  }

  /** When every disk has failed, Read reports that no copy is left. */
  lemma ReadAllFailed(disks: seq<Disk>, data: seq<byte>, order: seq<nat>, start: int, length: int)
    requires forall k :: 0 <= k < |order| ==> order[k] < |disks|
    requires forall i :: 0 <= i < |disks| ==> i in order
    ensures var survivors := ClearEach(MirrorAll(disks, data), order);
      ReadDefined(survivors, start, length)
      && ReadResult(survivors, start, length) == Err("no available disk with data")
  {
  }
}
