/**
 * RAID0: data is cut into stripeSz-byte chunks that are dealt to the disks in turn.
 * Write always appends from disk 0 and has no offset; Read assembles a prefix of the
 * array and drops the first start mod stripeSz bytes of it.
 */
module Raid0 {
  import opened Wrappers
  import opened Bytes
  import opened Base
  import GoInt
  import Arith

  // -------------------------------------------------------------- specification

  /** The chunks Write cuts from data: ceil(|data| / size) chunks, each zero-padded to size. */
  function WriteChunks(data: seq<byte>, size: int): (chunks: seq<seq<byte>>)
    requires |data| == 0 || size > 0
    ensures |data| == 0 ==> chunks == []
    ensures |data| > 0 ==> chunks == Split(data, size as nat, (|data| + size - 1) / size)
  {
    if |data| == 0 then [] else Split(data, size as nat, (|data| + size - 1) / size)
  }

  /** The chunk list is exactly data, zero-padded to a whole number of chunks. */
  lemma WriteChunksCover(data: seq<byte>, size: nat)
    requires size > 0
    ensures |WriteChunks(data, size)| * size >= |data|
    ensures |data| > 0 ==> (|WriteChunks(data, size)| - 1) * size < |data|
    ensures Flatten(WriteChunks(data, size)) == data + Zeros(|WriteChunks(data, size)| * size - |data|)
  {
    Arith.CeilDiv(|data|, size);
    if |data| > 0 {
      SplitFlatten(data, size, (|data| + size - 1) / size);
    }
  }

  /** The disks after chunk c of `chunks` has been appended to disk c mod n, in order. */
  function Deal(disks: seq<Disk>, chunks: seq<seq<byte>>): (dealt: seq<Disk>)
    requires |disks| > 0 || chunks == []
    ensures |dealt| == |disks|
  {
    if chunks == [] then disks
    else
      var m := |chunks| - 1;
      var prev := Deal(disks, chunks[..m]);
      var d := m % |disks|;
      prev[d := Disk(prev[d].id, prev[d].data + [chunks[m]])]
  }

  /**
   * Dealing keeps every disk's ID and old chunks and gives disk d Count(|chunks|, n, d)
   * new chunks.
   */
  lemma {:induction false} DealShape(disks: seq<Disk>, chunks: seq<seq<byte>>)
    requires |disks| > 0
    ensures forall d :: 0 <= d < |disks| ==>
      Deal(disks, chunks)[d].id == disks[d].id
      && |Deal(disks, chunks)[d].data| == |disks[d].data| + Arith.Count(|chunks|, |disks|, d)
      && Deal(disks, chunks)[d].data[..|disks[d].data|] == disks[d].data
    decreases |chunks|
  {
    if chunks != [] {
      var m := |chunks| - 1;
      DealShape(disks, chunks[..m]);
      forall d | 0 <= d < |disks|
        ensures Arith.Count(m + 1, |disks|, d) == Arith.Count(m, |disks|, d) + (if d == m % |disks| then 1 else 0)
      {
        Arith.CountStep(m, |disks|, d);
      }
    }
  }

  /** Chunk c goes to disk c mod n, right after the c / n chunks dealt to that disk before it. */
  lemma {:induction false} DealPosition(disks: seq<Disk>, chunks: seq<seq<byte>>, c: nat)
    requires |disks| > 0 && c < |chunks|
    ensures |disks[c % |disks|].data| + c / |disks| < |Deal(disks, chunks)[c % |disks|].data|
    ensures Deal(disks, chunks)[c % |disks|].data[|disks[c % |disks|].data| + c / |disks|] == chunks[c]
    decreases |chunks|
  {
    var n := |disks|;
    var m := |chunks| - 1;
    var prev := Deal(disks, chunks[..m]);
    DealShape(disks, chunks[..m]);
    var d, k := c % n, c / n;
    if c < m {
      DealPosition(disks, chunks[..m], c);
      assert chunks[..m][c] == chunks[c];
    } else {
      Arith.CountStep(m, n, d);
      assert |prev[d].data| == |disks[d].data| + k;
    }
  }

  /** Look up stripe c, which lives on disk c mod n as chunk c / n. */
  function StripeChunk(disks: seq<Disk>, c: nat): Option<seq<byte>>
    requires |disks| > 0
  {
    var d, k := c % |disks|, c / |disks|;
    if k < |disks[d].data| then Some(disks[d].data[k]) else None
  }

  /** The errors RAID0Controller returns; Message gives the text Go formats for each. */
  datatype Error = InvalidDiskIndex | MissingStripe(diskIndex: int, chunkIndex: int)

  function Message(e: Error): string
  {
    match e
    case InvalidDiskIndex => "invalid disk index"
    case MissingStripe(d, k) => "missing stripe data at disk " + GoInt.Format(d) + ", chunk " + GoInt.Format(k)
  }

  /** Stripes 0 .. count-1 in order, or the number of the first one that is not stored. */
  function CollectStripes(disks: seq<Disk>, count: nat): Result<seq<seq<byte>>, nat>
    requires |disks| > 0 || count == 0
  {
    if count == 0 then Ok([])
    else
      var c := count - 1;
      match CollectStripes(disks, c)
      case Err(e) => Err(e)
      case Ok(chunks) =>
        match StripeChunk(disks, c)
        case None => Err(c)
        case Some(chunk) => Ok(chunks + [chunk])
  }

  /** Collecting succeeds exactly when every stripe is stored, and then yields them in order. */
  lemma {:induction false} CollectStripesSpec(disks: seq<Disk>, count: nat)
    requires |disks| > 0 || count == 0
    ensures CollectStripes(disks, count).Ok? <==> forall c :: 0 <= c < count ==> StripeChunk(disks, c).Some?
    ensures CollectStripes(disks, count).Ok? ==>
      var chunks := CollectStripes(disks, count).value;
      |chunks| == count && forall c :: 0 <= c < count ==> Some(chunks[c]) == StripeChunk(disks, c)
  {
    if count > 0 {
      CollectStripesSpec(disks, count - 1);
    }
  }

  /** The number of stripes Read visits, computed with Go's truncating division. */
  function StripeCount(size: int, start: int, length: int): int
    requires size != 0
  {
    GoInt.Quo(start + length + size - 1, size)
  }

  /** The first `length` bytes of stripes 0 .. count-1, or the first missing stripe. */
  function PrefixOf(disks: seq<Disk>, count: int, length: nat): Result<seq<byte>, Error>
    requires count > 0 ==> |disks| > 0
  {
    if count <= 0 then Ok([])
    else
      match CollectStripes(disks, count as nat)
      case Err(c) => Err(MissingStripe(c % |disks|, c / |disks|))
      case Ok(chunks) => Ok(Take(Flatten(chunks), length))
  }

  /** What Read has assembled before it drops the offset inside the first stripe. */
  function ReadPrefix(disks: seq<Disk>, size: int, start: int, length: nat): Result<seq<byte>, Error>
    requires size != 0
    requires StripeCount(size, start, length) > 0 ==> |disks| > 0
  {
    PrefixOf(disks, StripeCount(size, start, length), length)
  }

  /**
   * The inputs on which Read does not panic: a non-zero stripe size, a length usable as a
   * capacity, at least one disk if a stripe is visited, and a first-stripe offset inside
   * the assembled prefix.
   */
  ghost predicate ReadDefined(disks: seq<Disk>, size: int, start: int, length: int)
  {
    size != 0 && length >= 0
    && (StripeCount(size, start, length) > 0 ==> |disks| > 0)
    && (ReadPrefix(disks, size, start, length).Ok? ==>
          0 <= GoInt.Rem(start, size) <= |ReadPrefix(disks, size, start, length).value|)
  }

  /**
   * Read(start, length): the first `length` bytes of the stripes 0, 1, ... that cover
   * start + length, without their first start mod stripeSz bytes; an error names the first
   * stripe that is not on its disk.
   */
  function ReadResult(disks: seq<Disk>, size: int, start: int, length: int): (r: Result<seq<byte>, Error>)
    requires ReadDefined(disks, size, start, length)
    ensures r.Ok? ==> |r.value| <= length
  {
    match ReadPrefix(disks, size, start, length)
    case Err(e) => Err(e)
    case Ok(prefix) => Ok(prefix[GoInt.Rem(start, size)..])
  }

  /**
   * The piece Write's loop cuts at offset i * size, zero-padded to size, is chunk i; the
   * next piece starts (i + 1) * size bytes in, unless this was the last chunk.
   */
  lemma CutChunk(data: seq<byte>, size: nat, i: nat, offset: nat, end: nat)
    requires size > 0 && i < |WriteChunks(data, size)| && offset == i * size
    requires end == if offset + size > |data| then |data| else offset + size
    ensures offset < end
    ensures Fit(data[offset..end], size) == WriteChunks(data, size)[i]
    ensures i + 1 < |WriteChunks(data, size)| ==> end == (i + 1) * size < |data|
    ensures i + 1 == |WriteChunks(data, size)| ==> end == |data|
  {
    var chunks := WriteChunks(data, size);
    var c := |chunks|;
    Arith.CeilDiv(|data|, size);
    Arith.MulMono(i, c - 1, size);
    Arith.Distrib(i + 1, 1, size);
    if i + 1 < c {
      Arith.MulMono(i + 1, c - 1, size);
    }
    var stripe := Fit(data[offset..end], size);
    forall j | 0 <= j < size
      ensures stripe[j] == chunks[i][j]
    {
    }
  }

  // -------------------------------------------------------------- the controller

  class RAID0Controller {
    var disks: seq<Disk>
    const stripeSz: int

    /** Disk i keeps ID i, and every chunk on a disk is stripeSz bytes. */
    ghost predicate Valid()
      reads this
    {
      NumberedDisks(disks) && ChunksSized(disks, stripeSz)
    }

    /** NewRAID0Controller: diskCount empty disks; nothing is validated. */
    constructor (diskCount: int, stripeSize: int)
      requires diskCount >= 0
      ensures Valid()
      ensures disks == FreshDisks(diskCount) && stripeSz == stripeSize
    {
      disks := FreshDisks(diskCount);
      stripeSz := stripeSize;
    }

    /**
     * Write appends the chunks of data to disks 0, 1, ..., n-1, 0, ... in turn. The Go
     * loop never ends for stripeSz == 0 and panics on a negative size or no disks, so
     * non-empty data needs a positive size and a disk.
     */
    method Write(data: seq<byte>) returns (err: Option<Error>)
      requires Valid()
      requires |data| > 0 ==> stripeSz > 0 && |disks| > 0
      modifies this
      ensures Valid() && err == None
      ensures disks == Deal(old(disks), WriteChunks(data, stripeSz))
    {
      ghost var chunks := WriteChunks(data, stripeSz);
      ghost var i: nat := 0;
      if |data| > 0 {
        Arith.CeilDiv(|data|, stripeSz);
      }
      var offset := 0;
      var diskIndex := 0;
      while offset < |data|
        invariant Valid()
        invariant 0 <= offset <= |data| && i <= |chunks|
        invariant |data| == 0 ==> offset == 0
        invariant |data| > 0 ==> offset == (if i == |chunks| then |data| else i * stripeSz)
        invariant |data| > 0 && i < |chunks| ==> i * stripeSz < |data|
        invariant |data| > 0 ==> |disks| == |old(disks)| && diskIndex == Arith.Mod(i, |disks|)
        invariant disks == Deal(old(disks), chunks[..i])
        decreases |data| - offset
      {
        var end := offset + stripeSz;
        if end > |data| {
          end := |data|;
        }
        CutChunk(data, stripeSz, i, offset, end);
        var stripe := Fit(data[offset..end], stripeSz);
        assert chunks[..i + 1][..i] == chunks[..i];
        disks := disks[diskIndex := Disk(disks[diskIndex].id, disks[diskIndex].data + [stripe])];
        offset := end;
        Arith.ModNext(i, |disks|);
        diskIndex := Arith.Mod(diskIndex + 1, |disks|);
        i := i + 1;
      }
      assert i == |chunks|;
      assert chunks[..i] == chunks;
      err := None;
    }

    /**
     * Read follows the Go loop: stripe c from disk c mod n, chunk c / n, keeping at most
     * `length` bytes, then dropping the first start mod stripeSz of them.
     */
    method Read(start: int, length: int) returns (r: Result<seq<byte>, Error>)
      requires ReadDefined(disks, stripeSz, start, length)
      ensures r == ReadResult(disks, stripeSz, start, length)
    {
      var totalStripes := GoInt.Quo(start + length + stripeSz - 1, stripeSz);
      var prefix := AssemblePrefix(totalStripes, length);
      if prefix.Err? {
        return Err(prefix.error);
      }
      return Ok(prefix.value[GoInt.Rem(start, stripeSz)..]);
    }

    /** The stripe loop of Read: stripe c from disk c mod n, chunk c / n, up to `length` bytes. */
    method AssemblePrefix(totalStripes: int, length: nat) returns (r: Result<seq<byte>, Error>)
      requires totalStripes > 0 ==> |disks| > 0
      ensures r == PrefixOf(disks, totalStripes, length)
    {
      var result: seq<byte> := [];
      var readCount := 0;
      var stripeCount := 0;
      ghost var collected: seq<seq<byte>> := [];
      while stripeCount < totalStripes
        invariant 0 <= stripeCount && (totalStripes > 0 ==> stripeCount <= totalStripes)
        invariant totalStripes <= 0 ==> stripeCount == 0
        invariant CollectStripes(disks, stripeCount) == Ok(collected)
        invariant result == Take(Flatten(collected), length)
        invariant readCount == |result| <= length
        decreases totalStripes - stripeCount
      {
        var diskIndex := Arith.Mod(stripeCount, |disks|);
        var chunkIndex := Arith.Div(stripeCount, |disks|);
        if chunkIndex >= |disks[diskIndex].data| {
          ReadStopsAt(disks, stripeCount, totalStripes, length);
          r := Err(MissingStripe(diskIndex, chunkIndex));
          assert r == PrefixOf(disks, totalStripes, length);
          return;
        }
        var chunk := disks[diskIndex].data[chunkIndex];
        ghost var next := Take(Flatten(collected + [chunk]), length);
        ReadStep(disks, stripeCount, length, collected);
        var remain := length - readCount;
        if remain >= |chunk| {
          result := result + chunk;
          readCount := readCount + |chunk|;
        } else {
          result := result + chunk[..remain];
          readCount := readCount + remain;
        }
        assert result == next && readCount == |next|;
        collected := collected + [chunk];
        stripeCount := stripeCount + 1;
      }
      return Ok(result);
    }

    /** ClearDisk empties disk index, or rejects an index outside 0 .. n-1. */
    method ClearDisk(index: int) returns (err: Option<Error>)
      requires Valid()
      modifies this
      ensures Valid()
      ensures (index < 0 || index >= |old(disks)|) ==> err == Some(InvalidDiskIndex) && disks == old(disks)
      ensures 0 <= index < |old(disks)| ==> err == None && disks == ClearDiskData(old(disks), index)
    {
      if index < 0 || index >= |disks| {
        return Some(InvalidDiskIndex);
      }
      disks := ClearDiskData(disks, index);
      return None;
    }
  }

  /** One more stripe read: what the Go loop appends is what the prefix of the stripes gains. */
  lemma ReadStep(disks: seq<Disk>, c: nat, length: nat, collected: seq<seq<byte>>)
    requires |disks| > 0 && CollectStripes(disks, c) == Ok(collected)
    requires c / |disks| < |disks[c % |disks|].data|
    ensures var chunk := disks[c % |disks|].data[c / |disks|];
      var result := Take(Flatten(collected), length);
      && CollectStripes(disks, c + 1) == Ok(collected + [chunk])
      && Take(Flatten(collected + [chunk]), length)
        == result + (if length - |result| >= |chunk| then chunk else chunk[..length - |result|])
  {
    var chunk := disks[c % |disks|].data[c / |disks|];
    FlattenAppend(collected, chunk);
    TakeAppend(Flatten(collected), chunk, length);
  }

  /** A stripe missing from its disk ends the loop with the error the prefix reports. */
  lemma ReadStopsAt(disks: seq<Disk>, c: nat, count: int, length: nat)
    requires |disks| > 0 && c < count && CollectStripes(disks, c).Ok?
    requires c / |disks| >= |disks[c % |disks|].data|
    ensures PrefixOf(disks, count, length) == Err(MissingStripe(c % |disks|, c / |disks|))
  {
    CollectStopsAtError(disks, c + 1, count as nat);
  }

  /** Once a stripe is missing, collecting more stripes reports the same error. */
  lemma {:induction false} CollectStopsAtError(disks: seq<Disk>, a: nat, b: nat)
    requires |disks| > 0 && a <= b
    requires CollectStripes(disks, a).Err?
    ensures CollectStripes(disks, b) == CollectStripes(disks, a)
    decreases b - a
  {
    if a < b {
      CollectStopsAtError(disks, a, b - 1);
    }
  }

  // -------------------------------------------------------------- properties

  /**
   * On fresh disks after Write(d), Read(start, length) inside the data gives bytes
   * [start mod stripeSz, length) of d: the first `length` bytes, of which the first
   * start mod stripeSz are dropped.
   */
  lemma ReadAfterWrite(n: nat, size: nat, d: seq<byte>, start: nat, length: nat)
    requires n > 0 && size > 0
    requires start + length <= |d| && start % size <= length
    ensures ReadDefined(Deal(FreshDisks(n), WriteChunks(d, size)), size, start, length)
    ensures ReadResult(Deal(FreshDisks(n), WriteChunks(d, size)), size, start, length)
         == Ok(d[start % size..length])
  {
    PrefixAfterWrite(n, size, d, start, length);
    GoInt.QuoRemNonNegative(start, size);
  }

  /** The prefix Read assembles after Write(d) on fresh disks is the first `length` bytes of d. */
  lemma PrefixAfterWrite(n: nat, size: nat, d: seq<byte>, start: nat, length: nat)
    requires n > 0 && size > 0 && start + length <= |d|
    ensures StripeCount(size, start, length) > 0 ==> |Deal(FreshDisks(n), WriteChunks(d, size))| > 0
    ensures ReadPrefix(Deal(FreshDisks(n), WriteChunks(d, size)), size, start, length) == Ok(d[..length])
  {
    var chunks := WriteChunks(d, size);
    GoInt.QuoRemNonNegative(start + length + size - 1, size);
    var count := StripeCount(size, start, length);
    if count > 0 {
      StripesWithinChunks(size, d, start, length);
      CollectAfterDeal(n, chunks, count as nat);
      FrontOfChunks(d, size, count as nat, length);
    } else {
      NoStripeNoLength(size, start, length);
      assert d[..length] == [];
    }
  }

  /** The stripes a read inside the data visits are chunks Write made, and they cover the read. */
  lemma StripesWithinChunks(size: nat, d: seq<byte>, start: nat, length: nat)
    requires size > 0 && start + length <= |d|
    ensures 0 <= StripeCount(size, start, length) <= |WriteChunks(d, size)|
    ensures StripeCount(size, start, length) * size >= start + length
  {
    var x := start + length;
    GoInt.QuoRemNonNegative(x + size - 1, size);
    var c := (x + size - 1) / size;
    assert StripeCount(size, start, length) == c;
    Arith.CeilDiv(x, size);
    if |d| > 0 {
      assert |WriteChunks(d, size)| == (|d| + size - 1) / size;
      Arith.DivMono(x + size - 1, |d| + size - 1, size);
    } else {
      Arith.DivModUnique(size - 1, size, 0, size - 1);
    }
  }

  /** Read visits no stripe only when there is nothing to read. */
  lemma NoStripeNoLength(size: nat, start: nat, length: nat)
    requires size > 0 && StripeCount(size, start, length) <= 0
    ensures length == 0 && start == 0
  {
    GoInt.QuoRemNonNegative(start + length + size - 1, size);
    if start + length > 0 {
      Arith.DivMono(size, start + length + size - 1, size);
      Arith.DivModUnique(size, size, 1, 0);
    }
  }

  /** On freshly dealt disks, the first `count` stripes are the first `count` chunks. */
  lemma CollectAfterDeal(n: nat, chunks: seq<seq<byte>>, count: nat)
    requires n > 0 && count <= |chunks|
    ensures CollectStripes(Deal(FreshDisks(n), chunks), count) == Ok(chunks[..count])
  {
    var initial := FreshDisks(n);
    var disks := Deal(initial, chunks);
    forall c | 0 <= c < count
      ensures StripeChunk(disks, c) == Some(chunks[c])
    {
      DealPosition(initial, chunks, c);
    }
    var collected := CollectStripes(disks, count);
    CollectStripesSpec(disks, count);
    assert collected.Ok?;
    assert |collected.value| == count;
    forall c | 0 <= c < count
      ensures collected.value[c] == chunks[c]
    {
      assert Some(collected.value[c]) == StripeChunk(disks, c);
    }
    assert collected.value == chunks[..count];
  }

  /** The first `length` bytes of the first `count` chunks of d, when they cover start + length. */
  lemma FrontOfChunks(d: seq<byte>, size: nat, count: nat, length: nat)
    requires size > 0 && length <= |d| && count <= |WriteChunks(d, size)| && count * size >= length
    ensures Take(Flatten(WriteChunks(d, size)[..count]), length) == d[..length]
  {
    var chunks := WriteChunks(d, size);
    WriteChunksCover(d, size);
    assert chunks == chunks[..count] + chunks[count..];
    var whole, front := Flatten(chunks), Flatten(chunks[..count]);
    FlattenConcat(chunks[..count], chunks[count..]);
    FlattenUniform(chunks[..count], size);
    assert Take(front, length) == front[..length] == whole[..length];
  }

  /** On fresh disks, Write(d) then Read(0, |d|) gives d back. */
  lemma WriteThenRead(n: nat, size: nat, d: seq<byte>)
    requires n > 0 && size > 0
    ensures ReadDefined(Deal(FreshDisks(n), WriteChunks(d, size)), size, 0, |d|)
    ensures ReadResult(Deal(FreshDisks(n), WriteChunks(d, size)), size, 0, |d|) == Ok(d)
  {
    ReadAfterWrite(n, size, d, 0, |d|);
    assert d[0..|d|] == d;
  }

  /** Read fails exactly when one of the stripes it visits is not on its disk. */
  lemma ReadFailsIffStripeMissing(disks: seq<Disk>, size: int, start: int, length: int)
    requires ReadDefined(disks, size, start, length)
    ensures ReadResult(disks, size, start, length).Err? <==>
      StripeCount(size, start, length) > 0
      && exists c :: 0 <= c < StripeCount(size, start, length) && StripeChunk(disks, c).None?
  {
    var count := StripeCount(size, start, length);
    if count > 0 {
      CollectStripesSpec(disks, count as nat);
    }
  }

  /** Clearing a disk that received a chunk makes a full read of the data fail. */
  lemma ClearThenReadFails(n: nat, size: nat, d: seq<byte>, i: nat)
    requires n > 0 && size > 0
    requires i < n && i < |WriteChunks(d, size)|
    ensures ReadDefined(ClearDiskData(Deal(FreshDisks(n), WriteChunks(d, size)), i), size, 0, |d|)
    ensures ReadResult(ClearDiskData(Deal(FreshDisks(n), WriteChunks(d, size)), i), size, 0, |d|).Err?
  {
    var chunks := WriteChunks(d, size);
    var cleared := ClearDiskData(Deal(FreshDisks(n), chunks), i);
    GoInt.QuoRemNonNegative(|d| + size - 1, size);
    GoInt.QuoRemNonNegative(0, size);
    assert StripeCount(size, 0, |d|) == |chunks|;
    Arith.DivModUnique(i, n, 0, i);
    assert StripeChunk(cleared, i).None?;
    CollectStripesSpec(cleared, |chunks|);
    assert CollectStripes(cleared, |chunks|).Err?;
  }

  /** The examples of the unit tests: 3 disks, 4-byte stripes. */
  lemma ReadInsideStripeExample(d: seq<byte>)
    requires d == Ascii("ABCDEFGH")
    ensures ReadDefined(Deal(FreshDisks(3), WriteChunks(d, 4)), 4, 2, 4)
    ensures ReadResult(Deal(FreshDisks(3), WriteChunks(d, 4)), 4, 2, 4) == Ok(Ascii("CD"))
    ensures ReadResult(Deal(FreshDisks(3), WriteChunks(d, 4)), 4, 2, 4) != Ok(d[2..6])
  {
    assert |d| == 8 && 2 % 4 == 2;
    ReadAfterWrite(3, 4, d, 2, 4);
    assert d[2..4] == [d[2], d[3]] == Ascii("CD");
  }

  // -------------------------------------------------------------- the read the tests describe

  /**
   * Read(start, length) as its test describes it: the same stripes, their first
   * start + length bytes, and of those the bytes from start on.
   */
  function ReadIntended(disks: seq<Disk>, size: nat, start: nat, length: nat): (r: Result<seq<byte>, Error>)
    requires size > 0 && (StripeCount(size, start, length) > 0 ==> |disks| > 0)
    ensures r.Ok? ==> |r.value| <= length
  {
    match PrefixOf(disks, StripeCount(size, start, length), start + length)
    case Err(e) => Err(e)
    case Ok(prefix) => Ok(if start <= |prefix| then prefix[start..] else [])
  }

  /** On fresh disks, Write(d) then the intended read of any range inside d gives that range. */
  lemma ReadIntendedAfterWrite(n: nat, size: nat, d: seq<byte>, start: nat, length: nat)
    requires n > 0 && size > 0 && start + length <= |d|
    ensures ReadIntended(Deal(FreshDisks(n), WriteChunks(d, size)), size, start, length) == Ok(d[start..start + length])
  {
    PrefixAfterWrite(n, size, d, 0, start + length);
    assert StripeCount(size, 0, start + length) == StripeCount(size, start, length);
    assert d[..start + length][start..] == d[start..start + length];
  }

  lemma ReadPartialStripeExample(d: seq<byte>)
    requires d == Ascii("ABCDEF")
    ensures ReadDefined(Deal(FreshDisks(3), WriteChunks(d, 4)), 4, 0, 3)
    ensures ReadResult(Deal(FreshDisks(3), WriteChunks(d, 4)), 4, 0, 3) == Ok(Ascii("ABC"))
  {
    ReadAfterWrite(3, 4, d, 0, 3);
    assert d[0..3] == Ascii("ABC");
  }
}
