/**
 * Parity striping, shared by the RAID5 and RAID6 controllers. Logical stripe s of an array
 * of n disks is k = n - p data shards of stripeSz bytes and p parity shards of the same size;
 * the bytes per full stripe are stripeSz * k. Every disk holds one shard of every stripe, as
 * chunk s of its chunk list; the layout says which disk holds which shard:
 *   - RAID5 rotates its single parity shard: in stripe s, disk s mod n holds the parity and
 *     the other disks hold the data shards in ascending disk order;
 *   - RAID6 keeps the data shards on disks 0 .. n-3, P on disk n-2 and Q on disk n-1.
 */
module Stripes {
  import opened Wrappers
  import opened Bytes
  import opened Base
  import opened RsUtil
  import GoInt
  import Arith

  datatype Layout = RotatingParity | FixedParity

  /** The RAID level the layout belongs to. */
  function Level(layout: Layout): nat
  {
    match layout
    case RotatingParity => 5
    case FixedParity => 6
  }

  /** The number of parity shards per stripe. */
  function ParityCount(layout: Layout): nat
  {
    match layout
    case RotatingParity => 1
    case FixedParity => 2
  }

  /** Two data disks plus the parity disks. */
  function MinDisks(layout: Layout): nat
  {
    ParityCount(layout) + 2
  }

  /** The errors the RAID5 and RAID6 controllers return; Message gives the text Go formats. */
  datatype Error =
    | TooFewDisks(layout: Layout, provided: int)
    | BadStripeSize(provided: int)
    | NegativeRange
    | NothingWritten
    | StartBeyondData(start: int, stored: int)
    | ReconstructFailed(layout: Layout, stripe: nat, cause: CodecError)
    | IndexOutOfBounds(index: int, disks: nat)

  function Message(e: Error): string
  {
    match e
    case TooFewDisks(layout, n) =>
      "RAID" + GoInt.Format(Level(layout)) + " requires at least " + GoInt.Format(MinDisks(layout))
      + " disks (2 data + " + GoInt.Format(ParityCount(layout)) + " parity). Provided: " + GoInt.Format(n)
    case BadStripeSize(sz) => "stripe size (chunk unit size) must be greater than 0. Provided: " + GoInt.Format(sz)
    case NegativeRange => "read start and length must be non-negative"
    case NothingWritten => "no data has been written to the RAID array yet to read from"
    case StartBeyondData(start, stored) =>
      "read start offset " + GoInt.Format(start) + " is beyond total data stored " + GoInt.Format(stored)
    case ReconstructFailed(layout, s, cause) =>
      "RAID" + GoInt.Format(Level(layout)) + ": failed to reconstruct data for stripe " + GoInt.Format(s)
      + ": " + RsUtil.Message(cause)
    case IndexOutOfBounds(i, n) => "disk index " + GoInt.Format(i) + " out of bounds for " + GoInt.Format(n) + " disks"
  }

  /** The constructor's checks, in order: too few disks, then a stripe size that is not positive. */
  function CheckNew(layout: Layout, diskCount: int, stripeSz: int): (e: Option<Error>)
    ensures e.None? <==> diskCount >= MinDisks(layout) && stripeSz > 0
    ensures diskCount < MinDisks(layout) ==> e == Some(TooFewDisks(layout, diskCount))
    ensures diskCount >= MinDisks(layout) && stripeSz <= 0 ==> e == Some(BadStripeSize(stripeSz))
  {
    if diskCount < MinDisks(layout) then Some(TooFewDisks(layout, diskCount))
    else if stripeSz <= 0 then Some(BadStripeSize(stripeSz))
    else None
  }

  // -------------------------------------------------------------- geometry

  /** The array's invariant: enough disks, a positive stripe size, every chunk stripeSz bytes. */
  ghost predicate Shape(disks: seq<Disk>, layout: Layout, size: int)
  {
    |disks| >= MinDisks(layout) && size > 0 && ChunksSized(disks, size)
  }

  /** The number of data shards of an array of n disks. */
  function DataShards(layout: Layout, n: nat): nat
    requires n >= MinDisks(layout)
  {
    n - ParityCount(layout)
  }

  /** The logical bytes one stripe holds: stripeSz bytes per data shard. */
  function StripeBytes(layout: Layout, n: nat, size: nat): (bps: nat)
    requires n >= MinDisks(layout) && size > 0
    ensures bps >= 2 * size
  {
    Arith.MulMono(2, DataShards(layout, n), size);
    size * DataShards(layout, n)
  }

  /**
   * The codeword position of the shard disk d holds in stripe s. RAID5: the parity disk
   * s mod n holds shard n - 1, the disks before it data shards 0 .., the disks after it the
   * rest; RAID6: disk d holds shard d.
   */
  function ShardOf(layout: Layout, n: nat, s: nat, d: nat): (i: nat)
    requires d < n
    ensures i < n
  {
    match layout
    case RotatingParity =>
      var q := Arith.Mod(s, n);
      if d == q then n - 1 else if d < q then d else d - 1
    case FixedParity => d
  }

  /** The disk that holds codeword position i of stripe s: the inverse of ShardOf. */
  function DiskOf(layout: Layout, n: nat, s: nat, i: nat): (d: nat)
    requires i < n
    ensures d < n
  {
    match layout
    case RotatingParity =>
      var q := Arith.Mod(s, n);
      if i == n - 1 then q else if i < q then i else i + 1
    case FixedParity => i
  }

  /** ShardOf and DiskOf are inverse bijections of 0 .. n-1. */
  lemma ShardDiskInverse(layout: Layout, n: nat, s: nat)
    ensures forall d :: 0 <= d < n ==> DiskOf(layout, n, s, ShardOf(layout, n, s, d)) == d
    ensures forall i :: 0 <= i < n ==> ShardOf(layout, n, s, DiskOf(layout, n, s, i)) == i
  {
  }

  /**
   * RAID5's rotation: in stripe s, disk s mod n holds the parity shard, and the other disks
   * hold the data shards 0 .. n-2 in ascending disk order.
   */
  lemma RotatingPlacement(n: nat, s: nat)
    requires n >= MinDisks(RotatingParity)
    ensures ShardOf(RotatingParity, n, s, s % n) == n - 1
    ensures forall d, e :: 0 <= d < e < n && d != s % n && e != s % n ==>
      ShardOf(RotatingParity, n, s, d) < ShardOf(RotatingParity, n, s, e) < n - 1
  {
    var q := Arith.Mod(s, n);
    forall d, e | 0 <= d < e < n && d != s % n && e != s % n
      ensures ShardOf(RotatingParity, n, s, d) < ShardOf(RotatingParity, n, s, e) < n - 1
    {
      assert ShardOf(RotatingParity, n, s, d) == if d < q then d else d - 1;
      assert ShardOf(RotatingParity, n, s, e) == if e < q then e else e - 1;
    }
  }

  /** RAID6 without rotation: disks 0 .. n-3 hold the data shards, disk n-2 holds P, disk n-1 holds Q. */
  lemma FixedPlacement(n: nat, s: nat)
    requires n >= MinDisks(FixedParity)
    ensures var k := DataShards(FixedParity, n);
      && (forall d :: 0 <= d < k ==> ShardOf(FixedParity, n, s, d) == d)
      && ShardOf(FixedParity, n, s, n - 2) == k && ShardOf(FixedParity, n, s, n - 1) == k + 1
  {
  }

  // -------------------------------------------------------------- reading a stripe

  /** Disk's chunk for stripe s as Read copies it, or None (a lost shard) when the disk lacks it. */
  function ChunkAt(disk: Disk, s: nat): Shard
  {
    if s < |disk.data| && |disk.data[s]| > 0 then Some(disk.data[s]) else None
  }

  /** The shard array Read hands to the codec for stripe s: codeword position i from disk DiskOf(i). */
  function Shards(disks: seq<Disk>, layout: Layout, s: nat): (shards: seq<Shard>)
    ensures |shards| == |disks|
  {
    seq(|disks|, i requires 0 <= i < |disks| => ChunkAt(disks[DiskOf(layout, |disks|, s, i)], s))
  }

  /**
   * The bytes of stripe s: the data shards after reconstruction, concatenated; or the
   * codec's refusal when more shards are lost than there are parity shards.
   */
  function StripeData(disks: seq<Disk>, layout: Layout, code: Code, size: nat, s: nat): (r: Result<seq<byte>, Error>)
    requires Shape(disks, layout, size)
    ensures r.Ok? ==> |r.value| == StripeBytes(layout, |disks|, size)
  {
    var k := DataShards(layout, |disks|);
    var shards := Shards(disks, layout, s);
    match Reconstruct(shards, code, ParityCount(layout))
    case Err(e) => Err(ReconstructFailed(layout, s, e))
    case Ok(full) =>
      ReconstructSized(shards, code, ParityCount(layout), size);
      FlattenUniform(full[..k], size);
      Ok(Flatten(full[..k]))
  }

  /** The longest chunk list: one more than Read's maxWrittenLogicalStripeIdx. */
  function MaxChunks(disks: seq<Disk>): (m: nat)
    ensures forall d :: 0 <= d < |disks| ==> |disks[d].data| <= m
    ensures m == 0 || exists d :: 0 <= d < |disks| && |disks[d].data| == m
  {
    if disks == [] then 0
    else
      var n := |disks| - 1;
      assert forall d :: 0 <= d < n ==> disks[..n][d] == disks[d];
      var m := MaxChunks(disks[..n]);
      if |disks[n].data| > m then |disks[n].data| else m
  }

  /** The byte at logical offset o: byte o mod bps of stripe o / bps, or None when the stripe cannot be rebuilt. */
  function StripeByte(disks: seq<Disk>, layout: Layout, code: Code, size: nat, o: nat): Option<byte>
    requires Shape(disks, layout, size)
  {
    var bps := StripeBytes(layout, |disks|, size);
    match StripeData(disks, layout, code, size, Arith.Div(o, bps))
    case Err(_) => None
    case Ok(stripe) => Some(stripe[Arith.Mod(o, bps)])
  }

  /** Every stripe that can be rebuilt holds bps bytes. */
  ghost predicate StripesSized(stripes: seq<Result<seq<byte>, Error>>, bps: nat)
  {
    forall s :: 0 <= s < |stripes| && stripes[s].Ok? ==> |stripes[s].value| == bps
  }

  /** Stripes 0 .. count-1 as Read rebuilds them. */
  function StripeList(disks: seq<Disk>, layout: Layout, code: Code, size: nat, count: nat): (stripes: seq<Result<seq<byte>, Error>>)
    requires Shape(disks, layout, size)
    ensures |stripes| == count && StripesSized(stripes, StripeBytes(layout, |disks|, size))
  {
    if count == 0 then []
    else
      var front := StripeList(disks, layout, code, size, count - 1);
      var last := StripeData(disks, layout, code, size, count - 1);
      assert forall s :: 0 <= s < count - 1 ==> (front + [last])[s] == front[s];
      front + [last]
  }

  /** Each entry of StripeList is the stripe Read rebuilds at that index. */
  lemma StripeListItems(disks: seq<Disk>, layout: Layout, code: Code, size: nat, count: nat)
    requires Shape(disks, layout, size)
    ensures var stripes := StripeList(disks, layout, code, size, count);
      forall s {:trigger StripeData(disks, layout, code, size, s)} :: 0 <= s < count ==> stripes[s] == StripeData(disks, layout, code, size, s)
  {
    forall s | 0 <= s < count
      ensures StripeList(disks, layout, code, size, count)[s] == StripeData(disks, layout, code, size, s)
    {
      StripeListItem(disks, layout, code, size, count, s);
    }
  }

  /** Entry s of StripeList is stripe s. */
  lemma {:induction false} StripeListItem(disks: seq<Disk>, layout: Layout, code: Code, size: nat, count: nat, s: nat)
    requires Shape(disks, layout, size) && s < count
    ensures StripeList(disks, layout, code, size, count)[s] == StripeData(disks, layout, code, size, s)
  {
    if s < count - 1 {
      StripeListItem(disks, layout, code, size, count - 1, s);
    }
  }

  /**
   * Read's loop over [cur, end): the piece of each stripe from cur to the end of the stripe
   * or of the range, or the error of the first stripe that cannot be rebuilt.
   */
  function ReadFrom(stripes: seq<Result<seq<byte>, Error>>, bps: nat, cur: nat, end: nat): (r: Result<seq<byte>, Error>)
    requires bps > 0 && StripesSized(stripes, bps) && end <= |stripes| * bps
    ensures r.Ok? ==> |r.value| == if cur < end then end - cur else 0
    decreases end - cur, 1
  {
    if cur >= end then Ok([]) else ReadPiece(stripes, bps, cur, end)
  }

  /** One turn of Read's loop at cur < end: the piece of the stripe holding cur, then the rest. */
  function ReadPiece(stripes: seq<Result<seq<byte>, Error>>, bps: nat, cur: nat, end: nat): (r: Result<seq<byte>, Error>)
    requires bps > 0 && StripesSized(stripes, bps) && cur < end <= |stripes| * bps
    ensures r.Ok? ==> |r.value| == end - cur
    decreases end - cur, 0
  {
    Arith.DivLess(cur, bps, |stripes|);
    var stripe := stripes[Arith.Div(cur, bps)];
    if stripe.Err? then Err(stripe.error)
    else
      var pos := Arith.Mod(cur, bps);
      var n := if bps - pos < end - cur then bps - pos else end - cur;
      Prepend(stripe.value[pos..pos + n], ReadFrom(stripes, bps, cur + n, end))
  }

  /**
   * Read(start, length): negative arguments are refused, so is an array with no chunk at
   * all, and so is a start at or past the stored total (the longest chunk list times the
   * bytes per stripe); the range is cut at the stored total.
   */
  function ReadResult(disks: seq<Disk>, layout: Layout, code: Code, size: nat, start: int, length: int): (r: Result<seq<byte>, Error>)
    requires Shape(disks, layout, size)
    ensures r.Ok? ==> |r.value| <= length
  {
    if start < 0 || length < 0 then Err(NegativeRange)
    else
      if MaxChunks(disks) == 0 then Err(NothingWritten)
      else
        var stored := StoredBytes(disks, layout, size);
        if start >= stored then Err(StartBeyondData(start, stored))
        else
          var end := if start + length > stored then stored else start + length;
          if end - start <= 0 then Ok([])
          else ReadStored(disks, layout, code, size, start, end)
  }

  /** How many bytes the disks hold in Read's reckoning: all stripes up to the longest disk's last chunk. */
  function StoredBytes(disks: seq<Disk>, layout: Layout, size: nat): nat
    requires Shape(disks, layout, size)
  {
    MaxChunks(disks) * StripeBytes(layout, |disks|, size)
  }

  /** Bytes [start, end) of the stored stripes, or the error of the first stripe among them that cannot be rebuilt. */
  function ReadStored(disks: seq<Disk>, layout: Layout, code: Code, size: nat, start: nat, end: nat): (r: Result<seq<byte>, Error>)
    requires Shape(disks, layout, size) && end <= StoredBytes(disks, layout, size)
    ensures r.Ok? ==> |r.value| == if start < end then end - start else 0
  {
    ReadFrom(StripeList(disks, layout, code, size, MaxChunks(disks)), StripeBytes(layout, |disks|, size), start, end)
  }

  // -------------------------------------------------------------- writing stripes

  /** How many zero chunks Go appends to a chunk list of len chunks so that it holds chunk s. */
  function Growth(len: nat, s: nat): nat
  {
    if s < len then 0 else s + 1 - len
  }

  /** One disk's part of storing stripe s: lengthened with zero chunks to hold chunk s, then given chunk s. */
  function PutChunk(disk: Disk, s: nat, chunk: seq<byte>, size: nat): (r: Disk)
    ensures r.id == disk.id && |r.data| == |disk.data| + Growth(|disk.data|, s)
    ensures s < |r.data| && r.data[s] == chunk
    ensures forall c :: 0 <= c < |r.data| && c != s ==>
      r.data[c] == (if c < |disk.data| then disk.data[c] else Zeros(size))
  {
    var e := Extend(disk, Growth(|disk.data|, s), size);
    Disk(e.id, e.data[s := chunk])
  }

  /** Write's placement of one encoded stripe: disk d receives codeword position ShardOf(d) as chunk s. */
  function PlaceStripe(disks: seq<Disk>, layout: Layout, size: nat, s: nat, shards: seq<seq<byte>>): (r: seq<Disk>)
    requires |shards| == |disks|
    ensures |r| == |disks|
  {
    seq(|disks|, d requires 0 <= d < |disks| => PutChunk(disks[d], s, shards[ShardOf(layout, |disks|, s, d)], size))
  }

  /** The k + p shards Go's EncodeStripeShards makes of one stripe's bytes. */
  function Encode(disks: seq<Disk>, layout: Layout, code: Code, size: nat, input: seq<byte>): (shards: seq<seq<byte>>)
    requires Shape(disks, layout, size)
    ensures |shards| == |disks| && Uniform(shards, size)
  {
    EncodeStripeShards(input, size, code, DataShards(layout, |disks|), ParityCount(layout))
  }

  /** Write's loop over the first count full stripes of data, stored at stripes base, base + 1, .... */
  function FullStripes(disks: seq<Disk>, layout: Layout, code: Code, size: nat, data: seq<byte>, base: int, count: nat): (r: seq<Disk>)
    requires Shape(disks, layout, size) && count <= |data| / StripeBytes(layout, |disks|, size)
    requires count == 0 || base >= 0
    ensures Shape(r, layout, size) && |r| == |disks| && Ids(r) == Ids(disks)
    decreases count, 1
  {
    if count == 0 then disks else NextStripe(disks, layout, code, size, data, base, count - 1)
  }

  /** One turn of Write's loop: full stripe i of data, encoded and stored as stripe base + i. */
  function NextStripe(disks: seq<Disk>, layout: Layout, code: Code, size: nat, data: seq<byte>, base: int, i: nat): (r: seq<Disk>)
    requires Shape(disks, layout, size) && i < |data| / StripeBytes(layout, |disks|, size) && base >= 0
    ensures Shape(r, layout, size) && |r| == |disks| && Ids(r) == Ids(disks)
    decreases i + 1, 0
  {
    var bps := StripeBytes(layout, |disks|, size);
    var prev := FullStripes(disks, layout, code, size, data, base, i);
    var shards := Encode(prev, layout, code, size, StripeSlice(data, bps, i));
    PlaceStripeShape(prev, layout, size, base + i, shards);
    PlaceStripe(prev, layout, size, base + i, shards)
  }

  /** Full stripe i of data: its bytes [i * bps, (i + 1) * bps). */
  function StripeSlice(data: seq<byte>, bps: nat, i: nat): (piece: seq<byte>)
    requires bps > 0 && i < |data| / bps
    ensures |piece| == bps
  {
    Arith.MulBelow(i + 1, |data|, bps);
    Arith.Distrib(i + 1, 1, bps);
    data[i * bps..i * bps + bps]
  }

  /** Chunk c of disk d after stripe s is placed: the shard for c = s, the old chunk or a zero chunk elsewhere. */
  lemma PlaceStripeChunks(disks: seq<Disk>, layout: Layout, size: nat, s: nat, shards: seq<seq<byte>>, d: nat, c: nat)
    requires |shards| == |disks| && d < |disks|
    ensures var r := PlaceStripe(disks, layout, size, s, shards);
      && |r[d].data| == (if s < |disks[d].data| then |disks[d].data| else s + 1)
      && (c < |r[d].data| ==>
            r[d].data[c] == (if c == s then shards[ShardOf(layout, |disks|, s, d)]
                             else if c < |disks[d].data| then disks[d].data[c]
                             else Zeros(size)))
  {
    var e := Extend(disks[d], Growth(|disks[d].data|, s), size);
    if c < |disks[d].data| && c != s {
      assert e.data[c] == disks[d].data[c];
    }
  }

  /** Placing a stripe of shards of stripeSz bytes keeps every chunk stripeSz bytes long and every disk its ID. */
  lemma PlaceStripeShape(disks: seq<Disk>, layout: Layout, size: nat, s: nat, shards: seq<seq<byte>>)
    requires Shape(disks, layout, size) && |shards| == |disks| && Uniform(shards, size)
    ensures var r := PlaceStripe(disks, layout, size, s, shards);
      Shape(r, layout, size) && Ids(r) == Ids(disks)
  {
    var r := PlaceStripe(disks, layout, size, s, shards);
    forall d, c | 0 <= d < |r| && 0 <= c < |r[d].data|
      ensures |r[d].data[c]| == size
    {
      PlaceStripeChunks(disks, layout, size, s, shards, d, c);
    }
  }

  // -------------------------------------------------------------- read-modify-write

  /** The first loop of handlePartialWrite: every disk lengthened with zero chunks until it holds chunk s. */
  function Refill(disks: seq<Disk>, s: nat, size: nat): (r: seq<Disk>)
    ensures |r| == |disks|
  {
    seq(|disks|, d requires 0 <= d < |disks| => Extend(disks[d], Growth(|disks[d].data|, s), size))
  }

  /**
   * After the refill every disk holds a stripeSz-byte chunk s, so no shard of stripe s is
   * lost: a disk that failed before counts as present, holding zeros.
   */
  lemma RefillPresent(disks: seq<Disk>, layout: Layout, size: nat, s: nat)
    requires Shape(disks, layout, size)
    ensures Shape(Refill(disks, s, size), layout, size) && Ids(Refill(disks, s, size)) == Ids(disks)
    ensures forall i :: 0 <= i < |disks| ==> Shards(Refill(disks, s, size), layout, s)[i].Some?
    ensures MissingCount(Shards(Refill(disks, s, size), layout, s)) == 0
  {
    var grown := Refill(disks, s, size);
    forall d, c | 0 <= d < |grown| && 0 <= c < |grown[d].data|
      ensures |grown[d].data[c]| == size
    {
      if c < |disks[d].data| {
        assert grown[d].data[c] == disks[d].data[c];
      } else {
        assert grown[d].data[c] == Zeros(size);
      }
    }
    var shards := Shards(grown, layout, s);
    forall i | 0 <= i < |disks|
      ensures shards[i].Some?
    {
      var d := DiskOf(layout, |disks|, s, i);
      assert |grown[d].data[s]| == size;
    }
  }

  /**
   * The refill lengthens a cleared disk too: every stripe up to s then has a zero chunk on it,
   * which Read takes as a present shard instead of rebuilding the bytes that were lost.
   */
  lemma RefillHidesLoss(disks: seq<Disk>, layout: Layout, size: nat, s: nat, d: nat, t: nat)
    requires Shape(disks, layout, size) && d < |disks| && disks[d].data == [] && t <= s
    ensures ChunkAt(Refill(disks, s, size)[d], t) == Some(Zeros(size))
  {
  }

  /** The data shards of a stripe whose shards are all present, laid end to end: the RMW buffer. */
  function StripeBuffer(disks: seq<Disk>, layout: Layout, size: nat, s: nat): (buffer: seq<byte>)
    requires Shape(disks, layout, size)
    requires forall i :: 0 <= i < |disks| ==> Shards(disks, layout, s)[i].Some?
    ensures |buffer| == StripeBytes(layout, |disks|, size)
  {
    var k := DataShards(layout, |disks|);
    var shards := Values(Shards(disks, layout, s));
    assert Uniform(shards[..k], size) by {
      forall i | 0 <= i < k
        ensures |shards[i]| == size
      {
        var d := DiskOf(layout, |disks|, s, i);
        assert Shards(disks, layout, s)[i] == ChunkAt(disks[d], s);
        assert shards[i] == disks[d].data[s];
      }
    }
    FlattenUniform(shards[..k], size);
    Flatten(shards[..k])
  }

  /** The RMW buffer of stripe s: its data shards after the refill, laid end to end. */
  function RefilledBuffer(disks: seq<Disk>, layout: Layout, size: nat, s: nat): (buffer: seq<byte>)
    requires Shape(disks, layout, size)
    ensures |buffer| == StripeBytes(layout, |disks|, size)
  {
    RefillPresent(disks, layout, size, s);
    StripeBuffer(Refill(disks, s, size), layout, size, s)
  }

  /**
   * handlePartialWrite: refill every disk up to the target stripe, take its data shards as
   * they stand (nothing is lost after the refill), overlay the new bytes at pos, re-encode,
   * and store the new shards.
   */
  function PartialWrite(disks: seq<Disk>, layout: Layout, code: Code, size: nat, piece: seq<byte>, target: nat, pos: nat): (r: seq<Disk>)
    requires Shape(disks, layout, size) && pos + |piece| <= StripeBytes(layout, |disks|, size)
    ensures Shape(r, layout, size) && |r| == |disks| && Ids(r) == Ids(disks)
  {
    var grown := Refill(disks, target, size);
    RefillPresent(disks, layout, size, target);
    var updated := Overlay(RefilledBuffer(disks, layout, size, target), pos, piece);
    var shards := Encode(grown, layout, code, size, updated);
    PlaceStripeShape(grown, layout, size, target, shards);
    PlaceStripe(grown, layout, size, target, shards)
  }

  // -------------------------------------------------------------- Write

  /**
   * Write(data, offset) does not panic: the full stripes start at a stripe index that is not
   * negative, and a partial last stripe starts at a non-negative offset and fits in its stripe.
   */
  ghost predicate WriteDefined(bps: nat, len: nat, offset: int)
  {
    && bps > 0
    && (len / bps > 0 ==> GoInt.Quo(offset, bps) >= 0)
    && (len % bps > 0 ==> offset + (len / bps) * bps >= 0 && (offset + (len / bps) * bps) % bps + len % bps <= bps)
  }

  /**
   * Write(data, offset): the |data| / bps full stripes go to stripes offset / bps + i, whatever
   * offset mod bps is; the remaining bytes go through read-modify-write into the stripe of
   * offset + (full stripes) * bps, at its position in that stripe.
   */
  function WriteResult(disks: seq<Disk>, layout: Layout, code: Code, size: nat, data: seq<byte>, offset: int): (r: seq<Disk>)
    requires Shape(disks, layout, size) && WriteDefined(StripeBytes(layout, |disks|, size), |data|, offset)
    ensures Shape(r, layout, size) && |r| == |disks| && Ids(r) == Ids(disks)
  {
    var bps := StripeBytes(layout, |disks|, size);
    var written := FullStripes(disks, layout, code, size, data, FirstStripe(bps, |data|, offset), |data| / bps);
    WriteTail(written, layout, code, size, data, offset)
  }

  /** The stripe the full stripes of Write start at: offset / bps in Go's truncating division (0 if there are none). */
  function FirstStripe(bps: nat, len: nat, offset: int): (first: int)
    requires bps > 0 && (len / bps > 0 ==> GoInt.Quo(offset, bps) >= 0)
    ensures len / bps > 0 ==> first >= 0
  {
    if len / bps > 0 then GoInt.Quo(offset, bps) else 0
  }

  /** Where the last, partial stripe of len bytes starts: after the len / bps full stripes of bps bytes. */
  function TailStart(len: nat, bps: nat): (p: nat)
    requires bps > 0
    ensures p == (len / bps) * bps && p + len % bps == len
  {
    Arith.Euclid(len, bps);
    (len / bps) * bps
  }

  /** The stripe the partial last stripe goes to: (offset + partialOffset) / bps. */
  function TailStripe(bps: nat, len: nat, offset: int): (s: nat)
    requires WriteDefined(bps, len, offset) && len % bps > 0
  {
    Arith.Div(offset + TailStart(len, bps), bps)
  }

  /** Where in its stripe the partial last stripe starts: (offset + partialOffset) mod bps; the rest fits. */
  function TailPos(bps: nat, len: nat, offset: int): (pos: nat)
    requires WriteDefined(bps, len, offset) && len % bps > 0
    ensures pos + (len - TailStart(len, bps)) <= bps
  {
    Arith.Mod(offset + TailStart(len, bps), bps)
  }

  /** The last, partial stripe of Write: the |data| mod bps bytes after the full stripes, by read-modify-write. */
  function WriteTail(disks: seq<Disk>, layout: Layout, code: Code, size: nat, data: seq<byte>, offset: int): (r: seq<Disk>)
    requires Shape(disks, layout, size) && WriteDefined(StripeBytes(layout, |disks|, size), |data|, offset)
    ensures Shape(r, layout, size) && |r| == |disks| && Ids(r) == Ids(disks)
  {
    var bps := StripeBytes(layout, |disks|, size);
    if |data| % bps > 0 then
      PartialWrite(disks, layout, code, size, data[TailStart(|data|, bps)..], TailStripe(bps, |data|, offset), TailPos(bps, |data|, offset))
    else disks
  }

  /** WriteTail with a partial last stripe is the read-modify-write of the remaining bytes, at the tail stripe and position. */
  lemma WriteTailIs(disks: seq<Disk>, layout: Layout, code: Code, size: nat, data: seq<byte>, offset: int,
                    piece: seq<byte>, target: nat, pos: nat)
    requires Shape(disks, layout, size) && WriteDefined(StripeBytes(layout, |disks|, size), |data|, offset)
    requires |data| % StripeBytes(layout, |disks|, size) > 0 && piece == data[TailStart(|data|, StripeBytes(layout, |disks|, size))..]
    requires target == TailStripe(StripeBytes(layout, |disks|, size), |data|, offset)
    requires pos == TailPos(StripeBytes(layout, |disks|, size), |data|, offset)
    ensures pos + |piece| <= StripeBytes(layout, |disks|, size)
    ensures WriteTail(disks, layout, code, size, data, offset) == PartialWrite(disks, layout, code, size, piece, target, pos)
  {
  }

  // -------------------------------------------------------------- the Go loops

  /** `for s >= len(disk.Data) { disk.Data = append(disk.Data, make([]byte, size)) }` */
  method GrowDisk(disk: Disk, s: nat, size: nat) returns (grown: Disk)
    ensures grown == Extend(disk, Growth(|disk.data|, s), size)
  {
    var data := disk.data;
    while s >= |data|
      invariant |disk.data| <= |data| <= |disk.data| + Growth(|disk.data|, s)
      invariant data == disk.data + seq(|data| - |disk.data|, _ => Zeros(size))
      decreases s + 1 - |data|
    {
      data := data + [Zeros(size)];
    }
    return Disk(disk.id, data);
  }

  /** Read's first inner loop: each disk's chunk for stripe s, nil where the disk lacks it. */
  method PhysicalShards(disks: seq<Disk>, s: nat) returns (physical: seq<Shard>)
    ensures |physical| == |disks|
    ensures forall d :: 0 <= d < |disks| ==> physical[d] == ChunkAt(disks[d], s)
  {
    physical := [];
    for d := 0 to |disks|
      invariant |physical| == d
      invariant forall e :: 0 <= e < d ==> physical[e] == ChunkAt(disks[e], s)
    {
      if s >= |disks[d].data| || |disks[d].data[s]| == 0 {
        physical := physical + [None];
      } else {
        physical := physical + [Some(disks[d].data[s])];
      }
    }
  }

  /** RAID5's shard order: the parity disk s mod n to position n - 1, the others in turn to 0 .. n-2. */
  method GatherRotating(disks: seq<Disk>, s: nat) returns (rs: seq<Shard>)
    requires |disks| >= MinDisks(RotatingParity)
    ensures rs == Shards(disks, RotatingParity, s)
  {
    var n := |disks|;
    var physical := PhysicalShards(disks, s);
    var parity := s % n;
    ShardDiskInverse(RotatingParity, n, s);
    rs := seq(n, _ => None);
    var counter := 0;
    for d := 0 to n
      invariant |rs| == n && counter == if d <= parity then d else d - 1
      invariant forall i :: 0 <= i < n ==>
        rs[i] == if DiskOf(RotatingParity, n, s, i) < d then physical[DiskOf(RotatingParity, n, s, i)] else None
    {
      if d == parity {
        rs := rs[n - 1 := physical[d]];
      } else {
        rs := rs[counter := physical[d]];
        counter := counter + 1;
      }
    }
  }

  /** RAID6's shard order: data disks 0 .. n-3 as they are, P from disk n-2, Q from disk n-1. */
  method GatherFixed(disks: seq<Disk>, s: nat) returns (rs: seq<Shard>)
    requires |disks| >= MinDisks(FixedParity)
    ensures rs == Shards(disks, FixedParity, s)
  {
    var n := |disks|;
    var k := n - 2;
    var physical := PhysicalShards(disks, s);
    rs := seq(n, _ => None);
    for i := 0 to k
      invariant |rs| == n
      invariant forall j :: 0 <= j < n ==> rs[j] == if j < i then physical[j] else None
    {
      rs := rs[i := physical[i]];
    }
    rs := rs[k := physical[n - 2]];
    rs := rs[k + 1 := physical[n - 1]];
  }

  method Gather(disks: seq<Disk>, layout: Layout, s: nat) returns (rs: seq<Shard>)
    requires |disks| >= MinDisks(layout)
    ensures rs == Shards(disks, layout, s)
  {
    match layout
    case RotatingParity => rs := GatherRotating(disks, s);
    case FixedParity => rs := GatherFixed(disks, s);
  }

  /** RAID5's write-out: every disk grown to hold chunk s, the parity disk given shard n - 1, the others shards 0 .. n-2 in turn. */
  method StoreRotating(disks: seq<Disk>, size: nat, s: nat, shards: seq<seq<byte>>) returns (r: seq<Disk>)
    requires |disks| >= MinDisks(RotatingParity) && |shards| == |disks|
    ensures r == PlaceStripe(disks, RotatingParity, size, s, shards)
  {
    var n := |disks|;
    var parity := s % n;
    var counter := 0;
    r := disks;
    for d := 0 to n
      invariant |r| == n && counter == if d <= parity then d else d - 1
      invariant forall e :: 0 <= e < d ==> r[e] == PutChunk(disks[e], s, shards[ShardOf(RotatingParity, n, s, e)], size)
      invariant forall e :: d <= e < n ==> r[e] == disks[e]
    {
      var grown := GrowDisk(r[d], s, size);
      if d == parity {
        r := r[d := Disk(grown.id, grown.data[s := shards[n - 1]])];
      } else {
        r := r[d := Disk(grown.id, grown.data[s := shards[counter]])];
        counter := counter + 1;
      }
    }
  }

  /** RAID6's write-out: disk n-2 given P, disk n-1 given Q, the data disks the data shards in turn. */
  method StoreFixed(disks: seq<Disk>, size: nat, s: nat, shards: seq<seq<byte>>) returns (r: seq<Disk>)
    requires |disks| >= MinDisks(FixedParity) && |shards| == |disks|
    ensures r == PlaceStripe(disks, FixedParity, size, s, shards)
  {
    var n := |disks|;
    var k := n - 2;
    var counter := 0;
    r := disks;
    for d := 0 to n
      invariant |r| == n && counter == if d <= k then d else k
      invariant forall e :: 0 <= e < d ==> r[e] == PutChunk(disks[e], s, shards[e], size)
      invariant forall e :: d <= e < n ==> r[e] == disks[e]
    {
      var grown := GrowDisk(r[d], s, size);
      if d == n - 2 {
        r := r[d := Disk(grown.id, grown.data[s := shards[k]])];
      } else if d == n - 1 {
        r := r[d := Disk(grown.id, grown.data[s := shards[k + 1]])];
      } else {
        r := r[d := Disk(grown.id, grown.data[s := shards[counter]])];
        counter := counter + 1;
      }
    }
  }

  method Store(disks: seq<Disk>, layout: Layout, size: nat, s: nat, shards: seq<seq<byte>>) returns (r: seq<Disk>)
    requires |disks| >= MinDisks(layout) && |shards| == |disks|
    ensures r == PlaceStripe(disks, layout, size, s, shards)
  {
    match layout
    case RotatingParity => r := StoreRotating(disks, size, s, shards);
    case FixedParity => r := StoreFixed(disks, size, s, shards);
  }

  /** handlePartialWrite's first loop: every disk grown to hold chunk s. */
  method RefillDisks(disks: seq<Disk>, s: nat, size: nat) returns (r: seq<Disk>)
    ensures r == Refill(disks, s, size)
  {
    r := disks;
    for d := 0 to |disks|
      invariant |r| == |disks|
      invariant forall e :: 0 <= e < d ==> r[e] == Extend(disks[e], Growth(|disks[e].data|, s), size)
      invariant forall e :: d <= e < |disks| ==> r[e] == disks[e]
    {
      var grown := GrowDisk(r[d], s, size);
      r := r[d := grown];
    }
  }

  /** The first k shards of a complete shard array laid end to end. */
  method JoinDataShards(rebuilt: seq<Shard>, k: nat) returns (logical: seq<byte>)
    requires k <= |rebuilt| && forall i :: 0 <= i < |rebuilt| ==> rebuilt[i].Some?
    ensures logical == Flatten(Values(rebuilt)[..k])
  {
    var full := Values(rebuilt);
    logical := [];
    for i := 0 to k
      invariant logical == Flatten(full[..i])
    {
      assert full[..i + 1] == full[..i] + [full[i]];
      FlattenAppend(full[..i], full[i]);
      logical := logical + rebuilt[i].value;
    }
  }

  /** Read's body for one stripe: gather its shards, rebuild what is lost, join the data shards. */
  method ReadStripe(disks: seq<Disk>, layout: Layout, code: Code, size: nat, s: nat) returns (r: Result<seq<byte>, Error>)
    requires Shape(disks, layout, size)
    ensures r == StripeData(disks, layout, code, size, s)
  {
    var n := |disks|;
    var rs := Gather(disks, layout, s);
    var shards := new Shard[n](i requires 0 <= i < n => rs[i]);
    assert shards[..] == rs;
    var err := ReconstructStripeShards(shards, code, ParityCount(layout));
    if err.Some? {
      return Err(ReconstructFailed(layout, s, err.value));
    }
    ghost var full := Reconstruct(rs, code, ParityCount(layout)).value;
    assert Values(shards[..]) == full;
    var logical := JoinDataShards(shards[..], DataShards(layout, n));
    return Ok(logical);
  }

  /** Read's scan for maxWrittenLogicalStripeIdx: the longest chunk list, less one. */
  method MaxWrittenStripe(disks: seq<Disk>) returns (m: int)
    ensures m == MaxChunks(disks) - 1
  {
    m := -1;
    for d := 0 to |disks|
      invariant m == MaxChunks(disks[..d]) - 1
    {
      assert disks[..d + 1][..d] == disks[..d];
      if |disks[d].data| - 1 > m {
        m := |disks[d].data| - 1;
      }
    }
    assert disks[..|disks|] == disks;
  }

  /**
   * One turn of Read's loop, at cursor cur of stripe s: the stripe gives its bytes sc .. ec,
   * where sc is the cursor's place in the stripe and ec the end of the stripe or of the
   * range, and the cursor moves to the next stripe or to the end.
   */
  lemma StripeStep(stripes: seq<Result<seq<byte>, Error>>, bps: nat, cur: nat, end: nat,
                   s: nat, lastByte: nat, last: nat, stripe: seq<byte>, sc: nat, ec: nat, next: nat)
    requires bps > 0 && StripesSized(stripes, bps) && end <= |stripes| * bps && cur < end
    requires s == cur / bps && sc == cur % bps && lastByte + 1 == end && last == lastByte / bps
    requires s < |stripes| && stripes[s] == Ok(stripe)
    requires ec == if last == s then lastByte % bps + 1 else bps
    requires next == if last == s then end else cur + bps - sc
    ensures sc < ec <= |stripe|
    ensures ReadFrom(stripes, bps, cur, end) == Prepend(stripe[sc..ec], ReadFrom(stripes, bps, next, end))
    ensures last != s ==> next < end && next / bps == s + 1 && next % bps == 0
  {
    StepBounds(bps, cur, end, s, sc, ec, next);
    assert Arith.Div(cur, bps) == s && Arith.Mod(cur, bps) == sc;
  }

  /** The arithmetic of one turn of Read's loop. */
  lemma StepBounds(bps: nat, cur: nat, end: nat, s: nat, sc: nat, ec: nat, next: nat)
    requires bps > 0 && cur < end && s == cur / bps && sc == cur % bps
    requires ec == if (end - 1) / bps == s then (end - 1) % bps + 1 else bps
    requires next == if (end - 1) / bps == s then end else cur + bps - sc
    ensures sc < ec <= bps
    ensures var n := if bps - sc < end - cur then bps - sc else end - cur;
      cur + n == next && sc + n == ec
    ensures (end - 1) / bps != s ==> next < end && next / bps == s + 1 && next % bps == 0
  {
    Arith.Euclid(cur, bps);
    Arith.Euclid(end - 1, bps);
    Arith.DivMono(cur, end - 1, bps);
    Arith.Distrib(s + 1, 1, bps);
    if (end - 1) / bps != s {
      Arith.MulMono(s + 1, (end - 1) / bps, bps);
      Arith.DivModUnique(next, bps, s + 1, 0);
    }
  }

  /** ReadStripe for a stripe whose result is already listed in stripes. */
  method ReadListed(disks: seq<Disk>, layout: Layout, code: Code, size: nat, ghost stripes: seq<Result<seq<byte>, Error>>, s: nat)
    returns (r: Result<seq<byte>, Error>)
    requires Shape(disks, layout, size) && s < |stripes|
    requires forall t {:trigger StripeData(disks, layout, code, size, t)} :: 0 <= t < |stripes| ==>
      stripes[t] == StripeData(disks, layout, code, size, t)
    ensures r == stripes[s]
  {
    r := ReadStripe(disks, layout, code, size, s);
  }

  /**
   * Read's copy out of one stripe's data: from startOffsetInFirstStripe in the first
   * stripe, up to and including endOffsetInLastStripe in the last, clamped to the data.
   */
  method CopyRange(data: seq<byte>, first: bool, last: bool, startOff: nat, endOff: nat) returns (piece: seq<byte>)
    requires startOff < |data| && endOff < |data|
    requires (if first then startOff else 0) < (if last then endOff + 1 else |data|)
    ensures piece == data[(if first then startOff else 0)..(if last then endOff + 1 else |data|)]
  {
    var sc: int := 0;
    var ec := |data|;
    if first {
      sc := startOff;
    }
    if last {
      ec := endOff + 1;
    }
    if sc < 0 {
      sc := 0;
    }
    if ec > |data| {
      ec := |data|;
    }
    piece := [];
    if sc < ec {
      piece := data[sc..ec];
    }
  }

  /**
   * Read's loop over stripes start / bps .. (start + length - 1) / bps, copying from
   * start mod bps in the first stripe and up to (start + length - 1) mod bps in the last.
   */
  method ReadStripes(disks: seq<Disk>, layout: Layout, code: Code, size: nat, ghost stripes: seq<Result<seq<byte>, Error>>,
                     start: nat, length: nat)
    returns (r: Result<seq<byte>, Error>)
    requires Shape(disks, layout, size) && length > 0
    requires StripesSized(stripes, StripeBytes(layout, |disks|, size))
    requires forall s {:trigger StripeData(disks, layout, code, size, s)} :: 0 <= s < |stripes| ==>
      stripes[s] == StripeData(disks, layout, code, size, s)
    requires start + length <= |stripes| * StripeBytes(layout, |disks|, size)
    ensures r == ReadFrom(stripes, StripeBytes(layout, |disks|, size), start, start + length)
  {
    var bps := StripeBytes(layout, |disks|, size);
    var startStripe := Arith.Div(start, bps);
    var endStripe := Arith.Div(start + length - 1, bps);
    var startOff := Arith.Mod(start, bps);
    var endOff := Arith.Mod(start + length - 1, bps);
    ghost var end: nat := start + length;
    ghost var cur: nat := start;
    Arith.DivMono(start, start + length - 1, bps);
    Arith.DivLess(start + length - 1, bps, |stripes|);
    PrependEmpty(ReadFrom(stripes, bps, start, end));
    var result: seq<byte> := [];
    var s := startStripe;
    while s <= endStripe
      invariant startStripe <= s <= endStripe + 1
      invariant ReadFrom(stripes, bps, start, end) == Prepend(result, ReadFrom(stripes, bps, cur, end))
      invariant s <= endStripe ==> cur < end && cur / bps == s && cur % bps == if s == startStripe then startOff else 0
      invariant s == endStripe + 1 ==> cur == end
      decreases endStripe + 1 - s
    {
      var stripe := ReadListed(disks, layout, code, size, stripes, s);
      if stripe.Err? {
        assert ReadFrom(stripes, bps, cur, end) == Err(stripe.error);
        return Err(stripe.error);
      }
      var data := stripe.value;
      ghost var sc: nat := if s == startStripe then startOff else 0;
      ghost var ec: nat := if s == endStripe then endOff + 1 else bps;
      ghost var next: nat := if s == endStripe then end else cur + bps - sc;
      StripeStep(stripes, bps, cur, end, s, start + length - 1, endStripe, data, sc, ec, next);
      var piece := CopyRange(data, s == startStripe, s == endStripe, startOff, endOff);
      PrependTwice(result, piece, ReadFrom(stripes, bps, next, end));
      result := result + piece;
      cur := next;
      s := s + 1;
    }
    assert result + [] == result;
    assert ReadFrom(stripes, bps, cur, end) == Ok([]);
    assert ReadFrom(stripes, bps, start, end) == Ok(result);
    assert |result| == length;
    if |result| > length {
      result := Take(result, length);
    }
    return Ok(result);
  }

  /**
   * handlePartialWrite on the disks' values: refill every disk up to the target stripe,
   * gather and rebuild its shards (the rebuild has nothing to do and cannot fail, since the
   * refill left no chunk missing), overlay the new bytes, re-encode and write back.
   */
  method ReadModifyWrite(disks: seq<Disk>, layout: Layout, code: Code, size: nat, data: seq<byte>,
                         partialOffset: nat, remaining: nat, target: nat, offset: int)
    returns (r: seq<Disk>)
    requires Shape(disks, layout, size) && partialOffset + remaining <= |data|
    requires offset + partialOffset >= 0
    requires (offset + partialOffset) % StripeBytes(layout, |disks|, size) + remaining <= StripeBytes(layout, |disks|, size)
    ensures r == PartialWrite(disks, layout, code, size, data[partialOffset..partialOffset + remaining], target,
                              (offset + partialOffset) % StripeBytes(layout, |disks|, size))
  {
    var n := |disks|;
    var bps := StripeBytes(layout, n, size);
    var grown := RefillDisks(disks, target, size);
    RefillPresent(disks, layout, size, target);
    var rs := Gather(grown, layout, target);
    var shards := new Shard[n](i requires 0 <= i < n => rs[i]);
    assert shards[..] == rs;
    var err := ReconstructStripeShards(shards, code, ParityCount(layout));
    assert err.None? && Values(shards[..]) == Values(rs);
    var buffer := JoinDataShards(shards[..], DataShards(layout, n));
    assert buffer == RefilledBuffer(disks, layout, size, target);
    var startInStripe := (offset + partialOffset) % bps;
    buffer := Overlay(buffer, startInStripe, data[partialOffset..partialOffset + remaining]);
    var newShards := Encode(grown, layout, code, size, buffer);
    r := Store(grown, layout, size, target, newShards);
  }

  /** One turn of Write's loop: encode one full stripe of input and store it as stripe s. */
  method WriteStripe(disks: seq<Disk>, layout: Layout, code: Code, size: nat, input: seq<byte>, s: nat)
    returns (r: seq<Disk>)
    requires Shape(disks, layout, size)
    ensures r == PlaceStripe(disks, layout, size, s, Encode(disks, layout, code, size, input))
  {
    var shards := EncodeStripeShards(input, size, code, DataShards(layout, |disks|), ParityCount(layout));
    r := Store(disks, layout, size, s, shards);
  }

  /** Write's loop takes one more full stripe: the next bps bytes of data, stored as stripe base + i. */
  lemma FullStripesNext(disks: seq<Disk>, layout: Layout, code: Code, size: nat, data: seq<byte>, base: int,
                        bps: nat, i: nat, n: nat, s: nat)
    requires Shape(disks, layout, size) && bps == StripeBytes(layout, |disks|, size)
    requires i < |data| / bps && base >= 0 && s == base + i && n == i + 1
    ensures var prev := FullStripes(disks, layout, code, size, data, base, i);
      FullStripes(disks, layout, code, size, data, base, n)
        == PlaceStripe(prev, layout, size, s, Encode(prev, layout, code, size, StripeSlice(data, bps, i)))
  {
  }

  /** Full stripe i of data starts at byte cur = i * bps, and the next one bps bytes later. */
  lemma SliceAt(data: seq<byte>, bps: nat, i: nat, cur: nat)
    requires bps > 0 && i < |data| / bps && cur == i * bps
    ensures cur + bps <= |data| && cur + bps == (i + 1) * bps
    ensures StripeSlice(data, bps, i) == data[cur..cur + bps]
  {
    Arith.MulBelow(i + 1, |data|, bps);
    Arith.Distrib(i + 1, 1, bps);
  }

  /** One turn of Write's loop on the disks after i full stripes: they now hold i + 1. */
  method WriteNextStripe(disks: seq<Disk>, layout: Layout, code: Code, size: nat, data: seq<byte>, ghost base: int,
                         bps: nat, i: nat, cur: nat, full: nat, s: nat, prev: seq<Disk>)
    returns (r: seq<Disk>)
    requires Shape(disks, layout, size) && bps == StripeBytes(layout, |disks|, size)
    requires i < full && full == |data| / bps && base >= 0 && cur == i * bps && s == base + i
    requires prev == FullStripes(disks, layout, code, size, data, base, i)
    ensures cur + bps <= |data| && cur + bps == (i + 1) * bps
    ensures r == FullStripes(disks, layout, code, size, data, base, i + 1)
  {
    FullStripesNext(disks, layout, code, size, data, base, bps, i, i + 1, s);
    SliceAt(data, bps, i, cur);
    r := WriteStripe(prev, layout, code, size, data[cur..cur + bps], s);
  }

  /**
   * Write(data, offset) on the disks' values: each full stripe of data is encoded and stored
   * as stripe offset / bps + i (Go's truncating division), and the remaining bytes go through
   * read-modify-write into the stripe of offset + (full stripes) * bps.
   */
  method WriteArray(disks: seq<Disk>, layout: Layout, code: Code, size: nat, data: seq<byte>, offset: int)
    returns (r: seq<Disk>)
    requires Shape(disks, layout, size) && WriteDefined(StripeBytes(layout, |disks|, size), |data|, offset)
    ensures r == WriteResult(disks, layout, code, size, data, offset)
  {
    r := WriteFullStripes(disks, layout, code, size, data, offset);
    r := WriteRemainder(r, layout, code, size, data, offset);
  }

  /** Write's loop: full stripe i of data is encoded and stored as stripe offset / bps + i. */
  method WriteFullStripes(disks: seq<Disk>, layout: Layout, code: Code, size: nat, data: seq<byte>, offset: int)
    returns (r: seq<Disk>)
    requires Shape(disks, layout, size) && StripeBytes(layout, |disks|, size) > 0
    requires |data| / StripeBytes(layout, |disks|, size) > 0 ==> GoInt.Quo(offset, StripeBytes(layout, |disks|, size)) >= 0
    ensures var bps := StripeBytes(layout, |disks|, size);
      r == FullStripes(disks, layout, code, size, data, FirstStripe(bps, |data|, offset), |data| / bps)
  {
    var bps := size * DataShards(layout, |disks|);
    var full := |data| / bps;
    ghost var base := FirstStripe(bps, |data|, offset);
    var cur := 0;
    r := disks;
    for i := 0 to full
      invariant cur == i * bps
      invariant r == FullStripes(disks, layout, code, size, data, base, i)
    {
      var s := GoInt.Quo(offset, bps) + i;
      assert s == base + i;
      r := WriteNextStripe(disks, layout, code, size, data, base, bps, i, cur, full, s, r);
      cur := cur + bps;
    }
  }


  /** The end of Write: bytes left after the full stripes go through read-modify-write, if there are any. */
  method WriteRemainder(disks: seq<Disk>, layout: Layout, code: Code, size: nat, data: seq<byte>, offset: int)
    returns (r: seq<Disk>)
    requires Shape(disks, layout, size) && WriteDefined(StripeBytes(layout, |disks|, size), |data|, offset)
    ensures r == WriteTail(disks, layout, code, size, data, offset)
  {
    var bps := size * DataShards(layout, |disks|);
    var remaining := |data| % bps;
    r := disks;
    if remaining > 0 {
      var partialOffset := TailStart(|data|, bps);
      var target := GoInt.Quo(offset + partialOffset, bps);
      GoInt.QuoRemNonNegative(offset + partialOffset, bps);
      assert target == TailStripe(bps, |data|, offset);
      assert data[partialOffset..partialOffset + remaining] == data[partialOffset..];
      r := ReadModifyWrite(disks, layout, code, size, data, partialOffset, remaining, target, offset);
      WriteTailIs(disks, layout, code, size, data, offset, data[partialOffset..partialOffset + remaining], target,
                  (offset + partialOffset) % StripeBytes(layout, |disks|, size));
    }
  }


  /**
   * Read(start, length) on the disks' values: negative arguments, an array with nothing
   * written and a start past the stored total are refused; the range is cut at the stored
   * total and read stripe by stripe.
   */
  method ReadArray(disks: seq<Disk>, layout: Layout, code: Code, size: nat, start: int, length: int)
    returns (r: Result<seq<byte>, Error>)
    requires Shape(disks, layout, size)
    ensures r == ReadResult(disks, layout, code, size, start, length)
  {
    if start < 0 || length < 0 {
      return Err(NegativeRange);
    }
    var maxIdx, total := StoredTotal(disks, layout, size);
    if maxIdx == -1 {
      return Err(NothingWritten);
    }
    if start >= total {
      return Err(StartBeyondData(start, total));
    }
    var len := length;
    if start + len > total {
      len := total - start;
    }
    if len <= 0 {
      return Ok([]);
    }
    r := ReadStoredRange(disks, layout, code, size, start, len);
  }

  /** Read's scan for the highest stripe index on any disk, and the byte count of the stripes up to it. */
  method StoredTotal(disks: seq<Disk>, layout: Layout, size: nat) returns (maxIdx: int, total: nat)
    requires Shape(disks, layout, size)
    ensures maxIdx == MaxChunks(disks) - 1 && total == StoredBytes(disks, layout, size)
  {
    var bps := size * DataShards(layout, |disks|);
    maxIdx := MaxWrittenStripe(disks);
    total := (maxIdx + 1) * bps;
  }

  /** Read's stripe loop over the stored stripes, for a range of len > 0 bytes inside them. */
  method ReadStoredRange(disks: seq<Disk>, layout: Layout, code: Code, size: nat, start: nat, len: nat)
    returns (r: Result<seq<byte>, Error>)
    requires Shape(disks, layout, size) && len > 0 && start + len <= StoredBytes(disks, layout, size)
    ensures r == ReadStored(disks, layout, code, size, start, start + len)
  {
    ghost var stripes := StripeList(disks, layout, code, size, MaxChunks(disks));
    StripeListItems(disks, layout, code, size, MaxChunks(disks));
    r := ReadStripes(disks, layout, code, size, stripes, start, len);
  }

}
