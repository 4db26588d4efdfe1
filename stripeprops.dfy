/**
 * What the RAID5 and RAID6 write and read paths guarantee: where a stored stripe's shards
 * end up, what a write leaves in each stripe, that a read at a stripe-aligned offset gives
 * back what was written, and how reads behave with lost disks.
 */
module StripeProps {
  import opened Wrappers
  import opened Bytes
  import opened Base
  import opened RsUtil
  import opened Stripes
  import Arith

  // -------------------------------------------------------------- one stripe

  /** Every disk holds chunk s. */
  ghost predicate Holds(disks: seq<Disk>, s: nat)
  {
    forall d :: 0 <= d < |disks| ==> s < |disks[d].data|
  }

  /** Storing a stripe puts codeword position i on disk DiskOf(i), where Read looks for it. */
  lemma PlacedShards(disks: seq<Disk>, layout: Layout, size: nat, s: nat, shards: seq<seq<byte>>)
    requires Shape(disks, layout, size) && |shards| == |disks| && Uniform(shards, size)
    ensures Shards(PlaceStripe(disks, layout, size, s, shards), layout, s) == AsShards(shards)
    ensures Holds(PlaceStripe(disks, layout, size, s, shards), s)
  {
    var r := PlaceStripe(disks, layout, size, s, shards);
    var n := |disks|;
    ShardDiskInverse(layout, n, s);
    forall i | 0 <= i < n
      ensures Shards(r, layout, s)[i] == AsShards(shards)[i]
    {
      var d := DiskOf(layout, n, s, i);
      PlaceStripeChunks(disks, layout, size, s, shards, d, s);
    }
    forall d | 0 <= d < n
      ensures s < |r[d].data|
    {
      PlaceStripeChunks(disks, layout, size, s, shards, d, s);
    }
  }

  /** Storing stripe s leaves every chunk c != s that a disk already had as it was. */
  lemma PlaceKeeps(disks: seq<Disk>, layout: Layout, size: nat, s: nat, shards: seq<seq<byte>>, c: nat)
    requires |shards| == |disks| && c != s
    ensures var r := PlaceStripe(disks, layout, size, s, shards);
      forall d :: 0 <= d < |disks| && c < |disks[d].data| ==> c < |r[d].data| && r[d].data[c] == disks[d].data[c]
    ensures Holds(disks, c) ==>
      (Holds(PlaceStripe(disks, layout, size, s, shards), c)
       && Shards(PlaceStripe(disks, layout, size, s, shards), layout, c) == Shards(disks, layout, c))
  {
    var r := PlaceStripe(disks, layout, size, s, shards);
    forall d | 0 <= d < |disks| && c < |disks[d].data|
      ensures c < |r[d].data| && r[d].data[c] == disks[d].data[c]
    {
      PlaceStripeChunks(disks, layout, size, s, shards, d, c);
    }
  }

  /** A stripe whose shards are all present is read as its data shards, laid end to end. */
  lemma CompleteStripe(disks: seq<Disk>, layout: Layout, code: Code, size: nat, s: nat, w: seq<seq<byte>>)
    requires Shape(disks, layout, size) && Shards(disks, layout, s) == AsShards(w)
    ensures StripeData(disks, layout, code, size, s) == Ok(Flatten(w[..DataShards(layout, |disks|)]))
  {
    var shards := AsShards(w);
    assert forall i :: 0 <= i < |shards| ==> shards[i].Some?;
    assert Values(shards) == w;
  }

  /** A stripe whose shards are the encoding of bps bytes is read as those bytes. */
  lemma EncodedShards(disks: seq<Disk>, layout: Layout, code: Code, size: nat, s: nat, input: seq<byte>)
    requires Shape(disks, layout, size) && |input| == StripeBytes(layout, |disks|, size)
    requires Shards(disks, layout, s) == AsShards(Encode(disks, layout, code, size, input))
    ensures StripeData(disks, layout, code, size, s) == Ok(input)
  {
    var k := DataShards(layout, |disks|);
    CompleteStripe(disks, layout, code, size, s, Encode(disks, layout, code, size, input));
    SplitFlatten(input, size, k);
    assert input + Zeros(0) == input;
  }

  /** Encoding bps bytes and storing them as stripe s: reading stripe s gives back those bytes. */
  lemma EncodedStripe(disks: seq<Disk>, layout: Layout, code: Code, size: nat, s: nat, input: seq<byte>)
    requires Shape(disks, layout, size) && |input| == StripeBytes(layout, |disks|, size)
    ensures var shards := Encode(disks, layout, code, size, input);
      Shape(PlaceStripe(disks, layout, size, s, shards), layout, size)
      && StripeData(PlaceStripe(disks, layout, size, s, shards), layout, code, size, s) == Ok(input)
  {
    var shards := Encode(disks, layout, code, size, input);
    var r := PlaceStripe(disks, layout, size, s, shards);
    PlaceStripeShape(disks, layout, size, s, shards);
    PlacedShards(disks, layout, size, s, shards);
    EncodeWidth(r, disks, layout, code, size, input);
    EncodedShards(r, layout, code, size, s, input);
  }

  /** Encoding depends on the array only through its layout and width. */
  lemma EncodeWidth(a: seq<Disk>, b: seq<Disk>, layout: Layout, code: Code, size: nat, input: seq<byte>)
    requires Shape(a, layout, size) && Shape(b, layout, size) && |a| == |b|
    ensures Encode(a, layout, code, size, input) == Encode(b, layout, code, size, input)
  {
  }

  /** Storing the encoding of piece as stripe s of prev, an array as wide as disks. */
  lemma PlacedEncoding(disks: seq<Disk>, prev: seq<Disk>, layout: Layout, code: Code, size: nat, s: nat, piece: seq<byte>)
    requires Shape(disks, layout, size) && Shape(prev, layout, size) && |prev| == |disks|
    ensures var r := PlaceStripe(prev, layout, size, s, Encode(prev, layout, code, size, piece));
      Holds(r, s) && Shards(r, layout, s) == AsShards(Encode(disks, layout, code, size, piece))
  {
    EncodeWidth(prev, disks, layout, code, size, piece);
    PlacedShards(prev, layout, size, s, Encode(prev, layout, code, size, piece));
  }

  /** Two arrays of the same width with the same shards for stripe s read the same stripe s. */
  lemma SameShardsSameStripe(a: seq<Disk>, b: seq<Disk>, layout: Layout, code: Code, size: nat, s: nat)
    requires Shape(a, layout, size) && Shape(b, layout, size) && |a| == |b|
    requires Shards(a, layout, s) == Shards(b, layout, s)
    ensures StripeData(a, layout, code, size, s) == StripeData(b, layout, code, size, s)
  {
  }

  // -------------------------------------------------------------- Write

  /** The arguments with which FullStripes runs count turns of Write's loop. */
  ghost predicate Turns(disks: seq<Disk>, layout: Layout, size: nat, data: seq<byte>, base: int, count: nat)
  {
    Shape(disks, layout, size) && count <= |data| / StripeBytes(layout, |disks|, size) && (count == 0 || base >= 0)
  }

  /** Write's loop leaves every chunk outside the stripes it stores as it was. */
  lemma {:induction false} ChunkKept(disks: seq<Disk>, layout: Layout, code: Code, size: nat,
                                     data: seq<byte>, base: int, count: nat, d: nat, c: nat)
    requires Turns(disks, layout, size, data, base, count)
    requires d < |disks| && c < |disks[d].data| && !(base <= c < base + count)
    ensures var r := FullStripes(disks, layout, code, size, data, base, count);
      c < |r[d].data| && r[d].data[c] == disks[d].data[c]
    decreases count
  {
    if count > 0 {
      var i := count - 1;
      var bps := StripeBytes(layout, |disks|, size);
      var prev := FullStripes(disks, layout, code, size, data, base, i);
      FullStripesNext(disks, layout, code, size, data, base, bps, i, count, base + i);
      ChunkKept(disks, layout, code, size, data, base, i, d, c);
      PlaceKeeps(prev, layout, size, base + i, Encode(prev, layout, code, size, StripeSlice(data, bps, i)), c);
    }
  }

  /** After Write's loop, stripe base + i holds the encoding of full stripe i of data on every disk. */
  lemma {:induction false} StripeShards(disks: seq<Disk>, layout: Layout, code: Code, size: nat,
                                        data: seq<byte>, base: int, count: nat, t: nat)
    requires Turns(disks, layout, size, data, base, count) && base <= t < base + count
    ensures var r := FullStripes(disks, layout, code, size, data, base, count);
      Holds(r, t)
      && Shards(r, layout, t) == AsShards(Encode(disks, layout, code, size, StripeSlice(data, StripeBytes(layout, |disks|, size), t - base)))
    decreases count
  {
    var i := count - 1;
    var bps := StripeBytes(layout, |disks|, size);
    var s := base + i;
    var prev := FullStripes(disks, layout, code, size, data, base, i);
    FullStripesNext(disks, layout, code, size, data, base, bps, i, count, s);
    var shards := Encode(prev, layout, code, size, StripeSlice(data, bps, i));
    if t == s {
      PlacedEncoding(disks, prev, layout, code, size, s, StripeSlice(data, bps, i));
    } else {
      StripeShards(disks, layout, code, size, data, base, i, t);
      PlaceKeeps(prev, layout, size, s, shards, t);
    }
  }

  /** After Write's loop, reading stripe base + i gives full stripe i of data. */
  lemma FullStripesContent(disks: seq<Disk>, layout: Layout, code: Code, size: nat,
                           data: seq<byte>, base: int, count: nat, t: nat)
    requires Turns(disks, layout, size, data, base, count) && base <= t < base + count
    ensures var r := FullStripes(disks, layout, code, size, data, base, count);
      Holds(r, t)
      && StripeData(r, layout, code, size, t) == Ok(StripeSlice(data, StripeBytes(layout, |disks|, size), t - base))
  {
    var r := FullStripes(disks, layout, code, size, data, base, count);
    var piece := StripeSlice(data, StripeBytes(layout, |disks|, size), t - base);
    StripeShards(disks, layout, code, size, data, base, count, t);
    assert Shards(r, layout, t) == AsShards(Encode(disks, layout, code, size, piece));
    EncodeWidth(r, disks, layout, code, size, piece);
    EncodedShards(r, layout, code, size, t, piece);
  }

  // -------------------------------------------------------------- read-modify-write

  /**
   * The refill keeps every chunk a disk had and appends zero chunks, so afterwards every disk
   * holds chunk s: a cleared disk comes back holding zeros.
   */
  lemma RefillChunks(disks: seq<Disk>, s: nat, size: nat, d: nat, c: nat)
    requires d < |disks|
    ensures var r := Refill(disks, s, size);
      && s < |r[d].data| && |disks[d].data| <= |r[d].data|
      && (c < |r[d].data| ==> r[d].data[c] == if c < |disks[d].data| then disks[d].data[c] else Zeros(size))
  {
  }

  /** A partial write of stripe target leaves every other stripe that all disks held as it was. */
  lemma PartialWriteKeeps(disks: seq<Disk>, layout: Layout, code: Code, size: nat, piece: seq<byte>,
                          target: nat, pos: nat, t: nat)
    requires Shape(disks, layout, size) && pos + |piece| <= StripeBytes(layout, |disks|, size)
    requires t != target && Holds(disks, t)
    ensures var r := PartialWrite(disks, layout, code, size, piece, target, pos);
      Holds(r, t) && Shards(r, layout, t) == Shards(disks, layout, t)
    ensures var r := PartialWrite(disks, layout, code, size, piece, target, pos);
      StripeData(r, layout, code, size, t) == StripeData(disks, layout, code, size, t)
  {
    var grown := Refill(disks, target, size);
    RefillPresent(disks, layout, size, target);
    var shards := Encode(grown, layout, code, size, Overlay(RefilledBuffer(disks, layout, size, target), pos, piece));
    forall d | 0 <= d < |disks|
      ensures t < |grown[d].data| && grown[d].data[t] == disks[d].data[t]
    {
      RefillChunks(disks, target, size, d, t);
    }
    assert Shards(grown, layout, t) == Shards(disks, layout, t);
    PlaceKeeps(grown, layout, size, target, shards, t);
    SameShardsSameStripe(PartialWrite(disks, layout, code, size, piece, target, pos), disks, layout, code, size, t);
  }

  /**
   * A partial write of piece at pos of stripe target: the stripe now reads as the RMW buffer
   * (its data after the refill) with piece laid over it at pos, and every disk holds it.
   */
  lemma PartialWriteStripe(disks: seq<Disk>, layout: Layout, code: Code, size: nat, piece: seq<byte>,
                           target: nat, pos: nat)
    requires Shape(disks, layout, size) && pos + |piece| <= StripeBytes(layout, |disks|, size)
    ensures var r := PartialWrite(disks, layout, code, size, piece, target, pos);
      && Holds(r, target)
      && StripeData(r, layout, code, size, target) == Ok(Overlay(RefilledBuffer(disks, layout, size, target), pos, piece))
  {
    var grown := Refill(disks, target, size);
    RefillPresent(disks, layout, size, target);
    var updated := Overlay(RefilledBuffer(disks, layout, size, target), pos, piece);
    var r := PartialWrite(disks, layout, code, size, piece, target, pos);
    PlacedEncoding(grown, grown, layout, code, size, target, updated);
    EncodeWidth(r, grown, layout, code, size, updated);
    EncodedShards(r, layout, code, size, target, updated);
  }

  /** When every disk already held a readable chunk target, the RMW buffer is the stripe's current data. */
  lemma RefilledBufferPresent(disks: seq<Disk>, layout: Layout, code: Code, size: nat, target: nat)
    requires Shape(disks, layout, size) && Holds(disks, target)
    ensures StripeData(disks, layout, code, size, target) == Ok(RefilledBuffer(disks, layout, size, target))
  {
    var grown := Refill(disks, target, size);
    RefillPresent(disks, layout, size, target);
    forall d | 0 <= d < |disks|
      ensures grown[d].data[target] == disks[d].data[target]
    {
      RefillChunks(disks, target, size, d, target);
    }
    assert Shards(grown, layout, target) == Shards(disks, layout, target);
    var w := Values(Shards(disks, layout, target));
    assert AsShards(w) == Shards(disks, layout, target);
    CompleteStripe(disks, layout, code, size, target, w);
  }

  // -------------------------------------------------------------- Read

  /** The byte Read's loop finds for logical offset o: byte o mod bps of stripe o / bps, if it was rebuilt. */
  function ListByte(stripes: seq<Result<seq<byte>, Error>>, bps: nat, o: nat): Option<byte>
    requires bps > 0 && StripesSized(stripes, bps)
  {
    var q := Arith.Div(o, bps);
    if q < |stripes| && stripes[q].Ok? then Some(stripes[q].value[Arith.Mod(o, bps)]) else None
  }

  /** The bytes [cur, cur + n) of one stripe, which starts at cur - pos. */
  lemma PieceBytes(stripes: seq<Result<seq<byte>, Error>>, bps: nat, cur: nat, n: nat, q: nat, pos: nat)
    requires bps > 0 && StripesSized(stripes, bps) && q < |stripes| && stripes[q].Ok?
    requires q == cur / bps && pos == cur % bps && pos + n <= bps
    ensures forall o :: cur <= o < cur + n ==> ListByte(stripes, bps, o) == Some(stripes[q].value[pos + (o - cur)])
  {
    forall o | cur <= o < cur + n
      ensures ListByte(stripes, bps, o) == Some(stripes[q].value[pos + (o - cur)])
    {
      Arith.Euclid(cur, bps);
      Arith.DivModUnique(o, bps, q, pos + (o - cur));
    }
  }

  /** Read's loop over [cur, end) succeeds exactly when every stripe it touches was rebuilt. */
  lemma {:induction false} ReadFromOk(stripes: seq<Result<seq<byte>, Error>>, bps: nat, cur: nat, end: nat)
    requires bps > 0 && StripesSized(stripes, bps) && end <= |stripes| * bps
    ensures ReadFrom(stripes, bps, cur, end).Ok? <==> forall o :: cur <= o < end ==> ListByte(stripes, bps, o).Some?
    decreases end - cur
  {
    if cur < end {
      Arith.DivLess(cur, bps, |stripes|);
      var q, pos := cur / bps, cur % bps;
      if stripes[q].Err? {
        assert ListByte(stripes, bps, cur).None?;
      } else {
        var n := if bps - pos < end - cur then bps - pos else end - cur;
        ReadFromOk(stripes, bps, cur + n, end);
        PieceBytes(stripes, bps, cur, n, q, pos);
      }
    }
  }

  /** When Read's loop over [cur, end) succeeds, byte i of its result is the byte found for offset cur + i. */
  lemma {:induction false} ReadFromBytes(stripes: seq<Result<seq<byte>, Error>>, bps: nat, cur: nat, end: nat)
    requires bps > 0 && StripesSized(stripes, bps) && end <= |stripes| * bps
    requires ReadFrom(stripes, bps, cur, end).Ok?
    ensures forall i :: 0 <= i < end - cur ==> ListByte(stripes, bps, cur + i) == Some(ReadFrom(stripes, bps, cur, end).value[i])
    decreases end - cur
  {
    if cur < end {
      Arith.DivLess(cur, bps, |stripes|);
      var q, pos := cur / bps, cur % bps;
      var n := if bps - pos < end - cur then bps - pos else end - cur;
      var r, rest := ReadFrom(stripes, bps, cur, end), ReadFrom(stripes, bps, cur + n, end);
      ReadFromBytes(stripes, bps, cur + n, end);
      PieceBytes(stripes, bps, cur, n, q, pos);
      forall i | 0 <= i < end - cur
        ensures ListByte(stripes, bps, cur + i) == Some(r.value[i])
      {
        if i >= n {
          assert ListByte(stripes, bps, (cur + n) + (i - n)) == Some(rest.value[i - n]);
        }
      }
    }
  }

  /**
   * When Read's loop over [cur, end) fails, its error is that of the first stripe in the range
   * that could not be rebuilt, the stripe of offset o.
   */
  lemma {:induction false} ReadFromError(stripes: seq<Result<seq<byte>, Error>>, bps: nat, cur: nat, end: nat) returns (o: nat)
    requires bps > 0 && StripesSized(stripes, bps) && end <= |stripes| * bps
    requires ReadFrom(stripes, bps, cur, end).Err?
    ensures cur <= o < end && o / bps < |stripes| && stripes[o / bps].Err?
    ensures ReadFrom(stripes, bps, cur, end).error == stripes[o / bps].error
    ensures forall x :: cur <= x < o ==> ListByte(stripes, bps, x).Some?
    decreases end - cur
  {
    Arith.DivLess(cur, bps, |stripes|);
    var q, pos := cur / bps, cur % bps;
    if stripes[q].Err? {
      o := cur;
    } else {
      var n := if bps - pos < end - cur then bps - pos else end - cur;
      o := ReadFromError(stripes, bps, cur + n, end);
      PieceBytes(stripes, bps, cur, n, q, pos);
    }
  }

  /** Below the stored total, the stripe list Read builds shows the array's own bytes. */
  lemma ListByteIs(disks: seq<Disk>, layout: Layout, code: Code, size: nat, o: nat)
    requires Shape(disks, layout, size) && o < StoredBytes(disks, layout, size)
    ensures ListByte(StripeList(disks, layout, code, size, MaxChunks(disks)), StripeBytes(layout, |disks|, size), o)
      == StripeByte(disks, layout, code, size, o)
  {
    var bps := StripeBytes(layout, |disks|, size);
    Arith.DivLess(o, bps, MaxChunks(disks));
    StripeListItems(disks, layout, code, size, MaxChunks(disks));
    assert StripeList(disks, layout, code, size, MaxChunks(disks))[Arith.Div(o, bps)]
      == StripeData(disks, layout, code, size, Arith.Div(o, bps));
  }

  /** Reading [start, end) of the stored stripes: it succeeds exactly when each of its bytes can be rebuilt, and gives those bytes. */
  lemma ReadStoredBytes(disks: seq<Disk>, layout: Layout, code: Code, size: nat, start: nat, end: nat)
    requires Shape(disks, layout, size) && start <= end <= StoredBytes(disks, layout, size)
    ensures ReadStored(disks, layout, code, size, start, end).Ok?
      <==> forall o :: start <= o < end ==> StripeByte(disks, layout, code, size, o).Some?
    ensures ReadStored(disks, layout, code, size, start, end).Ok? ==>
      forall i :: 0 <= i < end - start ==>
        StripeByte(disks, layout, code, size, start + i) == Some(ReadStored(disks, layout, code, size, start, end).value[i])
  {
    var stripes := StripeList(disks, layout, code, size, MaxChunks(disks));
    var bps := StripeBytes(layout, |disks|, size);
    forall o | start <= o < end
      ensures ListByte(stripes, bps, o) == StripeByte(disks, layout, code, size, o)
    {
      ListByteIs(disks, layout, code, size, o);
    }
    ReadFromOk(stripes, bps, start, end);
    if ReadFrom(stripes, bps, start, end).Ok? {
      ReadFromBytes(stripes, bps, start, end);
      forall i | 0 <= i < end - start
        ensures StripeByte(disks, layout, code, size, start + i) == Some(ReadStored(disks, layout, code, size, start, end).value[i])
      {
        assert ListByte(stripes, bps, start + i) == StripeByte(disks, layout, code, size, start + i);
      }
    }
  }

  /**
   * Read(start, length) with start inside the stored total reads up to the stored total: it
   * succeeds exactly when every byte of that range can be rebuilt, and then gives those bytes.
   */
  lemma ReadInRange(disks: seq<Disk>, layout: Layout, code: Code, size: nat, start: nat, length: nat)
    requires Shape(disks, layout, size) && start < StoredBytes(disks, layout, size)
    ensures var stored := StoredBytes(disks, layout, size);
      var end := if start + length > stored then stored else start + length;
      var r := ReadResult(disks, layout, code, size, start, length);
      && (r.Ok? <==> forall o :: start <= o < end ==> StripeByte(disks, layout, code, size, o).Some?)
      && (r.Ok? ==> |r.value| == end - start
                    && forall i :: 0 <= i < end - start ==> StripeByte(disks, layout, code, size, start + i) == Some(r.value[i]))
  {
    var stored := StoredBytes(disks, layout, size);
    var end := if start + length > stored then stored else start + length;
    if end > start {
      ReadStoredBytes(disks, layout, code, size, start, end);
    }
  }

  // -------------------------------------------------------------- Write, then Read

  /** The partial last stripe of Write leaves every other stripe that all disks held as it was. */
  lemma TailKeeps(disks: seq<Disk>, layout: Layout, code: Code, size: nat, data: seq<byte>, offset: int, t: nat)
    requires Shape(disks, layout, size) && WriteDefined(StripeBytes(layout, |disks|, size), |data|, offset)
    requires Holds(disks, t)
    requires |data| % StripeBytes(layout, |disks|, size) > 0 ==> t != TailStripe(StripeBytes(layout, |disks|, size), |data|, offset)
    ensures Holds(WriteTail(disks, layout, code, size, data, offset), t)
    ensures StripeData(WriteTail(disks, layout, code, size, data, offset), layout, code, size, t)
      == StripeData(disks, layout, code, size, t)
  {
    var bps := StripeBytes(layout, |disks|, size);
    if |data| % bps > 0 {
      PartialWriteKeeps(disks, layout, code, size, data[TailStart(|data|, bps)..],
                        TailStripe(bps, |data|, offset), TailPos(bps, |data|, offset), t);
    }
  }

  /** Byte j of the remaining bytes of Write lands in the tail stripe, TailPos + (j - partialOffset) bytes in. */
  lemma TailPlace(bps: nat, len: nat, offset: int, j: nat)
    requires WriteDefined(bps, len, offset) && len % bps > 0 && TailStart(len, bps) <= j < len
    ensures offset + j >= 0
    ensures (offset + j) / bps == TailStripe(bps, len, offset)
    ensures (offset + j) % bps == TailPos(bps, len, offset) + (j - TailStart(len, bps))
  {
    var at := offset + TailStart(len, bps);
    Arith.Euclid(at, bps);
    Arith.DivModUnique(offset + j, bps, at / bps, at % bps + (j - TailStart(len, bps)));
  }

  /** Logical byte o = q * bps + pos, when stripe q can be rebuilt, is byte pos of that stripe. */
  lemma StripeByteIs(disks: seq<Disk>, layout: Layout, code: Code, size: nat, o: nat, q: nat, pos: nat)
    requires Shape(disks, layout, size)
    requires o / StripeBytes(layout, |disks|, size) == q && o % StripeBytes(layout, |disks|, size) == pos
    requires StripeData(disks, layout, code, size, q).Ok?
    ensures pos < |StripeData(disks, layout, code, size, q).value|
    ensures StripeByte(disks, layout, code, size, o) == Some(StripeData(disks, layout, code, size, q).value[pos])
  {
  }

  /**
   * The partial last stripe of Write reads as the RMW buffer with the remaining bytes laid
   * over it (n is the array's width, passed on so that callers need not unfold it).
   */
  lemma TailContent(disks: seq<Disk>, layout: Layout, code: Code, size: nat, data: seq<byte>, offset: int, n: nat)
    requires Shape(disks, layout, size) && n == |disks| && WriteDefined(StripeBytes(layout, n, size), |data|, offset)
    requires |data| % StripeBytes(layout, n, size) > 0
    ensures Holds(WriteTail(disks, layout, code, size, data, offset), TailStripe(StripeBytes(layout, n, size), |data|, offset))
    ensures StripeData(WriteTail(disks, layout, code, size, data, offset), layout, code, size, TailStripe(StripeBytes(layout, n, size), |data|, offset))
      == Ok(Overlay(RefilledBuffer(disks, layout, size, TailStripe(StripeBytes(layout, n, size), |data|, offset)),
                    TailPos(StripeBytes(layout, n, size), |data|, offset), data[TailStart(|data|, StripeBytes(layout, n, size))..]))
  {
    var bps := StripeBytes(layout, n, size);
    PartialWriteStripe(disks, layout, code, size, data[TailStart(|data|, bps)..], TailStripe(bps, |data|, offset), TailPos(bps, |data|, offset));
  }

  /** When the tail stripe reads as some buffer with the remaining bytes laid over it, each of them reads back at its own offset. */
  lemma TailBytes(disks: seq<Disk>, layout: Layout, code: Code, size: nat, data: seq<byte>, offset: int, buffer: seq<byte>, j: nat)
    requires Shape(disks, layout, size) && WriteDefined(StripeBytes(layout, |disks|, size), |data|, offset)
    requires |data| % StripeBytes(layout, |disks|, size) > 0 && TailStart(|data|, StripeBytes(layout, |disks|, size)) <= j < |data|
    requires |buffer| == StripeBytes(layout, |disks|, size)
    requires StripeData(disks, layout, code, size, TailStripe(StripeBytes(layout, |disks|, size), |data|, offset))
      == Ok(Overlay(buffer, TailPos(StripeBytes(layout, |disks|, size), |data|, offset), data[TailStart(|data|, StripeBytes(layout, |disks|, size))..]))
    ensures offset + j >= 0
    ensures StripeByte(disks, layout, code, size, offset + j) == Some(data[j])
  {
    var bps := StripeBytes(layout, |disks|, size);
    TailPlace(bps, |data|, offset, j);
    OverlayAt(buffer, TailPos(bps, |data|, offset), data[TailStart(|data|, bps)..], TailPos(bps, |data|, offset) + (j - TailStart(|data|, bps)));
    StripeByteIs(disks, layout, code, size, offset + j, TailStripe(bps, |data|, offset), TailPos(bps, |data|, offset) + (j - TailStart(|data|, bps)));
  }

  /** After Write, stripe FirstStripe + i holds full stripe i of data, unless the partial last stripe went there. */
  lemma WrittenFull(disks: seq<Disk>, layout: Layout, code: Code, size: nat, data: seq<byte>, offset: int, t: nat)
    requires Shape(disks, layout, size) && WriteDefined(StripeBytes(layout, |disks|, size), |data|, offset)
    requires FirstStripe(StripeBytes(layout, |disks|, size), |data|, offset) <= t
    requires t < FirstStripe(StripeBytes(layout, |disks|, size), |data|, offset) + |data| / StripeBytes(layout, |disks|, size)
    requires |data| % StripeBytes(layout, |disks|, size) > 0 ==> t != TailStripe(StripeBytes(layout, |disks|, size), |data|, offset)
    ensures Holds(WriteResult(disks, layout, code, size, data, offset), t)
    ensures StripeData(WriteResult(disks, layout, code, size, data, offset), layout, code, size, t)
      == Ok(StripeSlice(data, StripeBytes(layout, |disks|, size), t - FirstStripe(StripeBytes(layout, |disks|, size), |data|, offset)))
  {
    FullStripesContent(disks, layout, code, size, data, FirstStripe(StripeBytes(layout, |disks|, size), |data|, offset),
                       |data| / StripeBytes(layout, |disks|, size), t);
    TailKeeps(FullStripes(disks, layout, code, size, data, FirstStripe(StripeBytes(layout, |disks|, size), |data|, offset),
                          |data| / StripeBytes(layout, |disks|, size)), layout, code, size, data, offset, t);
  }

  /** After Write with a partial last stripe, every disk holds the tail stripe. */
  lemma WrittenTailHolds(disks: seq<Disk>, layout: Layout, code: Code, size: nat, data: seq<byte>, offset: int)
    requires Shape(disks, layout, size) && WriteDefined(StripeBytes(layout, |disks|, size), |data|, offset)
    requires |data| % StripeBytes(layout, |disks|, size) > 0
    ensures Holds(WriteResult(disks, layout, code, size, data, offset), TailStripe(StripeBytes(layout, |disks|, size), |data|, offset))
  {
    TailContent(FullStripes(disks, layout, code, size, data, FirstStripe(StripeBytes(layout, |disks|, size), |data|, offset),
                            |data| / StripeBytes(layout, |disks|, size)), layout, code, size, data, offset, |disks|);
  }

  /** After Write, each of the remaining bytes reads back at its own logical offset. */
  lemma WrittenTailByte(disks: seq<Disk>, layout: Layout, code: Code, size: nat, data: seq<byte>, offset: int, j: nat)
    requires Shape(disks, layout, size) && WriteDefined(StripeBytes(layout, |disks|, size), |data|, offset)
    requires |data| % StripeBytes(layout, |disks|, size) > 0 && TailStart(|data|, StripeBytes(layout, |disks|, size)) <= j < |data|
    ensures offset + j >= 0
    ensures StripeByte(WriteResult(disks, layout, code, size, data, offset), layout, code, size, offset + j) == Some(data[j])
  {
    TailContent(FullStripes(disks, layout, code, size, data, FirstStripe(StripeBytes(layout, |disks|, size), |data|, offset),
                            |data| / StripeBytes(layout, |disks|, size)), layout, code, size, data, offset, |disks|);
    TailBytes(WriteResult(disks, layout, code, size, data, offset), layout, code, size, data, offset,
              RefilledBuffer(FullStripes(disks, layout, code, size, data, FirstStripe(StripeBytes(layout, |disks|, size), |data|, offset),
                                         |data| / StripeBytes(layout, |disks|, size)), layout, size, TailStripe(StripeBytes(layout, |disks|, size), |data|, offset)), j);
  }

  /** Byte pos of full stripe i of data is byte i * bps + pos of data. */
  lemma SliceByte(data: seq<byte>, bps: nat, i: nat, pos: nat, j: nat)
    requires bps > 0 && i < |data| / bps && pos < bps && j == i * bps + pos
    ensures j < |data| && StripeSlice(data, bps, i)[pos] == data[j]
  {
    Arith.MulBelow(i + 1, |data|, bps);
    Arith.Distrib(i + 1, 1, bps);
  }

  /**
   * A write at offset m * bps: it does not panic, its full stripes start at stripe m, and its
   * remaining bytes go to stripe m + (full stripes) from position 0.
   */
  lemma AlignedOffset(bps: nat, len: nat, m: nat, offset: int)
    requires bps > 0 && offset == m * bps
    ensures WriteDefined(bps, len, offset) && offset >= 0
    ensures len / bps > 0 ==> FirstStripe(bps, len, offset) == m
    ensures len % bps > 0 ==> TailStripe(bps, len, offset) == m + len / bps && TailPos(bps, len, offset) == 0
  {
    GoInt.QuoRemNonNegative(offset, bps);
    Arith.DivModUnique(offset, bps, m, 0);
    Arith.Euclid(len, bps);
    var at := offset + TailStart(len, bps);
    assert at == (m + len / bps) * bps;
    Arith.DivModUnique(at, bps, m + len / bps, 0);
  }

  /** Byte j of a full stripe, written at offset m * bps, is byte j mod bps of stripe m + j / bps. */
  lemma AlignedFull(bps: nat, len: nat, m: nat, offset: int, j: nat)
    requires bps > 0 && offset == m * bps && j < TailStart(len, bps)
    ensures offset + j >= 0 && j / bps < len / bps
    ensures (offset + j) / bps == m + j / bps && (offset + j) % bps == j % bps
    ensures j == (j / bps) * bps + j % bps
  {
    Arith.Euclid(j, bps);
    Arith.DivLess(j, bps, len / bps);
    Arith.DivModUnique(offset + j, bps, m + j / bps, j % bps);
  }

  /** Logical byte o = q * bps + pos, when stripe q reads as full stripe i of data, is byte i * bps + pos of data. */
  lemma SliceBytes(disks: seq<Disk>, layout: Layout, code: Code, size: nat, data: seq<byte>, o: nat, q: nat, i: nat, pos: nat, j: nat)
    requires Shape(disks, layout, size) && i < |data| / StripeBytes(layout, |disks|, size)
    requires o / StripeBytes(layout, |disks|, size) == q && o % StripeBytes(layout, |disks|, size) == pos
    requires j == i * StripeBytes(layout, |disks|, size) + pos
    requires StripeData(disks, layout, code, size, q) == Ok(StripeSlice(data, StripeBytes(layout, |disks|, size), i))
    ensures j < |data| && StripeByte(disks, layout, code, size, o) == Some(data[j])
  {
    SliceByte(data, StripeBytes(layout, |disks|, size), i, pos, j);
    StripeByteIs(disks, layout, code, size, o, q, pos);
  }

  /**
   * After Write, byte j = i * bps + pos of data, in full stripe i, reads back at logical offset o
   * when o falls at position pos of stripe FirstStripe + i (as it does for stripe-aligned offsets).
   */
  lemma FullByte(disks: seq<Disk>, layout: Layout, code: Code, size: nat, data: seq<byte>, offset: int, o: nat, i: nat, pos: nat, j: nat)
    requires Shape(disks, layout, size) && WriteDefined(StripeBytes(layout, |disks|, size), |data|, offset)
    requires i < |data| / StripeBytes(layout, |disks|, size) && j == i * StripeBytes(layout, |disks|, size) + pos
    requires o / StripeBytes(layout, |disks|, size) == FirstStripe(StripeBytes(layout, |disks|, size), |data|, offset) + i
    requires o % StripeBytes(layout, |disks|, size) == pos
    requires |data| % StripeBytes(layout, |disks|, size) > 0 ==>
      FirstStripe(StripeBytes(layout, |disks|, size), |data|, offset) + i != TailStripe(StripeBytes(layout, |disks|, size), |data|, offset)
    ensures j < |data| && StripeByte(WriteResult(disks, layout, code, size, data, offset), layout, code, size, o) == Some(data[j])
  {
    WrittenFull(disks, layout, code, size, data, offset, FirstStripe(StripeBytes(layout, |disks|, size), |data|, offset) + i);
    SliceBytes(WriteResult(disks, layout, code, size, data, offset), layout, code, size, data, o,
               FirstStripe(StripeBytes(layout, |disks|, size), |data|, offset) + i, i, pos, j);
  }

  /** After a write at offset m * bps, each byte of its full stripes reads back at its own logical offset. */
  lemma WrittenFullByte(disks: seq<Disk>, layout: Layout, code: Code, size: nat, data: seq<byte>, m: nat, offset: int, j: nat)
    requires Shape(disks, layout, size) && offset == m * StripeBytes(layout, |disks|, size)
    requires j < TailStart(|data|, StripeBytes(layout, |disks|, size))
    ensures WriteDefined(StripeBytes(layout, |disks|, size), |data|, offset) && offset + j >= 0
    ensures StripeByte(WriteResult(disks, layout, code, size, data, offset), layout, code, size, offset + j) == Some(data[j])
  {
    var bps := StripeBytes(layout, |disks|, size);
    AlignedOffset(bps, |data|, m, offset);
    AlignedFull(bps, |data|, m, offset, j);
    FullByte(disks, layout, code, size, data, offset, offset + j, Arith.Div(j, bps), Arith.Mod(j, bps), j);
  }

  /** After a write at offset m * bps, every byte of data reads back at its own logical offset. */
  lemma WrittenByte(disks: seq<Disk>, layout: Layout, code: Code, size: nat, data: seq<byte>, m: nat, offset: int, j: nat)
    requires Shape(disks, layout, size) && offset == m * StripeBytes(layout, |disks|, size) && j < |data|
    ensures WriteDefined(StripeBytes(layout, |disks|, size), |data|, offset) && offset + j >= 0
    ensures StripeByte(WriteResult(disks, layout, code, size, data, offset), layout, code, size, offset + j) == Some(data[j])
  {
    AlignedOffset(StripeBytes(layout, |disks|, size), |data|, m, offset);
    if j < TailStart(|data|, StripeBytes(layout, |disks|, size)) {
      WrittenFullByte(disks, layout, code, size, data, m, offset, j);
    } else {
      WrittenTailByte(disks, layout, code, size, data, offset, j);
    }
  }

  /** After a write at offset m * bps, all of data reads back at offsets offset .. offset + |data| - 1. */
  lemma WrittenBytes(disks: seq<Disk>, layout: Layout, code: Code, size: nat, data: seq<byte>, m: nat, offset: int)
    requires Shape(disks, layout, size) && offset == m * StripeBytes(layout, |disks|, size)
    ensures WriteDefined(StripeBytes(layout, |disks|, size), |data|, offset) && offset >= 0
    ensures forall j :: 0 <= j < |data| ==>
      StripeByte(WriteResult(disks, layout, code, size, data, offset), layout, code, size, offset + j) == Some(data[j])
  {
    AlignedOffset(StripeBytes(layout, |disks|, size), |data|, m, offset);
    forall j | 0 <= j < |data|
      ensures StripeByte(WriteResult(disks, layout, code, size, data, offset), layout, code, size, offset + j) == Some(data[j])
    {
      WrittenByte(disks, layout, code, size, data, m, offset, j);
    }
  }

  /** The last stripe that len bytes written at offset m * bps touch, and the bytes up to its end. */
  lemma LastStripe(bps: nat, len: nat, m: nat, offset: int)
    requires bps > 0 && len > 0 && offset == m * bps
    ensures len % bps > 0 ==> (len - 1) / bps == len / bps
    ensures len % bps == 0 ==> len / bps > 0 && (len - 1) / bps == len / bps - 1
    ensures 0 <= offset && offset + len <= (m + (len - 1) / bps + 1) * bps
  {
    Arith.Euclid(len, bps);
    Arith.Euclid(len - 1, bps);
    if len % bps > 0 {
      Arith.DivModUnique(len - 1, bps, len / bps, len % bps - 1);
    } else {
      Arith.DivModUnique(len - 1, bps, len / bps - 1, bps - 1);
    }
  }

  /** After a write of at least one byte at offset m * bps, every disk holds the last stripe it touched. */
  lemma WrittenLast(disks: seq<Disk>, layout: Layout, code: Code, size: nat, data: seq<byte>, m: nat, offset: int)
    requires Shape(disks, layout, size) && offset == m * StripeBytes(layout, |disks|, size) && |data| > 0
    ensures WriteDefined(StripeBytes(layout, |disks|, size), |data|, offset)
    ensures Holds(WriteResult(disks, layout, code, size, data, offset), m + Arith.Div(|data| - 1, StripeBytes(layout, |disks|, size)))
  {
    var bps := StripeBytes(layout, |disks|, size);
    AlignedOffset(bps, |data|, m, offset);
    LastStripe(bps, |data|, m, offset);
    if |data| % bps > 0 {
      WrittenTailHolds(disks, layout, code, size, data, offset);
    } else {
      WrittenFull(disks, layout, code, size, data, offset, m + Arith.Div(|data| - 1, bps));
    }
  }

  /** Every disk holding chunk s puts stripes 0 .. s inside the stored total Read reckons with. */
  lemma StoredAtLeast(disks: seq<Disk>, layout: Layout, size: nat, s: nat)
    requires Shape(disks, layout, size) && Holds(disks, s)
    ensures (s + 1) * StripeBytes(layout, |disks|, size) <= StoredBytes(disks, layout, size)
  {
    assert s < |disks[0].data| <= MaxChunks(disks);
    Arith.MulMono(s + 1, MaxChunks(disks), StripeBytes(layout, |disks|, size));
  }

  /** Part of a range that Read gives back: bytes lo .. hi - 1 of the range are read at cur + lo .. cur + hi - 1. */
  lemma ReadFromPart(stripes: seq<Result<seq<byte>, Error>>, bps: nat, cur: nat, end: nat, a: nat, l: nat)
    requires bps > 0 && StripesSized(stripes, bps) && end <= |stripes| * bps
    requires ReadFrom(stripes, bps, cur, end).Ok? && cur + a + l <= end
    ensures ReadFrom(stripes, bps, cur + a, cur + a + l) == Ok(ReadFrom(stripes, bps, cur, end).value[a..a + l])
  {
    var x := ReadFrom(stripes, bps, cur, end).value;
    ReadFromBytes(stripes, bps, cur, end);
    ReadFromOk(stripes, bps, cur, end);
    ReadFromOk(stripes, bps, cur + a, cur + a + l);
    var y := ReadFrom(stripes, bps, cur + a, cur + a + l).value;
    ReadFromBytes(stripes, bps, cur + a, cur + a + l);
    forall i | 0 <= i < l
      ensures y[i] == x[a + i]
    {
      assert ListByte(stripes, bps, cur + a + i) == ListByte(stripes, bps, cur + (a + i));
    }
    assert y == x[a..a + l];
  }

  /** Read gives back bytes only for a range that starts inside the stored total and is not empty. */
  lemma ReadNonEmpty(disks: seq<Disk>, layout: Layout, code: Code, size: nat, start: int, length: int)
    requires Shape(disks, layout, size)
    requires ReadResult(disks, layout, code, size, start, length).Ok? && |ReadResult(disks, layout, code, size, start, length).value| > 0
    ensures 0 <= start < StoredBytes(disks, layout, size) && length > 0
  {
  }

  /** Read of a non-empty range that starts inside the stored total is its stripe loop up to the end of the range or of the stored total. */
  lemma ReadIsLoop(disks: seq<Disk>, layout: Layout, code: Code, size: nat, start: nat, length: nat, end: nat)
    requires Shape(disks, layout, size) && start < StoredBytes(disks, layout, size) && length > 0
    requires end == if start + length > StoredBytes(disks, layout, size) then StoredBytes(disks, layout, size) else start + length
    ensures end <= StoredBytes(disks, layout, size) == |StripeList(disks, layout, code, size, MaxChunks(disks))| * StripeBytes(layout, |disks|, size)
    ensures ReadResult(disks, layout, code, size, start, length)
      == ReadFrom(StripeList(disks, layout, code, size, MaxChunks(disks)), StripeBytes(layout, |disks|, size), start, end)
  {
  }

  /** Part of what Read(start, length) gives back is what Read gives for that part of the range. */
  lemma ReadPart(disks: seq<Disk>, layout: Layout, code: Code, size: nat, start: int, length: int, x: seq<byte>, a: nat, l: nat)
    requires Shape(disks, layout, size) && ReadResult(disks, layout, code, size, start, length) == Ok(x)
    requires a + l <= |x| && l > 0
    ensures ReadResult(disks, layout, code, size, start + a, l) == Ok(x[a..a + l])
  {
    ReadNonEmpty(disks, layout, code, size, start, length);
    var stored := StoredBytes(disks, layout, size);
    var end := if start + length > stored then stored else start + length;
    ReadIsLoop(disks, layout, code, size, start, length, end);
    ReadIsLoop(disks, layout, code, size, start + a, l, start + a + l);
    ReadFromPart(StripeList(disks, layout, code, size, MaxChunks(disks)), StripeBytes(layout, |disks|, size),
                 start, end, a, l);
  }

  /** Read of a range inside the stored total whose every byte reads back as data gives back data. */
  lemma ReadBack(disks: seq<Disk>, layout: Layout, code: Code, size: nat, data: seq<byte>, offset: nat)
    requires Shape(disks, layout, size) && |data| > 0 && offset + |data| <= StoredBytes(disks, layout, size)
    requires forall j :: 0 <= j < |data| ==> StripeByte(disks, layout, code, size, offset + j) == Some(data[j])
    ensures ReadResult(disks, layout, code, size, offset, |data|) == Ok(data)
  {
    ReadInRange(disks, layout, code, size, offset, |data|);
    var r := ReadResult(disks, layout, code, size, offset, |data|);
    forall o | offset <= o < offset + |data|
      ensures StripeByte(disks, layout, code, size, o).Some?
    {
      assert StripeByte(disks, layout, code, size, offset + (o - offset)) == Some(data[o - offset]);
    }
    forall i | 0 <= i < |data|
      ensures r.value[i] == data[i]
    {
      assert StripeByte(disks, layout, code, size, offset + i) == Some(data[i]);
    }
    assert r.value == data;
  }

  /** After a write at offset m * bps, the stored total reaches the end of the data. */
  lemma WrittenStored(disks: seq<Disk>, layout: Layout, code: Code, size: nat, data: seq<byte>, m: nat, offset: int)
    requires Shape(disks, layout, size) && offset == m * StripeBytes(layout, |disks|, size) && |data| > 0
    ensures WriteDefined(StripeBytes(layout, |disks|, size), |data|, offset) && offset >= 0
    ensures offset + |data| <= StoredBytes(WriteResult(disks, layout, code, size, data, offset), layout, size)
  {
    var bps := StripeBytes(layout, |disks|, size);
    AlignedOffset(bps, |data|, m, offset);
    LastStripe(bps, |data|, m, offset);
    WrittenLast(disks, layout, code, size, data, m, offset);
    StoredAtLeast(WriteResult(disks, layout, code, size, data, offset), layout, size, m + Arith.Div(|data| - 1, bps));
  }

  /**
   * Write, then Read at the same offset: at a stripe-aligned offset m * bps, Read(offset, |data|)
   * gives back exactly the bytes written, whatever the array held before.
   */
  lemma WriteThenRead(disks: seq<Disk>, layout: Layout, code: Code, size: nat, data: seq<byte>, m: nat, offset: int)
    requires Shape(disks, layout, size) && offset == m * StripeBytes(layout, |disks|, size) && |data| > 0
    ensures WriteDefined(StripeBytes(layout, |disks|, size), |data|, offset)
    ensures ReadResult(WriteResult(disks, layout, code, size, data, offset), layout, code, size, offset, |data|) == Ok(data)
  {
    WrittenStored(disks, layout, code, size, data, m, offset);
    WrittenBytes(disks, layout, code, size, data, m, offset);
    ReadBack(WriteResult(disks, layout, code, size, data, offset), layout, code, size, data, offset);
  }

  /**
   * Write, then Read inside what was written: at a stripe-aligned offset m * bps,
   * Read(offset + a, l) gives back bytes a .. a + l - 1 of the data.
   */
  lemma WriteThenReadRange(disks: seq<Disk>, layout: Layout, code: Code, size: nat, data: seq<byte>, m: nat, offset: int,
                           a: nat, l: nat)
    requires Shape(disks, layout, size) && offset == m * StripeBytes(layout, |disks|, size)
    requires a + l <= |data| && l > 0
    ensures WriteDefined(StripeBytes(layout, |disks|, size), |data|, offset)
    ensures ReadResult(WriteResult(disks, layout, code, size, data, offset), layout, code, size, offset + a, l) == Ok(data[a..a + l])
  {
    WriteThenRead(disks, layout, code, size, data, m, offset);
    AlignedOffset(StripeBytes(layout, |disks|, size), |data|, m, offset);
    ReadPart(WriteResult(disks, layout, code, size, data, offset), layout, code, size, offset, |data|, data, a, l);
  }
}
