/**
 * Parity and lost disks in the RAID5 and RAID6 arrays. While no disk is lost, every write
 * keeps each stored stripe a codeword: its parity shards are the code applied to its data
 * shards. On such an array, clearing at most p disks changes nothing a read returns, and
 * clearing more than p disks (but not all of them) makes every read fail at the first
 * stripe it touches, with the codec's "too many missing shards" error.
 */
module Parity {
  import opened Wrappers
  import opened Bytes
  import opened Base
  import opened RsUtil
  import opened Stripes
  import opened StripeProps
  import Arith

  // -------------------------------------------------------------- stored codewords

  /** The shards of stripe s in codeword order, as the disks hold them. */
  function Stored(disks: seq<Disk>, layout: Layout, s: nat): (w: seq<seq<byte>>)
    requires Holds(disks, s)
    ensures |w| == |disks|
  {
    seq(|disks|, i requires 0 <= i < |disks| => disks[DiskOf(layout, |disks|, s, i)].data[s])
  }

  /** Stripe s is on every disk, and its parity shards are the code applied to its data shards. */
  ghost predicate Encoded(disks: seq<Disk>, layout: Layout, code: Code, size: nat, s: nat)
    requires Shape(disks, layout, size)
  {
    && Holds(disks, s)
    && var w := Stored(disks, layout, s);
       w == Codeword(code, w[..DataShards(layout, |disks|)], ParityCount(layout), size)
  }

  /** No disk is lost: all disks hold the same number of stripes, and every one of them is encoded. */
  ghost predicate Consistent(disks: seq<Disk>, layout: Layout, code: Code, size: nat)
  {
    && Shape(disks, layout, size)
    && (forall d :: 0 <= d < |disks| ==> |disks[d].data| == |disks[0].data|)
    && (forall s :: 0 <= s < |disks[0].data| ==> Encoded(disks, layout, code, size, s))
  }

  /** count shards of size zero bytes. */
  function ZeroShards(count: nat, size: nat): (z: seq<seq<byte>>)
    ensures |z| == count && forall i :: 0 <= i < count ==> z[i] == Zeros(size)
  {
    seq(count, _ => Zeros(size))
  }

  /**
   * The code gives all-zero data all-zero parity, as every linear code does. The zero chunks
   * Write appends to reach a far stripe are then a codeword too.
   */
  ghost predicate ZeroParity(code: Code, k: nat, p: nat)
  {
    forall size: nat {:trigger ParityShards(code, ZeroShards(k, size), p, size)} ::
      ParityShards(code, ZeroShards(k, size), p, size) == ZeroShards(p, size)
  }

  /** XOR parity of zeros is zero. */
  lemma XorZeroParity(k: nat)
    ensures ZeroParity(XorCode, k, 1)
  {
    forall size: nat
      ensures ParityShards(XorCode, ZeroShards(k, size), 1, size) == ZeroShards(1, size)
    {
      var ps := ParityShards(XorCode, ZeroShards(k, size), 1, size);
      forall j | 0 <= j < size
        ensures ps[0][j] == 0
      {
        XorOfZeros(ZeroShards(k, size), size, j);
      }
      assert ps[0] == Zeros(size);
      assert ps == ZeroShards(1, size);
    }
  }

  /** Read finds the stored codeword of a stripe every disk holds, with nothing missing. */
  lemma StoredShards(disks: seq<Disk>, layout: Layout, size: nat, s: nat)
    requires Shape(disks, layout, size) && Holds(disks, s)
    ensures Shards(disks, layout, s) == AsShards(Stored(disks, layout, s))
  {
    var n := |disks|;
    forall i | 0 <= i < n
      ensures Shards(disks, layout, s)[i] == AsShards(Stored(disks, layout, s))[i]
    {
      var d := DiskOf(layout, n, s, i);
      assert |disks[d].data[s]| == size;
    }
  }

  /** A stripe of zero chunks is encoded when the code has zero parity. */
  lemma ZeroStripe(disks: seq<Disk>, layout: Layout, code: Code, size: nat, s: nat)
    requires Shape(disks, layout, size) && Holds(disks, s)
    requires ZeroParity(code, DataShards(layout, |disks|), ParityCount(layout))
    requires forall d :: 0 <= d < |disks| ==> disks[d].data[s] == Zeros(size)
    ensures Encoded(disks, layout, code, size, s)
  {
    var k, p := DataShards(layout, |disks|), ParityCount(layout);
    var w := Stored(disks, layout, s);
    assert w == ZeroShards(|disks|, size);
    assert w[..k] == ZeroShards(k, size);
    assert ParityShards(code, ZeroShards(k, size), p, size) == ZeroShards(p, size);
    assert ZeroShards(k, size) + ZeroShards(p, size) == w;
  }

  /** Storing a codeword as stripe s makes stripe s encoded. */
  lemma PlacedCodeword(disks: seq<Disk>, layout: Layout, code: Code, size: nat, s: nat, shards: seq<seq<byte>>)
    requires Shape(disks, layout, size) && |shards| == |disks| && Uniform(shards, size)
    requires shards == Codeword(code, shards[..DataShards(layout, |disks|)], ParityCount(layout), size)
    ensures Shape(PlaceStripe(disks, layout, size, s, shards), layout, size)
    ensures Encoded(PlaceStripe(disks, layout, size, s, shards), layout, code, size, s)
  {
    var r := PlaceStripe(disks, layout, size, s, shards);
    PlaceStripeShape(disks, layout, size, s, shards);
    PlacedShards(disks, layout, size, s, shards);
    ShardDiskInverse(layout, |disks|, s);
    forall i | 0 <= i < |disks|
      ensures Stored(r, layout, s)[i] == shards[i]
    {
      PlaceStripeChunks(disks, layout, size, s, shards, DiskOf(layout, |disks|, s, i), s);
    }
    assert Stored(r, layout, s) == shards;
  }

  /** Storing stripe s leaves every other encoded stripe encoded. */
  lemma PlaceKeepsEncoded(disks: seq<Disk>, layout: Layout, code: Code, size: nat, s: nat, shards: seq<seq<byte>>, c: nat)
    requires Shape(disks, layout, size) && |shards| == |disks| && Uniform(shards, size)
    requires c != s && Encoded(disks, layout, code, size, c)
    ensures Shape(PlaceStripe(disks, layout, size, s, shards), layout, size)
    ensures Encoded(PlaceStripe(disks, layout, size, s, shards), layout, code, size, c)
  {
    var r := PlaceStripe(disks, layout, size, s, shards);
    PlaceStripeShape(disks, layout, size, s, shards);
    PlaceKeeps(disks, layout, size, s, shards, c);
    assert Stored(r, layout, c) == Stored(disks, layout, c);
  }

  /**
   * Storing a codeword as stripe s of a consistent array keeps it consistent: every disk now
   * holds max(L, s + 1) stripes, and the zero stripes between are codewords of a code with
   * zero parity.
   */
  lemma PlaceConsistent(disks: seq<Disk>, layout: Layout, code: Code, size: nat, s: nat, shards: seq<seq<byte>>)
    requires Consistent(disks, layout, code, size) && |shards| == |disks| && Uniform(shards, size)
    requires ZeroParity(code, DataShards(layout, |disks|), ParityCount(layout))
    requires shards == Codeword(code, shards[..DataShards(layout, |disks|)], ParityCount(layout), size)
    ensures Consistent(PlaceStripe(disks, layout, size, s, shards), layout, code, size)
    ensures |PlaceStripe(disks, layout, size, s, shards)[0].data| == if s < |disks[0].data| then |disks[0].data| else s + 1
  {
    var r := PlaceStripe(disks, layout, size, s, shards);
    var len := |disks[0].data|;
    PlaceStripeShape(disks, layout, size, s, shards);
    forall d | 0 <= d < |disks|
      ensures |r[d].data| == if s < len then len else s + 1
    {
      PlaceStripeChunks(disks, layout, size, s, shards, d, s);
    }
    forall c | 0 <= c < |r[0].data|
      ensures Encoded(r, layout, code, size, c)
    {
      if c == s {
        PlacedCodeword(disks, layout, code, size, s, shards);
      } else if c < len {
        PlaceKeepsEncoded(disks, layout, code, size, s, shards, c);
      } else {
        forall d | 0 <= d < |disks|
          ensures c < |r[d].data| && r[d].data[c] == Zeros(size)
        {
          PlaceStripeChunks(disks, layout, size, s, shards, d, c);
        }
        ZeroStripe(r, layout, code, size, c);
      }
    }
  }

  /** The RMW refill of a consistent array keeps it consistent: the stripes it appends are zeros. */
  lemma RefillConsistent(disks: seq<Disk>, layout: Layout, code: Code, size: nat, s: nat)
    requires Consistent(disks, layout, code, size)
    requires ZeroParity(code, DataShards(layout, |disks|), ParityCount(layout))
    ensures Consistent(Refill(disks, s, size), layout, code, size)
  {
    var r := Refill(disks, s, size);
    var len := |disks[0].data|;
    RefillPresent(disks, layout, size, s);
    assert forall d :: 0 <= d < |r| ==> |r[d].data| == len + Growth(len, s);
    forall c | 0 <= c < |r[0].data|
      ensures Encoded(r, layout, code, size, c)
    {
      forall d | 0 <= d < |disks|
        ensures c < |r[d].data| && r[d].data[c] == if c < len then disks[d].data[c] else Zeros(size)
      {
        RefillChunks(disks, s, size, d, c);
      }
      if c < len {
        assert Encoded(disks, layout, code, size, c);
        assert Stored(r, layout, c) == Stored(disks, layout, c);
      } else {
        ZeroStripe(r, layout, code, size, c);
      }
    }
  }

  // -------------------------------------------------------------- writes keep the array consistent

  /** The disks a controller starts with hold no stripe, so nothing is inconsistent. */
  lemma FreshConsistent(n: nat, layout: Layout, code: Code, size: nat)
    requires n >= MinDisks(layout) && size > 0
    ensures Consistent(FreshDisks(n), layout, code, size)
  {
  }

  /** Write's loop over full stripes keeps a consistent array consistent. */
  lemma {:induction false} FullStripesConsistent(disks: seq<Disk>, layout: Layout, code: Code, size: nat,
                                                 data: seq<byte>, base: int, count: nat)
    requires Turns(disks, layout, size, data, base, count) && Consistent(disks, layout, code, size)
    requires ZeroParity(code, DataShards(layout, |disks|), ParityCount(layout))
    ensures Consistent(FullStripes(disks, layout, code, size, data, base, count), layout, code, size)
    decreases count
  {
    if count > 0 {
      FullStripesConsistent(disks, layout, code, size, data, base, count - 1);
      NextStripeConsistent(disks, layout, code, size, data, base, count - 1, count);
    }
  }

  /** One turn of Write's loop keeps a consistent array consistent. */
  lemma NextStripeConsistent(disks: seq<Disk>, layout: Layout, code: Code, size: nat,
                             data: seq<byte>, base: int, i: nat, n: nat)
    requires Turns(disks, layout, size, data, base, n) && n == i + 1
    requires ZeroParity(code, DataShards(layout, |disks|), ParityCount(layout))
    ensures Consistent(FullStripes(disks, layout, code, size, data, base, i), layout, code, size)
      ==> Consistent(FullStripes(disks, layout, code, size, data, base, n), layout, code, size)
  {
    var prev := FullStripes(disks, layout, code, size, data, base, i);
    var piece := NextIs(disks, layout, code, size, data, base, i, n);
    if Consistent(prev, layout, code, size) {
      EncodedConsistent(prev, FullStripes(disks, layout, code, size, data, base, n), layout, code, size, base + i, piece);
    }
  }

  /** The turn that makes count turns of Write's loop out of count - 1: a stripe stored on their result. */
  lemma NextIs(disks: seq<Disk>, layout: Layout, code: Code, size: nat, data: seq<byte>, base: int, i: nat, n: nat)
    returns (piece: seq<byte>)
    requires Turns(disks, layout, size, data, base, n) && n == i + 1
    ensures var prev := FullStripes(disks, layout, code, size, data, base, i);
      && base + i >= 0
      && FullStripes(disks, layout, code, size, data, base, n)
         == PlaceStripe(prev, layout, size, base + i, Encode(prev, layout, code, size, piece))
  {
    var bps := StripeBytes(layout, |disks|, size);
    piece := StripeSlice(data, bps, i);
    FullStripesNext(disks, layout, code, size, data, base, bps, i, n, base + i);
  }

  /** Storing the encoding of any bytes as stripe s keeps a consistent array consistent. */
  lemma EncodedConsistent(disks: seq<Disk>, r: seq<Disk>, layout: Layout, code: Code, size: nat, s: nat, input: seq<byte>)
    requires Consistent(disks, layout, code, size)
    requires ZeroParity(code, DataShards(layout, |disks|), ParityCount(layout))
    requires r == PlaceStripe(disks, layout, size, s, Encode(disks, layout, code, size, input))
    ensures Consistent(r, layout, code, size)
  {
    PlaceConsistent(disks, layout, code, size, s, Encode(disks, layout, code, size, input));
  }

  /** handlePartialWrite keeps a consistent array consistent: it refills, then stores a fresh encoding. */
  lemma PartialWriteConsistent(disks: seq<Disk>, layout: Layout, code: Code, size: nat, piece: seq<byte>, target: nat, pos: nat)
    requires Consistent(disks, layout, code, size) && pos + |piece| <= StripeBytes(layout, |disks|, size)
    requires ZeroParity(code, DataShards(layout, |disks|), ParityCount(layout))
    ensures Consistent(PartialWrite(disks, layout, code, size, piece, target, pos), layout, code, size)
  {
    var grown := Refill(disks, target, size);
    RefillConsistent(disks, layout, code, size, target);
    var updated := Overlay(RefilledBuffer(disks, layout, size, target), pos, piece);
    EncodedConsistent(grown, PartialWrite(disks, layout, code, size, piece, target, pos), layout, code, size, target, updated);
  }

  /** Write's last, partial stripe keeps a consistent array consistent. */
  lemma WriteTailConsistent(disks: seq<Disk>, r: seq<Disk>, layout: Layout, code: Code, size: nat, data: seq<byte>, offset: int)
    requires Consistent(disks, layout, code, size) && WriteDefined(StripeBytes(layout, |disks|, size), |data|, offset)
    requires ZeroParity(code, DataShards(layout, |disks|), ParityCount(layout))
    requires r == WriteTail(disks, layout, code, size, data, offset)
    ensures Consistent(r, layout, code, size)
  {
    var bps := StripeBytes(layout, |disks|, size);
    if |data| % bps > 0 {
      var piece := data[TailStart(|data|, bps)..];
      var target, pos := TailStripe(bps, |data|, offset), TailPos(bps, |data|, offset);
      WriteTailIs(disks, layout, code, size, data, offset, piece, target, pos);
      PartialWriteConsistent(disks, layout, code, size, piece, target, pos);
    }
  }

  /**
   * With no disk lost, every Write leaves each stored stripe's parity shards equal to the code
   * applied to its data shards: for RAID6, P and Q of every stripe are the code's P and Q.
   */
  lemma WriteConsistent(disks: seq<Disk>, r: seq<Disk>, layout: Layout, code: Code, size: nat, data: seq<byte>, offset: int)
    requires Consistent(disks, layout, code, size) && WriteDefined(StripeBytes(layout, |disks|, size), |data|, offset)
    requires ZeroParity(code, DataShards(layout, |disks|), ParityCount(layout))
    requires r == WriteResult(disks, layout, code, size, data, offset)
    ensures Consistent(r, layout, code, size)
  {
    var written := FullPart(disks, layout, code, size, data, offset);
    WriteTailConsistent(written, r, layout, code, size, data, offset);
  }

  /** The full stripes of a Write leave a consistent array consistent; its tail is then written on them. */
  lemma FullPart(disks: seq<Disk>, layout: Layout, code: Code, size: nat, data: seq<byte>, offset: int)
    returns (written: seq<Disk>)
    requires Consistent(disks, layout, code, size) && WriteDefined(StripeBytes(layout, |disks|, size), |data|, offset)
    requires ZeroParity(code, DataShards(layout, |disks|), ParityCount(layout))
    ensures |written| == |disks| && Consistent(written, layout, code, size)
    ensures WriteResult(disks, layout, code, size, data, offset) == WriteTail(written, layout, code, size, data, offset)
  {
    var bps := StripeBytes(layout, |disks|, size);
    var first, count := FirstStripe(bps, |data|, offset), |data| / bps;
    written := FullStripes(disks, layout, code, size, data, first, count);
    assert WriteResult(disks, layout, code, size, data, offset) == WriteTail(written, layout, code, size, data, offset);
    FullStripesConsistent(disks, layout, code, size, data, first, count);
  }

  // -------------------------------------------------------------- lost disks

  /** The distinct disks among 0 .. n-1 that order names. */
  function Lost(order: seq<nat>, n: nat): set<nat>
  {
    set d: nat | d < n && d in order
  }

  /** Clearing one disk leaves exactly that disk lost. */
  lemma LostOne(n: nat, t: nat)
    requires t < n
    ensures Lost([t], n) == {t}
  {
  }

  /** Clearing disks a and b leaves exactly those lost. */
  lemma LostTwo(n: nat, a: nat, b: nat)
    requires a < n && b < n
    ensures Lost([a, b], n) == {a, b}
  {
  }

  /** Clearing disks a, b and c leaves exactly those lost. */
  lemma LostThree(n: nat, a: nat, b: nat, c: nat)
    requires a < n && b < n && c < n
    ensures Lost([a, b, c], n) == {a, b, c}
  {
  }

  /** The positions of the missing shards. */
  function Missing(shards: seq<Shard>): set<nat>
  {
    set i: nat | i < |shards| && shards[i].None?
  }

  /** MissingCount counts the positions of the missing shards. */
  lemma {:induction false} MissingCountSet(shards: seq<Shard>)
    ensures MissingCount(shards) == |Missing(shards)|
    decreases |shards|
  {
    if shards != [] {
      var n := |shards| - 1;
      MissingCountSet(shards[..n]);
      if shards[n].None? {
        assert Missing(shards) == Missing(shards[..n]) + {n};
      } else {
        assert Missing(shards) == Missing(shards[..n]);
      }
    }
  }

  /** The codeword positions of stripe s that the disks in lost hold. */
  function Positions(layout: Layout, n: nat, s: nat, lost: set<nat>): set<nat>
    requires forall d :: d in lost ==> d < n
  {
    set d | d in lost :: ShardOf(layout, n, s, d)
  }

  /** Different disks hold different positions, so there are as many positions as disks. */
  lemma {:induction false} PositionsCount(layout: Layout, n: nat, s: nat, lost: set<nat>)
    requires forall d :: d in lost ==> d < n
    ensures |Positions(layout, n, s, lost)| == |lost|
    decreases |lost|
  {
    if lost != {} {
      var x :| x in lost;
      var rest := lost - {x};
      PositionsCount(layout, n, s, rest);
      ShardDiskInverse(layout, n, s);
      assert Positions(layout, n, s, lost) == Positions(layout, n, s, rest) + {ShardOf(layout, n, s, x)};
    }
  }

  /**
   * Clearing the disks of order: stripe s, which every disk held, is now read as an erasure
   * of what was stored, missing exactly one shard per distinct cleared disk.
   */
  lemma ClearedShards(disks: seq<Disk>, layout: Layout, size: nat, order: seq<nat>, s: nat)
    requires Shape(disks, layout, size) && Holds(disks, s)
    requires forall k :: 0 <= k < |order| ==> order[k] < |disks|
    ensures Shape(ClearEach(disks, order), layout, size)
    ensures IsErasureOf(Shards(ClearEach(disks, order), layout, s), Stored(disks, layout, s))
    ensures MissingCount(Shards(ClearEach(disks, order), layout, s)) == |Lost(order, |disks|)|
  {
    var r := ClearEach(disks, order);
    var n := |disks|;
    var e := Shards(r, layout, s);
    var lost := Lost(order, n);
    ShardDiskInverse(layout, n, s);
    forall i | 0 <= i < n
      ensures e[i] == if DiskOf(layout, n, s, i) in lost then None else Some(Stored(disks, layout, s)[i])
    {
      var d := DiskOf(layout, n, s, i);
      assert |disks[d].data[s]| == size;
    }
    assert Missing(e) == Positions(layout, n, s, lost) by {
      forall i | i in Missing(e)
        ensures i in Positions(layout, n, s, lost)
      {
        assert ShardOf(layout, n, s, DiskOf(layout, n, s, i)) == i;
      }
    }
    MissingCountSet(e);
    PositionsCount(layout, n, s, lost);
  }

  /** Two arrays of the same width whose shards of stripe s rebuild the same way read the same stripe s. */
  lemma SameRebuild(a: seq<Disk>, b: seq<Disk>, layout: Layout, code: Code, size: nat, s: nat)
    requires Shape(a, layout, size) && Shape(b, layout, size) && |a| == |b|
    requires Reconstruct(Shards(a, layout, s), code, ParityCount(layout)) == Reconstruct(Shards(b, layout, s), code, ParityCount(layout))
    ensures StripeData(a, layout, code, size, s) == StripeData(b, layout, code, size, s)
  {
  }

  /** With at most p distinct disks cleared, an encoded stripe reads as before (the MDS hypothesis). */
  lemma DegradedStripe(disks: seq<Disk>, r: seq<Disk>, layout: Layout, code: Code, size: nat, order: seq<nat>, s: nat)
    requires Shape(disks, layout, size) && Encoded(disks, layout, code, size, s)
    requires forall k :: 0 <= k < |order| ==> order[k] < |disks|
    requires Recovers(code, DataShards(layout, |disks|), ParityCount(layout))
    requires |Lost(order, |disks|)| <= ParityCount(layout)
    requires r == ClearEach(disks, order)
    ensures Shape(r, layout, size)
    ensures StripeData(r, layout, code, size, s) == StripeData(disks, layout, code, size, s)
  {
    var k, p := DataShards(layout, |disks|), ParityCount(layout);
    var w := Stored(disks, layout, s);
    ClearedShards(disks, layout, size, order, s);
    StoredShards(disks, layout, size, s);
    assert Uniform(w[..k], size);
    ReconstructCodeword(code, k, p, w[..k], size, Shards(r, layout, s));
    ReconstructCodeword(code, k, p, w[..k], size, Shards(disks, layout, s));
    SameRebuild(r, disks, layout, code, size, s);
  }

  /** With more than p distinct disks cleared, a stripe every disk held cannot be rebuilt. */
  lemma FailedStripe(disks: seq<Disk>, layout: Layout, code: Code, size: nat, order: seq<nat>, s: nat)
    requires Shape(disks, layout, size) && Holds(disks, s)
    requires forall k :: 0 <= k < |order| ==> order[k] < |disks|
    requires |Lost(order, |disks|)| > ParityCount(layout)
    ensures Shape(ClearEach(disks, order), layout, size)
    ensures StripeData(ClearEach(disks, order), layout, code, size, s)
      == Err(ReconstructFailed(layout, s, TooManyMissingShards(|Lost(order, |disks|)|, ParityCount(layout))))
  {
    ClearedShards(disks, layout, size, order, s);
  }

  /** Two arrays whose stripes read the same build the same stripe list. */
  lemma SameList(a: seq<Disk>, b: seq<Disk>, layout: Layout, code: Code, size: nat, count: nat)
    requires Shape(a, layout, size) && Shape(b, layout, size) && |a| == |b|
    requires forall s {:trigger StripeData(a, layout, code, size, s)} :: 0 <= s < count ==>
      StripeData(a, layout, code, size, s) == StripeData(b, layout, code, size, s)
    ensures StripeList(a, layout, code, size, count) == StripeList(b, layout, code, size, count)
  {
    var x, y := StripeList(a, layout, code, size, count), StripeList(b, layout, code, size, count);
    forall s | 0 <= s < count
      ensures x[s] == y[s]
    {
      StripeListItem(a, layout, code, size, count, s);
      StripeListItem(b, layout, code, size, count, s);
    }
  }

  /** Read depends on the disks only through how many stripes they hold and what each stripe reads as. */
  lemma SameReads(a: seq<Disk>, b: seq<Disk>, layout: Layout, code: Code, size: nat, start: int, length: int)
    requires Shape(a, layout, size) && Shape(b, layout, size) && |a| == |b| && MaxChunks(a) == MaxChunks(b)
    requires forall s {:trigger StripeData(a, layout, code, size, s)} :: 0 <= s < MaxChunks(a) ==>
      StripeData(a, layout, code, size, s) == StripeData(b, layout, code, size, s)
    ensures ReadResult(a, layout, code, size, start, length) == ReadResult(b, layout, code, size, start, length)
  {
    SameList(a, b, layout, code, size, MaxChunks(a));
  }

  /**
   * Clearing disks of an array whose disks all hold len stripes: a disk that is not cleared
   * still holds them, so Read still sees len stripes.
   */
  lemma ClearedLength(disks: seq<Disk>, layout: Layout, code: Code, size: nat, order: seq<nat>)
    requires Consistent(disks, layout, code, size)
    requires forall k :: 0 <= k < |order| ==> order[k] < |disks|
    requires |Lost(order, |disks|)| < |disks|
    ensures MaxChunks(disks) == |disks[0].data|
    ensures MaxChunks(ClearEach(disks, order)) == |disks[0].data|
  {
    var r := ClearEach(disks, order);
    var d := KeptDisk(order, |disks|);
    assert |r[d].data| == |disks[0].data|;
  }

  /** The numbers below n. */
  function Below(n: nat): (b: set<nat>)
    ensures |b| == n && forall d: nat :: d in b <==> d < n
  {
    if n == 0 then {}
    else
      assert n - 1 !in Below(n - 1);
      Below(n - 1) + {n - 1}
  }

  /** Fewer than n distinct disks cleared: some disk below n is not cleared. */
  lemma KeptDisk(order: seq<nat>, n: nat) returns (d: nat)
    requires |Lost(order, n)| < n
    ensures d < n && d !in order
  {
    var rest := Below(n) - Lost(order, n);
    assert Below(n) == rest + Lost(order, n);
    assert |rest| > 0;
    d :| d in rest;
  }

  /**
   * Losing at most p disks of a consistent array changes nothing Read returns: RAID5 survives
   * any one failed disk, RAID6 any two.
   */
  lemma DegradedRead(disks: seq<Disk>, layout: Layout, code: Code, size: nat, order: seq<nat>, start: int, length: int)
    requires Consistent(disks, layout, code, size)
    requires forall k :: 0 <= k < |order| ==> order[k] < |disks|
    requires Recovers(code, DataShards(layout, |disks|), ParityCount(layout))
    requires |Lost(order, |disks|)| <= ParityCount(layout)
    ensures Shape(ClearEach(disks, order), layout, size)
    ensures ReadResult(ClearEach(disks, order), layout, code, size, start, length) == ReadResult(disks, layout, code, size, start, length)
  {
    var r := ClearEach(disks, order);
    ClearedShape(disks, layout, size, order);
    ClearedLength(disks, layout, code, size, order);
    DegradedStripes(disks, r, layout, code, size, order);
    SameReads(r, disks, layout, code, size, start, length);
  }

  /** Clearing disks keeps every remaining chunk its size. */
  lemma ClearedShape(disks: seq<Disk>, layout: Layout, size: nat, order: seq<nat>)
    requires Shape(disks, layout, size)
    requires forall k :: 0 <= k < |order| ==> order[k] < |disks|
    ensures Shape(ClearEach(disks, order), layout, size)
  {
  }

  /** With at most p distinct disks cleared, every stripe of a consistent array reads as before. */
  lemma DegradedStripes(disks: seq<Disk>, r: seq<Disk>, layout: Layout, code: Code, size: nat, order: seq<nat>)
    requires Consistent(disks, layout, code, size)
    requires forall k :: 0 <= k < |order| ==> order[k] < |disks|
    requires Recovers(code, DataShards(layout, |disks|), ParityCount(layout))
    requires |Lost(order, |disks|)| <= ParityCount(layout)
    requires r == ClearEach(disks, order)
    ensures Shape(r, layout, size)
    ensures forall s {:trigger StripeData(r, layout, code, size, s)} :: 0 <= s < |disks[0].data| ==>
      StripeData(r, layout, code, size, s) == StripeData(disks, layout, code, size, s)
  {
    ClearedShape(disks, layout, size, order);
    forall s | 0 <= s < |disks[0].data|
      ensures StripeData(r, layout, code, size, s) == StripeData(disks, layout, code, size, s)
    {
      assert Encoded(disks, layout, code, size, s);
      DegradedStripe(disks, r, layout, code, size, order, s);
    }
  }

  /**
   * Losing more than p disks of a consistent array, but not all of them: every read of a
   * non-empty range inside the stored data fails at its first stripe, with the codec's
   * "too many missing shards" error.
   */
  lemma FailedRead(disks: seq<Disk>, layout: Layout, code: Code, size: nat, order: seq<nat>, start: nat, length: nat)
    requires Consistent(disks, layout, code, size)
    requires forall k :: 0 <= k < |order| ==> order[k] < |disks|
    requires ParityCount(layout) < |Lost(order, |disks|)| < |disks|
    requires start < StoredBytes(disks, layout, size) && length > 0
    ensures Shape(ClearEach(disks, order), layout, size)
    ensures ReadResult(ClearEach(disks, order), layout, code, size, start, length)
      == Err(ReconstructFailed(layout, Arith.Div(start, StripeBytes(layout, |disks|, size)),
                               TooManyMissingShards(|Lost(order, |disks|)|, ParityCount(layout))))
  {
    var r := ClearEach(disks, order);
    var bps := StripeBytes(layout, |disks|, size);
    var stored := StoredBytes(disks, layout, size);
    ClearedShape(disks, layout, size, order);
    ClearedLength(disks, layout, code, size, order);
    var end := if start + length > stored then stored else start + length;
    ReadIsLoop(r, layout, code, size, start, length, end);
    Arith.DivLess(start, bps, MaxChunks(r));
    StripeListItem(r, layout, code, size, MaxChunks(r), start / bps);
    FailedStripe(disks, layout, code, size, order, start / bps);
  }

  // -------------------------------------------------------------- the simulation flow

  /** The disks after the simulation's Write of data at offset 0 to n fresh disks. */
  function FreshWrite(n: nat, layout: Layout, code: Code, size: nat, data: seq<byte>): (r: seq<Disk>)
    requires n >= MinDisks(layout) && size > 0
    ensures Shape(r, layout, size) && |r| == n
  {
    StripeProps.AlignedOffset(StripeBytes(layout, n, size), |data|, 0, 0);
    WriteResult(FreshDisks(n), layout, code, size, data, 0)
  }

  /**
   * The simulation flow: data written at offset 0 to fresh disks reads back, and still reads
   * back after the disks of targets are cleared when at most p distinct ones are.
   */
  lemma FlowSurvives(n: nat, layout: Layout, code: Code, size: nat, data: seq<byte>, written: seq<Disk>, targets: seq<nat>)
    requires n >= MinDisks(layout) && size > 0 && |data| > 0
    requires Recovers(code, DataShards(layout, n), ParityCount(layout)) && ZeroParity(code, DataShards(layout, n), ParityCount(layout))
    requires written == FreshWrite(n, layout, code, size, data)
    requires forall k :: 0 <= k < |targets| ==> targets[k] < n
    requires |Lost(targets, n)| <= ParityCount(layout)
    ensures Shape(written, layout, size) && Shape(ClearEach(written, targets), layout, size)
    ensures ReadResult(written, layout, code, size, 0, |data|) == Ok(data)
    ensures ReadResult(ClearEach(written, targets), layout, code, size, 0, |data|) == Ok(data)
  {
    StripeProps.WriteThenRead(FreshDisks(n), layout, code, size, data, 0, 0);
    FreshConsistent(n, layout, code, size);
    WriteConsistent(FreshDisks(n), written, layout, code, size, data, 0);
    DegradedRead(written, layout, code, size, targets, 0, |data|);
  }

  /**
   * The simulation flow with more than p distinct disks cleared, but not all: the read of
   * what was written fails at stripe 0 with the codec's "too many missing shards" error.
   */
  lemma FlowFails(n: nat, layout: Layout, code: Code, size: nat, data: seq<byte>, written: seq<Disk>, targets: seq<nat>)
    requires n >= MinDisks(layout) && size > 0 && |data| > 0
    requires ZeroParity(code, DataShards(layout, n), ParityCount(layout))
    requires written == FreshWrite(n, layout, code, size, data)
    requires forall k :: 0 <= k < |targets| ==> targets[k] < n
    requires ParityCount(layout) < |Lost(targets, n)| < n
    ensures Shape(ClearEach(written, targets), layout, size)
    ensures ReadResult(ClearEach(written, targets), layout, code, size, 0, |data|)
      == Err(ReconstructFailed(layout, 0, TooManyMissingShards(|Lost(targets, n)|, ParityCount(layout))))
  {
    StripeProps.WrittenStored(FreshDisks(n), layout, code, size, data, 0, 0);
    FreshConsistent(n, layout, code, size);
    WriteConsistent(FreshDisks(n), written, layout, code, size, data, 0);
    FailedRead(written, layout, code, size, targets, 0, |data|);
  }
}
