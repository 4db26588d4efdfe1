/**
 * RAID10: mirror pairs of disks, striped. Logical byte o belongs to stripe o / stripeSz,
 * which lives on pair (o / stripeSz) mod P as chunk (o / stripeSz) / P, at position
 * o mod stripeSz; both disks of the pair hold the same bytes.
 */
module Raid10 {
  import opened Wrappers
  import opened Bytes
  import opened Base
  import GoInt
  import Arith

  /** One RAID1 pair of the array: the disk read first, and its mirror. */
  datatype Mirror = Mirror(primary: Disk, backup: Disk)

  /** The errors RAID10Controller returns; Message gives the text Go formats for each. */
  datatype Error =
    | BadDiskCount(totalDisks: int)
    | BadStripeSize(stripeSz: int)
    | NegativeOffset
    | NegativeRange
    | StartBeyondData(start: int, stored: int)
    | MissingPair(pair: nat, chunk: nat, stripe: nat, offset: nat)
    | DiskNotFound(index: int)

  function Message(e: Error): string
  {
    match e
    case BadDiskCount(n) => "RAID10 requires an even number of disks, minimum 4. Provided: " + GoInt.Format(n)
    case BadStripeSize(sz) => "stripe size must be greater than 0. Provided: " + GoInt.Format(sz)
    case NegativeOffset => "write offset must be non-negative"
    case NegativeRange => "read start and length must be non-negative"
    case StartBeyondData(start, stored) =>
      "read start offset " + GoInt.Format(start) + " is beyond total data stored " + GoInt.Format(stored)
    case MissingPair(j, k, s, o) =>
      "missing stripe data at mirror pair " + GoInt.Format(j) + ", chunk " + GoInt.Format(k)
      + ". Both disks in mirror pair might have failed for stripe " + GoInt.Format(s)
      + " (logical offset " + GoInt.Format(o) + ")"
    case DiskNotFound(i) => "disk " + GoInt.Format(i) + " not found in RAID10 array"
  }

  /** Where a logical byte lives: the pair, the chunk index on its disks, the byte in the chunk. */
  datatype Location = Location(pair: nat, chunk: nat, pos: nat)

  // -------------------------------------------------------------- addressing

  function Locate(o: nat, size: nat, pairs: nat): (l: Location)
    requires size > 0 && pairs > 0
    ensures l.pair < pairs && l.pos < size
  {
    var s := o / size;
    Location(s % pairs, s / pairs, o % size)
  }

  /** The logical offset of a location: the inverse of Locate. */
  function Logical(l: Location, size: nat, pairs: nat): nat
  {
    (l.chunk * pairs + l.pair) * size + l.pos
  }

  lemma LocateLogical(l: Location, size: nat, pairs: nat)
    requires size > 0 && pairs > 0 && l.pair < pairs && l.pos < size
    ensures Locate(Logical(l, size, pairs), size, pairs) == l
  {
    var s := l.chunk * pairs + l.pair;
    Arith.DivModUnique(Logical(l, size, pairs), size, s, l.pos);
    Arith.DivModUnique(s, pairs, l.chunk, l.pair);
  }

  lemma LogicalLocate(o: nat, size: nat, pairs: nat)
    requires size > 0 && pairs > 0
    ensures Logical(Locate(o, size, pairs), size, pairs) == o
  {
    var s := o / size;
    assert s == (s / pairs) * pairs + s % pairs;
    assert o == s * size + o % size;
  }

  /**
   * A byte o of the piece [cur, cur + n) that starts at position pos of its stripe and stays
   * inside it sits exactly at the positions pos .. pos + n - 1 of that stripe's chunk.
   */
  lemma PieceSpan(cur: nat, n: nat, size: nat, pairs: nat, l: Location)
    requires size > 0 && pairs > 0 && cur % size + n <= size
    requires l.pair < pairs && l.pos < size
    ensures var here := Locate(cur, size, pairs); var o := Logical(l, size, pairs);
      (cur <= o < cur + n) <==>
        (l.pair == here.pair && l.chunk == here.chunk && here.pos <= l.pos < here.pos + n)
    ensures var o := Logical(l, size, pairs);
      cur <= o < cur + n ==> o - cur == l.pos - cur % size
  {
    var s, pos := cur / size, cur % size;
    var o := Logical(l, size, pairs);
    LocateLogical(l, size, pairs);
    LogicalLocate(cur, size, pairs);
    assert cur == s * size + pos;
    if cur <= o < cur + n {
      Arith.DivModUnique(o, size, s, o - s * size);
    }
  }

  // -------------------------------------------------------------- state

  /** The pairs a new controller has: pair j is disks 2j and 2j+1, both empty. */
  function FreshMirrors(pairs: nat): (mirrors: seq<Mirror>)
    ensures |mirrors| == pairs
    ensures forall j :: 0 <= j < pairs ==> mirrors[j] == Mirror(Disk(2 * j, []), Disk(2 * j + 1, []))
  {
    seq(pairs, j => Mirror(Disk(2 * j, []), Disk(2 * j + 1, [])))
  }

  /** Pair j holds the disks with IDs 2j and 2j+1. */
  ghost predicate PairsNumbered(mirrors: seq<Mirror>)
  {
    forall j :: 0 <= j < |mirrors| ==> mirrors[j].primary.id == 2 * j && mirrors[j].backup.id == 2 * j + 1
  }

  /** Every chunk of every disk is `size` bytes long. */
  ghost predicate MirrorsSized(mirrors: seq<Mirror>, size: int)
  {
    forall j :: 0 <= j < |mirrors| ==> DiskSized(mirrors[j].primary, size) && DiskSized(mirrors[j].backup, size)
  }

  // -------------------------------------------------------------- write specification

  /** One past the last stripe that the len bytes written at offset touch (offset / size when none). */
  function EndStripe(offset: nat, len: nat, size: nat): nat
    requires size > 0
  {
    if len == 0 then offset / size else (offset + len - 1) / size + 1
  }

  /**
   * The chunk count of the primary disk of pair j after the stripes lo .. hi-1 were written:
   * it grows, to one past the last of those stripes on pair j, only if one lands on pair j.
   */
  function Grown(len: nat, j: nat, lo: nat, hi: nat, pairs: nat): nat
    requires pairs > 0
  {
    var c := Arith.Count(hi, pairs, j);
    if c > Arith.Count(lo, pairs, j) && c > len then c else len
  }

  /** Byte l of a disk after the write: data inside the written range, the old byte or zero outside it. */
  function WrittenByte(disk: Disk, l: Location, size: nat, pairs: nat, data: seq<byte>, offset: nat): byte
    requires DiskSized(disk, size) && l.pos < size
  {
    var o := Logical(l, size, pairs);
    if offset <= o < offset + |data| then data[o - offset]
    else if l.chunk < |disk.data| then disk.data[l.chunk][l.pos]
    else 0
  }

  /** A disk of pair j after the write, grown to `len` chunks. */
  function WrittenDisk(disk: Disk, len: nat, j: nat, size: nat, pairs: nat, data: seq<byte>, offset: nat): (d: Disk)
    requires DiskSized(disk, size) && len >= |disk.data|
    ensures d.id == disk.id && |d.data| == len && DiskSized(d, size)
  {
    Disk(disk.id, seq(len, k requires 0 <= k < len =>
      seq(size, p requires 0 <= p < size => WrittenByte(disk, Location(j, k, p), size, pairs, data, offset))))
  }

  /**
   * Pair j after a write that grows its primary to len chunks: its backup grows by as many
   * chunks, and every byte of both is WrittenByte.
   */
  function WrittenPair(m: Mirror, j: nat, len: nat, size: nat, pairs: nat, data: seq<byte>, offset: nat): (r: Mirror)
    requires DiskSized(m.primary, size) && DiskSized(m.backup, size) && len >= |m.primary.data|
    ensures r.primary.id == m.primary.id && r.backup.id == m.backup.id
    ensures DiskSized(r.primary, size) && DiskSized(r.backup, size)
    ensures |r.primary.data| == len && |r.backup.data| == |m.backup.data| + (len - |m.primary.data|)
  {
    Mirror(WrittenDisk(m.primary, len, j, size, pairs, data, offset),
           WrittenDisk(m.backup, |m.backup.data| + (len - |m.primary.data|), j, size, pairs, data, offset))
  }

  /** The pairs after Write(data, offset). */
  function WriteResult(mirrors: seq<Mirror>, size: nat, data: seq<byte>, offset: nat): (r: seq<Mirror>)
    requires size > 0 && |mirrors| > 0 && MirrorsSized(mirrors, size)
    ensures |r| == |mirrors| && MirrorsSized(r, size)
    ensures forall j :: 0 <= j < |r| ==>
      r[j].primary.id == mirrors[j].primary.id && r[j].backup.id == mirrors[j].backup.id
  {
    var lo, hi := offset / size, EndStripe(offset, |data|, size);
    seq(|mirrors|, j requires 0 <= j < |mirrors| =>
      WrittenPair(mirrors[j], j, Grown(|mirrors[j].primary.data|, j, lo, hi, |mirrors|), size, |mirrors|, data, offset))
  }

  /** Stripe s can be written on its backup disk: Go indexes the backup's chunk s / P without growing it further. */
  predicate BackupHolds(mirrors: seq<Mirror>, s: nat)
    requires |mirrors| > 0
  {
    var m := mirrors[s % |mirrors|];
    |m.backup.data| >= |m.primary.data| || s / |mirrors| < |m.backup.data|
  }

  /**
   * Write extends a pair only while the chunk index is past the primary's list, then
   * indexes the backup's list: it panics when a pair whose backup is shorter than its
   * primary gets a stripe beyond the backup's end. Every touched stripe must avoid that.
   */
  ghost predicate WriteDefined(mirrors: seq<Mirror>, size: nat, data: seq<byte>, offset: int)
    requires size > 0 && |mirrors| > 0
  {
    offset < 0 || |data| == 0 ||
    forall s :: offset / size <= s < EndStripe(offset, |data|, size) ==> BackupHolds(mirrors, s)
  }

  // -------------------------------------------------------------- one piece of the Go loop

  function SetChunk(disk: Disk, k: nat, chunk: seq<byte>): (d: Disk)
    requires k < |disk.data|
  {
    Disk(disk.id, disk.data[k := chunk])
  }

  /** One disk's share of an iteration: append grow zero chunks, then copy piece into chunk k at pos. */
  function Place(disk: Disk, grow: nat, size: nat, k: nat, pos: nat, piece: seq<byte>): Disk
    requires DiskSized(disk, size) && k < |disk.data| + grow && pos + |piece| <= size
  {
    var e := Extend(disk, grow, size);
    SetChunk(e, k, Overlay(e.data[k], pos, piece))
  }

  /** Chunks appended to both disks of a pair so that the primary has chunk k. */
  function Growth(m: Mirror, k: nat): nat
  {
    if k >= |m.primary.data| then k + 1 - |m.primary.data| else 0
  }

  /** Go's work on the pair of the piece: grow both disks so that the primary has chunk k, then copy piece into chunk k of both at pos. */
  function PairPiece(m: Mirror, size: nat, k: nat, pos: nat, piece: seq<byte>): Mirror
    requires pos + |piece| <= size
    requires DiskSized(m.primary, size) && DiskSized(m.backup, size)
    requires k < |m.backup.data| + Growth(m, k)
  {
    Mirror(Place(m.primary, Growth(m, k), size, k, pos, piece), Place(m.backup, Growth(m, k), size, k, pos, piece))
  }

  /** One iteration of Write's loop: pair j replaced by PairPiece. */
  function PieceStep(mirrors: seq<Mirror>, size: nat, j: nat, k: nat, pos: nat, piece: seq<byte>): seq<Mirror>
    requires j < |mirrors| && pos + |piece| <= size
    requires DiskSized(mirrors[j].primary, size) && DiskSized(mirrors[j].backup, size)
    requires k < |mirrors[j].backup.data| + Growth(mirrors[j], k)
  {
    mirrors[j := PairPiece(mirrors[j], size, k, pos, piece)]
  }

  /** The bytes before a piece that starts a stripe (or starts the write) end just before its stripe. */
  lemma EndBefore(offset: nat, done: nat, size: nat)
    requires size > 0 && (done == 0 || (offset + done) % size == 0)
    ensures EndStripe(offset, done, size) == (offset + done) / size
  {
    var cur := offset + done;
    if done > 0 {
      var s := cur / size;
      Arith.Euclid(cur, size);
      assert cur == s * size && s > 0;
      Arith.Distrib(s, 1, size);
      Arith.DivModUnique(cur - 1, size, s - 1, size - 1);
    }
  }

  /** A piece that stays inside its stripe ends in that stripe. */
  lemma EndAfter(offset: nat, done: nat, n: nat, size: nat)
    requires size > 0 && 0 < n <= size - (offset + done) % size
    ensures EndStripe(offset, done + n, size) == (offset + done) / size + 1
  {
    var cur := offset + done;
    Arith.Euclid(cur, size);
    Arith.DivModUnique(cur + n - 1, size, cur / size, cur % size + n - 1);
  }

  /** A piece that fills its stripe to the end leaves the next piece at the start of a stripe. */
  lemma NextAligned(cur: nat, n: nat, size: nat)
    requires size > 0 && n == size - cur % size
    ensures (cur + n) % size == 0
  {
    Arith.Euclid(cur, size);
    Arith.DivModUnique(cur + n, size, cur / size + 1, 0);
  }

  /** A byte written at offset before lands on a chunk index below the pair's grown length. */
  lemma OldRangeCovered(l: Location, size: nat, pairs: nat, offset: nat, len: nat)
    requires size > 0 && pairs > 0 && l.pair < pairs && l.pos < size
    requires offset <= Logical(l, size, pairs) < offset + len
    ensures var lo, hi := offset / size, EndStripe(offset, len, size);
      lo <= l.chunk * pairs + l.pair < hi
      && Arith.Count(lo, pairs, l.pair) <= l.chunk < Arith.Count(hi, pairs, l.pair)
  {
    var o := Logical(l, size, pairs);
    var s := l.chunk * pairs + l.pair;
    var lo, last := offset / size, (offset + len - 1) / size;
    assert o / size == s by {
      Arith.DivModUnique(o, size, s, l.pos);
    }
    assert lo <= s by {
      Arith.DivMono(offset, o, size);
    }
    assert s <= last by {
      Arith.DivMono(o, offset + len - 1, size);
    }
    CountRange(lo, l.chunk, last + 1, pairs, l.pair);
  }

  /** Stripe k*P + j of lo .. hi-1 is one of the stripes of pair j counted between lo and hi. */
  lemma CountRange(lo: nat, k: nat, hi: nat, pairs: nat, j: nat)
    requires pairs > 0 && j < pairs && lo <= k * pairs + j < hi
    ensures Arith.Count(lo, pairs, j) <= k < Arith.Count(hi, pairs, j)
  {
    var s := k * pairs + j;
    Arith.CountAt(k, pairs, j);
    Arith.CountMono(lo, s, pairs, j);
    Arith.CountMono(s + 1, hi, pairs, j);
  }

  /** When some stripe of lo .. hi-1 lands on pair j, the last one is (Count(hi) - 1) * P + j. */
  lemma LastOnPair(lo: nat, hi: nat, pairs: nat, j: nat)
    requires pairs > 0 && j < pairs && Arith.Count(hi, pairs, j) > Arith.Count(lo, pairs, j)
    ensures lo <= (Arith.Count(hi, pairs, j) - 1) * pairs + j < hi
  {
    var c := Arith.Count(hi, pairs, j);
    var last := (c - 1) * pairs + j;
    Arith.CountAt(c - 1, pairs, j);
    if last < lo {
      Arith.CountMono(last + 1, lo, pairs, j);
    }
    if last >= hi {
      Arith.CountMono(hi, last, pairs, j);
    }
  }

  /**
   * One piece [cur, cur + n), cur = offset + done, on one disk of pair jj: the disk
   * written with n more bytes is the disk written so far, grown and overlaid when the
   * piece lands on jj, unchanged otherwise.
   */
  lemma DiskStep(disk: Disk, before: nat, after: nat, grow: nat, jj: nat, size: nat, pairs: nat,
                 data: seq<byte>, offset: nat, done: nat, n: nat)
    requires size > 0 && pairs > 0 && jj < pairs && DiskSized(disk, size) && before >= |disk.data|
    requires done + n <= |data| && (offset + done) % size + n <= size
    requires var lo, hi := offset / size, EndStripe(offset, done, size);
      Arith.Count(hi, pairs, jj) > Arith.Count(lo, pairs, jj) ==> Arith.Count(hi, pairs, jj) <= before
    requires var here := Locate(offset + done, size, pairs);
      if jj == here.pair then after == before + grow && here.chunk < after else after == before
    ensures var here := Locate(offset + done, size, pairs);
      var d := WrittenDisk(disk, before, jj, size, pairs, data[..done], offset);
      WrittenDisk(disk, after, jj, size, pairs, data[..done + n], offset)
        == if jj == here.pair then Place(d, grow, size, here.chunk, here.pos, data[done..done + n]) else d
  {
    var here := Locate(offset + done, size, pairs);
    var d := WrittenDisk(disk, before, jj, size, pairs, data[..done], offset);
    var a := WrittenDisk(disk, after, jj, size, pairs, data[..done + n], offset);
    var b := if jj == here.pair then Place(d, grow, size, here.chunk, here.pos, data[done..done + n]) else d;
    assert |a.data| == |b.data|;
    forall k | 0 <= k < after
      ensures a.data[k] == b.data[k]
    {
      forall p | 0 <= p < size
        ensures a.data[k][p] == b.data[k][p]
      {
        var l := Location(jj, k, p);
        PieceSpan(offset + done, n, size, pairs, l);
        if jj == here.pair && k == here.chunk {
          var e := Extend(d, grow, size);
          OverlayAt(e.data[k], here.pos, data[done..done + n], p);
        }
        if offset <= Logical(l, size, pairs) < offset + done {
          OldRangeCovered(l, size, pairs, offset, done);
        }
      }
    }
  }

  /** The stripe the piece at offset + done lies in, and the facts about it the step needs. */
  lemma PieceStripe(pairs: nat, size: nat, len: nat, offset: nat, done: nat, n: nat)
    requires size > 0 && pairs > 0
    requires done < len && (done == 0 || (offset + done) % size == 0)
    requires 0 < n <= size - (offset + done) % size && done + n <= len
    ensures var here, s := Locate(offset + done, size, pairs), (offset + done) / size;
      && s == here.chunk * pairs + here.pair
      && EndStripe(offset, done, size) == s && EndStripe(offset, done + n, size) == s + 1
      && offset / size <= s < EndStripe(offset, len, size)
      && Arith.Count(s, pairs, here.pair) == here.chunk
      && Arith.Count(s + 1, pairs, here.pair) == here.chunk + 1
      && Arith.Count(offset / size, pairs, here.pair) <= here.chunk
  {
    var s := (offset + done) / size;
    EndBefore(offset, done, size);
    EndAfter(offset, done, n, size);
    StripeWithin(size, len, offset, done, n);
    StripeCounts(s, pairs, offset / size);
  }

  /** The stripe of the piece lies inside the stripes of the whole write. */
  lemma StripeWithin(size: nat, len: nat, offset: nat, done: nat, n: nat)
    requires size > 0 && 0 < n <= size - (offset + done) % size && done + n <= len
    ensures offset / size <= (offset + done) / size < EndStripe(offset, len, size)
  {
    var cur := offset + done;
    Arith.DivMono(offset, cur, size);
    Arith.DivModUnique(cur + n - 1, size, cur / size, cur % size + n - 1);
    Arith.DivMono(cur + n - 1, offset + len - 1, size);
  }

  /** Stripe s is chunk s / P of pair s mod P, and the earlier stripes of that pair number s / P. */
  lemma StripeCounts(s: nat, pairs: nat, lo: nat)
    requires pairs > 0 && lo <= s
    ensures s == (s / pairs) * pairs + s % pairs
    ensures Arith.Count(s, pairs, s % pairs) == s / pairs
    ensures Arith.Count(s + 1, pairs, s % pairs) == s / pairs + 1
    ensures Arith.Count(lo, pairs, s % pairs) <= s / pairs
  {
    Arith.Euclid(s, pairs);
    Arith.CountAt(s / pairs, pairs, s % pairs);
    Arith.CountMono(lo, s, pairs, s % pairs);
  }

  /** The chunk counts Grown gives before and after one more stripe s, which lands on pair s mod P. */
  lemma GrownStep(len: nat, jj: nat, lo: nat, s: nat, pairs: nat)
    requires pairs > 0 && jj < pairs && lo <= s
    ensures var bp, ap := Grown(len, jj, lo, s, pairs), Grown(len, jj, lo, s + 1, pairs);
      && bp >= len
      && (jj == s % pairs ==> ap == bp + (if s / pairs >= bp then s / pairs + 1 - bp else 0))
      && (jj != s % pairs ==> ap == bp)
  {
    StripeCounts(s, pairs, lo);
    Arith.CountStep(s, pairs, jj);
  }

  /** Growth of the touched pair leaves its backup holding the touched chunk. */
  lemma PieceFits(mirrors: seq<Mirror>, size: nat, offset: nat, done: nat)
    requires size > 0 && |mirrors| > 0 && BackupHolds(mirrors, (offset + done) / size)
    ensures var here, s, lo := Locate(offset + done, size, |mirrors|), (offset + done) / size, offset / size;
      var m := mirrors[here.pair];
      here.chunk < |m.backup.data| + (Grown(|m.primary.data|, here.pair, lo, s + 1, |mirrors|) - |m.primary.data|)
  {
    var pairs := |mirrors|;
    var s: nat := (offset + done) / size;
    var lo: nat := offset / size;
    var here := Locate(offset + done, size, pairs);
    var m := mirrors[here.pair];
    Arith.DivMono(offset, offset + done, size);
    assert Arith.Count(s + 1, pairs, here.pair) == here.chunk + 1 && Arith.Count(lo, pairs, here.pair) <= here.chunk by {
      StripeCounts(s, pairs, lo);
    }
  }

  /** The backup of pair jj holds every chunk the stripes lo .. s-1 put on pair jj. */
  lemma BackupCovered(mirrors: seq<Mirror>, size: nat, len: nat, offset: nat, s: nat, jj: nat)
    requires size > 0 && |mirrors| > 0 && jj < |mirrors| && len > 0
    requires offset / size <= s < EndStripe(offset, len, size)
    requires forall t :: offset / size <= t < EndStripe(offset, len, size) ==> BackupHolds(mirrors, t)
    ensures var m, lo, c := mirrors[jj], offset / size, Arith.Count(s, |mirrors|, jj);
      c > Arith.Count(lo, |mirrors|, jj) ==>
        c <= |m.backup.data| + (Grown(|m.primary.data|, jj, lo, s, |mirrors|) - |m.primary.data|)
  {
    var pairs := |mirrors|;
    var lo := offset / size;
    var c := Arith.Count(s, pairs, jj);
    if c > Arith.Count(lo, pairs, jj) {
      LastOnPair(lo, s, pairs, jj);
      var last := (c - 1) * pairs + jj;
      assert last % pairs == jj && last / pairs == c - 1 by {
        Arith.DivModUnique(last, pairs, c - 1, jj);
      }
      assert BackupHolds(mirrors, last);
    }
  }

  /**
   * WriteStep for pair jj, given what the backup already holds: the pair written with n more
   * bytes is PairPiece of the pair written so far when the piece lands on it, the same otherwise.
   */
  lemma PairStep(m: Mirror, jj: nat, size: nat, pairs: nat, data: seq<byte>, offset: nat, done: nat, n: nat)
    requires size > 0 && pairs > 0 && jj < pairs && DiskSized(m.primary, size) && DiskSized(m.backup, size)
    requires done < |data| && (done == 0 || (offset + done) % size == 0)
    requires 0 < n <= size - (offset + done) % size && done + n <= |data|
    requires var s, lo := (offset + done) / size, offset / size;
      var p0, b0, bp := |m.primary.data|, |m.backup.data|, Grown(|m.primary.data|, jj, lo, s, pairs);
      Arith.Count(s, pairs, jj) > Arith.Count(lo, pairs, jj) ==> Arith.Count(s, pairs, jj) <= b0 + (bp - p0)
    requires var here, s, lo := Locate(offset + done, size, pairs), (offset + done) / size, offset / size;
      jj == here.pair ==>
        here.chunk < |m.backup.data| + (Grown(|m.primary.data|, jj, lo, s + 1, pairs) - |m.primary.data|)
    ensures var here, s, lo := Locate(offset + done, size, pairs), (offset + done) / size, offset / size;
      var bp, ap := Grown(|m.primary.data|, jj, lo, s, pairs), Grown(|m.primary.data|, jj, lo, s + 1, pairs);
      bp >= |m.primary.data| && ap >= |m.primary.data| &&
      var before := WrittenPair(m, jj, bp, size, pairs, data[..done], offset);
      var after := WrittenPair(m, jj, ap, size, pairs, data[..done + n], offset);
      && (jj == here.pair ==> here.chunk < |before.backup.data| + Growth(before, here.chunk))
      && after == if jj == here.pair then PairPiece(before, size, here.chunk, here.pos, data[done..done + n]) else before
  {
    if jj == Locate(offset + done, size, pairs).pair {
      PairStepHere(m, jj, size, pairs, data, offset, done, n);
    } else {
      PairStepOther(m, jj, size, pairs, data, offset, done, n);
    }
  }

  /** PairStep for a pair the piece does not land on: nothing changes. */
  lemma PairStepOther(m: Mirror, jj: nat, size: nat, pairs: nat, data: seq<byte>, offset: nat, done: nat, n: nat)
    requires size > 0 && pairs > 0 && jj < pairs && DiskSized(m.primary, size) && DiskSized(m.backup, size)
    requires done < |data| && (done == 0 || (offset + done) % size == 0)
    requires 0 < n <= size - (offset + done) % size && done + n <= |data|
    requires jj != Locate(offset + done, size, pairs).pair
    requires var s, lo := (offset + done) / size, offset / size;
      var p0, b0, bp := |m.primary.data|, |m.backup.data|, Grown(|m.primary.data|, jj, lo, s, pairs);
      Arith.Count(s, pairs, jj) > Arith.Count(lo, pairs, jj) ==> Arith.Count(s, pairs, jj) <= b0 + (bp - p0)
    ensures var s, lo := (offset + done) / size, offset / size;
      var bp := Grown(|m.primary.data|, jj, lo, s, pairs);
      && bp >= |m.primary.data| && Grown(|m.primary.data|, jj, lo, s + 1, pairs) == bp
      && WrittenPair(m, jj, bp, size, pairs, data[..done + n], offset) == WrittenPair(m, jj, bp, size, pairs, data[..done], offset)
  {
    var s: nat := (offset + done) / size;
    var lo: nat := offset / size;
    var p0 := |m.primary.data|;
    var bp := Grown(p0, jj, lo, s, pairs);
    assert EndStripe(offset, done, size) == s && bp >= p0 && Grown(p0, jj, lo, s + 1, pairs) == bp
        && (Arith.Count(s, pairs, jj) > Arith.Count(lo, pairs, jj) ==> Arith.Count(s, pairs, jj) <= bp) by {
      EndBefore(offset, done, size);
      Arith.DivMono(offset, offset + done, size);
      GrownStep(p0, jj, lo, s, pairs);
    }
    PairKept(m, jj, bp, size, pairs, data, offset, done, n);
  }

  /** PairStep for the pair the piece lands on: the pair grows and both disks get the piece. */
  lemma PairStepHere(m: Mirror, jj: nat, size: nat, pairs: nat, data: seq<byte>, offset: nat, done: nat, n: nat)
    requires size > 0 && pairs > 0 && jj < pairs && DiskSized(m.primary, size) && DiskSized(m.backup, size)
    requires done < |data| && (done == 0 || (offset + done) % size == 0)
    requires 0 < n <= size - (offset + done) % size && done + n <= |data|
    requires jj == Locate(offset + done, size, pairs).pair
    requires var s, lo := (offset + done) / size, offset / size;
      var p0, b0, bp := |m.primary.data|, |m.backup.data|, Grown(|m.primary.data|, jj, lo, s, pairs);
      Arith.Count(s, pairs, jj) > Arith.Count(lo, pairs, jj) ==> Arith.Count(s, pairs, jj) <= b0 + (bp - p0)
    requires var here, s, lo := Locate(offset + done, size, pairs), (offset + done) / size, offset / size;
      here.chunk < |m.backup.data| + (Grown(|m.primary.data|, jj, lo, s + 1, pairs) - |m.primary.data|)
    ensures var here, s, lo := Locate(offset + done, size, pairs), (offset + done) / size, offset / size;
      var bp, ap := Grown(|m.primary.data|, jj, lo, s, pairs), Grown(|m.primary.data|, jj, lo, s + 1, pairs);
      bp >= |m.primary.data| && ap >= |m.primary.data| &&
      var before := WrittenPair(m, jj, bp, size, pairs, data[..done], offset);
      && here.chunk < |before.backup.data| + Growth(before, here.chunk)
      && WrittenPair(m, jj, ap, size, pairs, data[..done + n], offset)
         == PairPiece(before, size, here.chunk, here.pos, data[done..done + n])
  {
    var here := Locate(offset + done, size, pairs);
    var s: nat := (offset + done) / size;
    var lo: nat := offset / size;
    var p0 := |m.primary.data|;
    var bp := Grown(p0, jj, lo, s, pairs);
    var g := if here.chunk >= bp then here.chunk + 1 - bp else 0;
    EndBefore(offset, done, size);
    Arith.DivMono(offset, offset + done, size);
    HereCounts(p0, jj, pairs, lo, s, here.chunk);
    PairPlaced(m, jj, bp, g, Grown(p0, jj, lo, s + 1, pairs), size, pairs, data, offset, done, n);
  }

  /** The chunk counts of the pair stripe s lands on, before and after stripe s. */
  lemma HereCounts(p0: nat, jj: nat, pairs: nat, lo: nat, s: nat, chunk: nat)
    requires pairs > 0 && lo <= s && jj == s % pairs && chunk == s / pairs
    ensures var bp := Grown(p0, jj, lo, s, pairs);
      && bp >= p0
      && Grown(p0, jj, lo, s + 1, pairs) == bp + (if chunk >= bp then chunk + 1 - bp else 0)
      && (Arith.Count(s, pairs, jj) > Arith.Count(lo, pairs, jj) ==> Arith.Count(s, pairs, jj) <= bp)
  {
    GrownStep(p0, jj, lo, s, pairs);
  }

  /** Both disks of a pair the piece does not land on are the same with n more bytes written. */
  lemma PairKept(m: Mirror, jj: nat, bp: nat, size: nat, pairs: nat, data: seq<byte>, offset: nat, done: nat, n: nat)
    requires size > 0 && pairs > 0 && jj < pairs && DiskSized(m.primary, size) && DiskSized(m.backup, size)
    requires done + n <= |data| && (offset + done) % size + n <= size
    requires bp >= |m.primary.data|
    requires var lo, hi := offset / size, EndStripe(offset, done, size);
      Arith.Count(hi, pairs, jj) > Arith.Count(lo, pairs, jj) ==>
        Arith.Count(hi, pairs, jj) <= bp && Arith.Count(hi, pairs, jj) <= |m.backup.data| + (bp - |m.primary.data|)
    requires jj != Locate(offset + done, size, pairs).pair
    ensures WrittenPair(m, jj, bp, size, pairs, data[..done + n], offset) == WrittenPair(m, jj, bp, size, pairs, data[..done], offset)
  {
    DiskStep(m.primary, bp, bp, 0, jj, size, pairs, data, offset, done, n);
    DiskStep(m.backup, |m.backup.data| + (bp - |m.primary.data|), |m.backup.data| + (bp - |m.primary.data|), 0, jj, size, pairs, data, offset, done, n);
  }

  /** Both disks of the pair the piece lands on, written with n more bytes: PairPiece of the pair written so far. */
  lemma PairPlaced(m: Mirror, jj: nat, bp: nat, g: nat, ap: nat, size: nat, pairs: nat, data: seq<byte>, offset: nat, done: nat, n: nat)
    requires size > 0 && pairs > 0 && jj < pairs && DiskSized(m.primary, size) && DiskSized(m.backup, size)
    requires done + n <= |data| && (offset + done) % size + n <= size
    requires bp >= |m.primary.data|
    requires var lo, hi := offset / size, EndStripe(offset, done, size);
      Arith.Count(hi, pairs, jj) > Arith.Count(lo, pairs, jj) ==>
        Arith.Count(hi, pairs, jj) <= bp && Arith.Count(hi, pairs, jj) <= |m.backup.data| + (bp - |m.primary.data|)
    requires var here := Locate(offset + done, size, pairs);
      && jj == here.pair && here.chunk < |m.backup.data| + (bp + g - |m.primary.data|)
      && g == (if here.chunk >= bp then here.chunk + 1 - bp else 0) && ap == bp + g
    ensures var here := Locate(offset + done, size, pairs);
      var before := WrittenPair(m, jj, bp, size, pairs, data[..done], offset);
      && here.chunk < |before.backup.data| + Growth(before, here.chunk)
      && WrittenPair(m, jj, ap, size, pairs, data[..done + n], offset)
         == PairPiece(before, size, here.chunk, here.pos, data[done..done + n])
  {
    var here := Locate(offset + done, size, pairs);
    var before := WrittenPair(m, jj, bp, size, pairs, data[..done], offset);
    assert Growth(before, here.chunk) == g;
    var piece := data[done..done + n];
    assert PairPiece(before, size, here.chunk, here.pos, piece)
      == Mirror(Place(before.primary, g, size, here.chunk, here.pos, piece), Place(before.backup, g, size, here.chunk, here.pos, piece));
    DiskStep(m.primary, bp, bp + g, g, jj, size, pairs, data, offset, done, n);
    DiskStep(m.backup, |m.backup.data| + (bp - |m.primary.data|), |m.backup.data| + (bp + g - |m.primary.data|), g, jj, size, pairs, data, offset, done, n);
  }

  /** WriteStep at pair jj of the whole array. */
  lemma WriteStepAt(mirrors: seq<Mirror>, size: nat, data: seq<byte>, offset: nat, done: nat, n: nat, jj: nat)
    requires size > 0 && |mirrors| > 0 && MirrorsSized(mirrors, size) && jj < |mirrors|
    requires WriteDefined(mirrors, size, data, offset)
    requires done < |data| && (done == 0 || (offset + done) % size == 0)
    requires 0 < n <= size - (offset + done) % size && done + n <= |data|
    ensures var here := Locate(offset + done, size, |mirrors|);
      var before := WriteResult(mirrors, size, data[..done], offset);
      var after := WriteResult(mirrors, size, data[..done + n], offset);
      && (jj == here.pair ==> here.chunk < |before[jj].backup.data| + Growth(before[jj], here.chunk))
      && after[jj] == if jj == here.pair then PairPiece(before[jj], size, here.chunk, here.pos, data[done..done + n]) else before[jj]
  {
    var pairs := |mirrors|;
    var s: nat := (offset + done) / size;
    var lo: nat := offset / size;
    assert EndStripe(offset, done, size) == s && EndStripe(offset, done + n, size) == s + 1
        && lo <= s < EndStripe(offset, |data|, size) by {
      PieceStripe(pairs, size, |data|, offset, done, n);
    }
    WriteResultAt(mirrors, size, data[..done], offset, jj, lo, s);
    WriteResultAt(mirrors, size, data[..done + n], offset, jj, lo, s + 1);
    BackupCovered(mirrors, size, |data|, offset, s, jj);
    if jj == Locate(offset + done, size, pairs).pair {
      assert BackupHolds(mirrors, s);
      PieceFits(mirrors, size, offset, done);
    }
    PairStep(mirrors[jj], jj, size, pairs, data, offset, done, n);
  }

  /** Pair j after a write that touched the stripes lo .. hi-1. */
  lemma WriteResultAt(mirrors: seq<Mirror>, size: nat, d: seq<byte>, offset: nat, j: nat, lo: nat, hi: nat)
    requires size > 0 && |mirrors| > 0 && MirrorsSized(mirrors, size) && j < |mirrors|
    requires lo == offset / size && hi == EndStripe(offset, |d|, size)
    ensures WriteResult(mirrors, size, d, offset)[j]
      == WrittenPair(mirrors[j], j, Grown(|mirrors[j].primary.data|, j, lo, hi, |mirrors|), size, |mirrors|, d, offset)
  {
  }

  /**
   * One iteration of Write's loop on the array written so far (before) is the array written
   * with n more bytes; and the backup has the chunk the iteration indexes (no panic).
   */
  lemma WriteStep(mirrors: seq<Mirror>, size: nat, data: seq<byte>, offset: nat, done: nat, n: nat,
                  here: Location, before: seq<Mirror>)
    requires size > 0 && |mirrors| > 0 && MirrorsSized(mirrors, size)
    requires WriteDefined(mirrors, size, data, offset)
    requires done < |data| && (done == 0 || (offset + done) % size == 0)
    requires 0 < n <= size - (offset + done) % size && done + n <= |data|
    requires here == Locate(offset + done, size, |mirrors|)
    requires before == WriteResult(mirrors, size, data[..done], offset)
    ensures here.chunk < |before[here.pair].backup.data| + Growth(before[here.pair], here.chunk)
    ensures WriteResult(mirrors, size, data[..done + n], offset)
         == PieceStep(before, size, here.pair, here.chunk, here.pos, data[done..done + n])
  {
    var after := WriteResult(mirrors, size, data[..done + n], offset);
    WriteStepAt(mirrors, size, data, offset, done, n, here.pair);
    var stepped := PieceStep(before, size, here.pair, here.chunk, here.pos, data[done..done + n]);
    forall jj | 0 <= jj < |mirrors|
      ensures after[jj] == stepped[jj]
    {
      WriteStepAt(mirrors, size, data, offset, done, n, jj);
    }
  }

  /** Appending one more zero chunk to a disk extended by g chunks extends it by g + 1. */
  lemma ExtendMore(disk: Disk, g: nat, size: nat)
    ensures Extend(disk, g + 1, size) == Disk(disk.id, Extend(disk, g, size).data + [Zeros(size)])
  {
    assert Extend(disk, g + 1, size).data == Extend(disk, g, size).data + [Zeros(size)];
  }

  /** A write of no bytes changes nothing: the loop starts from the array as it is. */
  lemma WriteNothing(mirrors: seq<Mirror>, size: nat, data: seq<byte>, offset: nat)
    requires size > 0 && |mirrors| > 0 && MirrorsSized(mirrors, size)
    ensures WriteResult(mirrors, size, data[..0], offset) == mirrors
  {
    var r := WriteResult(mirrors, size, data[..0], offset);
    forall j | 0 <= j < |mirrors|
      ensures r[j] == mirrors[j]
    {
      assert Grown(|mirrors[j].primary.data|, j, offset / size, offset / size, |mirrors|) == |mirrors[j].primary.data|;
      DiskUnwritten(mirrors[j].primary, j, size, |mirrors|, data[..0], offset);
      DiskUnwritten(mirrors[j].backup, j, size, |mirrors|, data[..0], offset);
    }
  }

  /** Writing no bytes into a disk without growing it gives the disk back. */
  lemma DiskUnwritten(disk: Disk, j: nat, size: nat, pairs: nat, data: seq<byte>, offset: nat)
    requires size > 0 && DiskSized(disk, size) && data == []
    ensures WrittenDisk(disk, |disk.data|, j, size, pairs, data, offset) == disk
  {
    var d := WrittenDisk(disk, |disk.data|, j, size, pairs, data, offset);
    forall k | 0 <= k < |disk.data|
      ensures d.data[k] == disk.data[k]
    {
    }
  }

  // -------------------------------------------------------------- the controller

  /**
   * The inner loop of Write: append a zero chunk to both disks of the pair until the
   * primary has chunk k.
   */
  method GrowPair(m: Mirror, k: nat, size: nat) returns (r: Mirror)
    ensures r == Mirror(Extend(m.primary, Growth(m, k), size), Extend(m.backup, Growth(m, k), size))
  {
    var primary, backup := m.primary, m.backup;
    ghost var g: nat := 0;
    while k >= |primary.data|
      invariant g <= Growth(m, k)
      invariant primary == Extend(m.primary, g, size)
      invariant backup == Extend(m.backup, g, size)
      decreases k - |primary.data|
    {
      ExtendMore(m.primary, g, size);
      ExtendMore(m.backup, g, size);
      primary := Disk(primary.id, primary.data + [Zeros(size)]);
      backup := Disk(backup.id, backup.data + [Zeros(size)]);
      g := g + 1;
    }
    return Mirror(primary, backup);
  }

  /** One pass of Write's loop on the pair the piece lands on: grow both disks, then copy the piece into chunk k of each. */
  method PlacePiece(m: Mirror, k: nat, pos: nat, piece: seq<byte>, size: nat) returns (r: Mirror)
    requires DiskSized(m.primary, size) && DiskSized(m.backup, size) && pos + |piece| <= size
    requires k < |m.backup.data| + Growth(m, k)
    ensures r == PairPiece(m, size, k, pos, piece)
  {
    var grown := GrowPair(m, k, size);
    var primary, backup := grown.primary, grown.backup;
    primary := SetChunk(primary, k, Overlay(primary.data[k], pos, piece));
    backup := SetChunk(backup, k, Overlay(backup.data[k], pos, piece));
    return Mirror(primary, backup);
  }

  // -------------------------------------------------------------- read specification

  /** The chunks a pair still holds: the longer list of its two disks (one of them may have failed). */
  function PairChunks(m: Mirror): (c: nat)
    ensures c >= |m.primary.data| && c >= |m.backup.data|
    ensures c == |m.primary.data| || c == |m.backup.data|
  {
    if |m.backup.data| > |m.primary.data| then |m.backup.data| else |m.primary.data|
  }

  /** The stripe of the last chunk pair j of P holds, -1 when the pair holds none. */
  function LastStripe(m: Mirror, j: nat, pairs: nat): int
  {
    if PairChunks(m) > 0 then (PairChunks(m) - 1) * pairs + j else -1
  }

  /** The highest stripe any of the pairs 0 .. j-1 holds, -1 when none of them holds a chunk. */
  function MaxStripe(mirrors: seq<Mirror>, j: nat): (ms: int)
    requires j <= |mirrors|
    ensures ms >= -1
    ensures forall i :: 0 <= i < j ==> LastStripe(mirrors[i], i, |mirrors|) <= ms
    ensures ms == -1 || exists i :: 0 <= i < j && LastStripe(mirrors[i], i, |mirrors|) == ms
  {
    if j == 0 then -1
    else
      var prev, last := MaxStripe(mirrors, j - 1), LastStripe(mirrors[j - 1], j - 1, |mirrors|);
      if last > prev then last else prev
  }

  /** The total data stored: the end of the highest stripe held, -1 when no disk holds a chunk. */
  function StoredEnd(mirrors: seq<Mirror>, size: nat): int
  {
    var ms := MaxStripe(mirrors, |mirrors|);
    if ms == -1 then -1 else (ms + 1) * size
  }

  /** The copy of chunk k Read uses: the primary's if it holds it non-empty, else the backup's. */
  function Source(m: Mirror, k: nat): (r: Option<seq<byte>>)
    ensures r.Some? ==>
      (k < |m.primary.data| && r.value == m.primary.data[k]) || (k < |m.backup.data| && r.value == m.backup.data[k])
  {
    if k < |m.primary.data| && |m.primary.data[k]| > 0 then Some(m.primary.data[k])
    else if k < |m.backup.data| && |m.backup.data[k]| > 0 then Some(m.backup.data[k])
    else None
  }

  /** The byte Read finds for logical offset o, or None when both disks of its pair lack its chunk. */
  function ByteAt(mirrors: seq<Mirror>, size: nat, o: nat): Option<byte>
    requires size > 0 && |mirrors| > 0 && MirrorsSized(mirrors, size)
  {
    var l := Locate(o, size, |mirrors|);
    match Source(mirrors[l.pair], l.chunk)
    case None => None
    case Some(chunk) => Some(chunk[l.pos])
  }

  /**
   * Read's loop over [cur, end): the piece of each stripe from its source chunk, up to the
   * end of the stripe or of the range, or the error naming the first stripe without a source.
   */
  function ReadFrom(mirrors: seq<Mirror>, size: nat, cur: nat, end: nat): (r: Result<seq<byte>, Error>)
    requires size > 0 && |mirrors| > 0 && MirrorsSized(mirrors, size)
    ensures r.Ok? ==> |r.value| == if cur < end then end - cur else 0
    decreases end - cur
  {
    if cur >= end then Ok([])
    else
      var l := Locate(cur, size, |mirrors|);
      match Source(mirrors[l.pair], l.chunk)
      case None => Err(MissingPair(l.pair, l.chunk, cur / size, cur))
      case Some(chunk) =>
        var n := if size - l.pos < end - cur then size - l.pos else end - cur;
        Prepend(chunk[l.pos..l.pos + n], ReadFrom(mirrors, size, cur + n, end))
  }

  /** One pass of Read's loop: the piece of the stripe at cur, then the rest of the range. */
  lemma ReadFromStep(mirrors: seq<Mirror>, size: nat, cur: nat, end: nat, here: Location, chunk: seq<byte>, n: nat)
    requires size > 0 && |mirrors| > 0 && MirrorsSized(mirrors, size) && cur < end
    requires here == Locate(cur, size, |mirrors|) && Source(mirrors[here.pair], here.chunk) == Some(chunk)
    requires n == if size - here.pos < end - cur then size - here.pos else end - cur
    ensures here.pos + n <= |chunk|
    ensures ReadFrom(mirrors, size, cur, end) == Prepend(chunk[here.pos..here.pos + n], ReadFrom(mirrors, size, cur + n, end))
  {
  }

  /**
   * Read(start, length): negative arguments are refused; a start past the stored data is
   * refused and a start at its end reads nothing (an array never written stores -1 bytes,
   * so every read of it is refused); the range is cut at the end of the stored data.
   */
  function ReadResult(mirrors: seq<Mirror>, size: nat, start: int, length: int): (r: Result<seq<byte>, Error>)
    requires size > 0 && |mirrors| > 0 && MirrorsSized(mirrors, size)
    ensures r.Ok? ==> |r.value| <= length
  {
    if start < 0 || length < 0 then Err(NegativeRange)
    else
      var stored := StoredEnd(mirrors, size);
      if stored == -1 || start >= stored then
        if start > stored then Err(StartBeyondData(start, stored)) else Ok([])
      else
        var end := if start + length > stored then stored else start + length;
        if end - start <= 0 then Ok([]) else ReadFrom(mirrors, size, start, end)
  }

  // -------------------------------------------------------------- failure of a disk

  /** Which disk of which pair: the primary (the first of the pair) or the backup. */
  datatype Slot = Slot(pair: nat, primary: bool)

  /** The disk ClearDisk finds for `index` among the pairs from `from` on: the first pair, primary before backup. */
  function FindFrom(mirrors: seq<Mirror>, index: int, from: nat): (r: Option<Slot>)
    requires from <= |mirrors|
    ensures r.None? <==> forall j :: from <= j < |mirrors| ==> mirrors[j].primary.id != index && mirrors[j].backup.id != index
    ensures r.Some? ==>
      && from <= r.value.pair < |mirrors|
      && (forall j :: from <= j < r.value.pair ==> mirrors[j].primary.id != index && mirrors[j].backup.id != index)
      && (if r.value.primary then mirrors[r.value.pair].primary.id == index
          else mirrors[r.value.pair].primary.id != index && mirrors[r.value.pair].backup.id == index)
    decreases |mirrors| - from
  {
    if from == |mirrors| then None
    else if mirrors[from].primary.id == index then Some(Slot(from, true))
    else if mirrors[from].backup.id == index then Some(Slot(from, false))
    else FindFrom(mirrors, index, from + 1)
  }

  /** The pairs with the disk in `slot` failed: its chunk list emptied, its ID and everything else kept. */
  function ClearSlot(mirrors: seq<Mirror>, slot: Slot): (r: seq<Mirror>)
    requires slot.pair < |mirrors|
    ensures |r| == |mirrors| && forall j :: 0 <= j < |mirrors| && j != slot.pair ==> r[j] == mirrors[j]
    ensures var m, c := mirrors[slot.pair], r[slot.pair];
      if slot.primary then c == Mirror(Disk(m.primary.id, []), m.backup)
      else c == Mirror(m.primary, Disk(m.backup.id, []))
  {
    var m := mirrors[slot.pair];
    mirrors[slot.pair := if slot.primary then Mirror(Disk(m.primary.id, []), m.backup)
                         else Mirror(m.primary, Disk(m.backup.id, []))]
  }

  /** NewRAID10Controller's argument checks, in its order: the disk count, then the stripe size. */
  function CheckNew(totalDisks: int, stripeSz: int): (e: Option<Error>)
    ensures e.None? <==> totalDisks >= 4 && totalDisks % 2 == 0 && stripeSz > 0
    ensures (totalDisks < 4 || totalDisks % 2 != 0) ==> e == Some(BadDiskCount(totalDisks))
    ensures totalDisks >= 4 && totalDisks % 2 == 0 && stripeSz <= 0 ==> e == Some(BadStripeSize(stripeSz))
  {
    if totalDisks < 4 || totalDisks % 2 != 0 then Some(BadDiskCount(totalDisks))
    else if stripeSz <= 0 then Some(BadStripeSize(stripeSz))
    else None
  }

  /** The first half of Read: the highest stripe over all pairs, counting the longer disk of each, and where it ends. */
  method StoredBytes(mirrors: seq<Mirror>, size: nat) returns (stored: int)
    ensures stored == StoredEnd(mirrors, size)
  {
    var maxStripe := -1;
    var j := 0;
    while j < |mirrors|
      invariant 0 <= j <= |mirrors|
      invariant maxStripe == MaxStripe(mirrors, j)
    {
      var chunks := 0;
      if |mirrors[j].primary.data| > chunks {
        chunks := |mirrors[j].primary.data|;
      }
      if |mirrors[j].backup.data| > chunks {
        chunks := |mirrors[j].backup.data|;
      }
      if chunks > 0 {
        var last := (chunks - 1) * |mirrors| + j;
        if last > maxStripe {
          maxStripe := last;
        }
      }
      j := j + 1;
    }
    stored := -1;
    if maxStripe != -1 {
      stored := (maxStripe + 1) * size;
    }
  }

  /** The second half of Read: the bytes [start, end), stripe piece by stripe piece. */
  method ReadRange(mirrors: seq<Mirror>, size: nat, start: nat, end: nat) returns (r: Result<seq<byte>, Error>)
    requires size > 0 && |mirrors| > 0 && MirrorsSized(mirrors, size)
    ensures r == ReadFrom(mirrors, size, start, end)
  {
    var result: seq<byte> := [];
    var cur := start;
    PrependEmpty(ReadFrom(mirrors, size, start, end));
    while cur < end
      invariant start <= cur && (start <= end ==> cur <= end)
      invariant ReadFrom(mirrors, size, start, end) == Prepend(result, ReadFrom(mirrors, size, cur, end))
      decreases end - cur
    {
      var here := Locate(cur, size, |mirrors|);
      var source := Source(mirrors[here.pair], here.chunk);
      if source.None? {
        return Err(MissingPair(here.pair, here.chunk, Arith.Div(cur, size), cur));
      }
      var n := size - here.pos;
      if n > end - cur {
        n := end - cur;
      }
      ReadFromStep(mirrors, size, cur, end, here, source.value, n);
      var piece := source.value[here.pos..here.pos + n];
      PrependTwice(result, piece, ReadFrom(mirrors, size, cur + n, end));
      result := result + piece;
      cur := cur + n;
    }
    assert result + [] == result;
    return Ok(result);
  }

  class RAID10Controller {
    var mirrors: seq<Mirror>
    const stripeSz: int

    /** At least one pair, a positive stripe size, pair j made of disks 2j and 2j+1, all chunks stripeSz bytes. */
    ghost predicate Valid()
      reads this
    {
      |mirrors| > 0 && stripeSz > 0 && PairsNumbered(mirrors) && MirrorsSized(mirrors, stripeSz)
    }

    /** NewRAID10Controller on arguments it accepts: pair j is disks 2j and 2j+1, both empty. */
    constructor (totalDisks: int, stripeSize: int)
      requires CheckNew(totalDisks, stripeSize) == None
      ensures Valid()
      ensures mirrors == FreshMirrors(totalDisks / 2) && stripeSz == stripeSize
    {
      var pairs: seq<Mirror> := [];
      var i := 0;
      while i < totalDisks
        invariant 0 <= i <= totalDisks && i % 2 == 0
        invariant pairs == FreshMirrors(i / 2)
      {
        pairs := pairs + [Mirror(Disk(i, []), Disk(i + 1, []))];
        i := i + 2;
      }
      mirrors := pairs;
      stripeSz := stripeSize;
    }

    /** NewRAID10Controller: the controller, or the first check the arguments fail and no controller. */
    static method New(totalDisks: int, stripeSize: int) returns (c: RAID10Controller?, err: Option<Error>)
      ensures err == CheckNew(totalDisks, stripeSize)
      ensures err.Some? ==> c == null
      ensures err.None? ==>
        && c != null && fresh(c) && c.Valid()
        && c.mirrors == FreshMirrors(totalDisks / 2) && c.stripeSz == stripeSize
    {
      err := CheckNew(totalDisks, stripeSize);
      if err.Some? {
        return null, err;
      }
      c := new RAID10Controller(totalDisks, stripeSize);
    }

    /**
     * Write(data, offset): empty data is a no-op; a negative offset is refused; otherwise
     * every byte of the range is copied into its chunk on both disks of its pair, the
     * pairs growing by zero chunks as needed.
     */
    method Write(data: seq<byte>, offset: int) returns (err: Option<Error>)
      requires Valid()
      requires WriteDefined(mirrors, stripeSz, data, offset)
      modifies this
      ensures Valid()
      ensures |data| == 0 ==> err == None && mirrors == old(mirrors)
      ensures |data| > 0 && offset < 0 ==> err == Some(NegativeOffset) && mirrors == old(mirrors)
      ensures |data| > 0 && offset >= 0 ==>
        err == None && mirrors == WriteResult(old(mirrors), stripeSz, data, offset)
    {
      if |data| == 0 {
        return None;
      }
      if offset < 0 {
        return Some(NegativeOffset);
      }
      var cur := offset;
      var done := 0;
      WriteNothing(mirrors, stripeSz, data, offset);
      while done < |data|
        invariant 0 <= done <= |data| && cur == offset + done && |mirrors| == |old(mirrors)|
        invariant done < |data| ==> done == 0 || cur % stripeSz == 0
        invariant mirrors == WriteResult(old(mirrors), stripeSz, data[..done], offset)
        decreases |data| - done
      {
        var here := Locate(cur, stripeSz, |mirrors|);
        var n := stripeSz - here.pos;
        if n > |data| - done {
          n := |data| - done;
        }
        WriteStep(old(mirrors), stripeSz, data, offset, done, n, here, mirrors);
        var placed := PlacePiece(mirrors[here.pair], here.chunk, here.pos, data[done..done + n], stripeSz);
        mirrors := mirrors[here.pair := placed];
        if done + n < |data| {
          NextAligned(cur, n, stripeSz);
        }
        ghost var d0 := done;
        cur := cur + n;
        done := done + n;
        assert data[..done] == data[..d0 + n];
      }
      assert data[..done] == data;
      return None;
    }

    /**
     * Read(start, length): finds the total data stored from the longest disk of each pair,
     * checks the range against it, then copies each stripe's piece from the first disk of
     * its pair that holds the chunk.
     */
    method Read(start: int, length: int) returns (r: Result<seq<byte>, Error>)
      requires Valid()
      ensures r == ReadResult(mirrors, stripeSz, start, length)
    {
      if start < 0 || length < 0 {
        return Err(NegativeRange);
      }
      var end := start + length;
      var stored := StoredBytes(mirrors, stripeSz);
      if stored == -1 || start >= stored {
        if start > stored {
          return Err(StartBeyondData(start, stored));
        }
        return Ok([]);
      }
      if end > stored {
        end := stored;
      }
      if end - start <= 0 {
        return Ok([]);
      }
      r := ReadRange(mirrors, stripeSz, start, end);
    }

    /** ClearDisk(index): the first disk with that ID, scanning each pair's primary then backup, fails. */
    method ClearDisk(index: int) returns (err: Option<Error>)
      requires Valid()
      modifies this
      ensures Valid()
      ensures FindFrom(old(mirrors), index, 0).None? ==> err == Some(DiskNotFound(index)) && mirrors == old(mirrors)
      ensures FindFrom(old(mirrors), index, 0).Some? ==>
        err == None && mirrors == ClearSlot(old(mirrors), FindFrom(old(mirrors), index, 0).value)
    {
      var j := 0;
      while j < |mirrors|
        invariant 0 <= j <= |mirrors|
        invariant FindFrom(mirrors, index, 0) == FindFrom(mirrors, index, j)
      {
        var slot := None;
        if mirrors[j].primary.id == index {
          slot := Some(Slot(j, true));
        } else if mirrors[j].backup.id == index {
          slot := Some(Slot(j, false));
        }
        if slot.Some? {
          mirrors := ClearSlot(mirrors, slot.value);
          return None;
        }
        j := j + 1;
      }
      return Some(DiskNotFound(index));
    }
  }

  // -------------------------------------------------------------- properties of Read

  /** The bytes [cur, cur + n) of one stripe piece share its pair and chunk, at consecutive positions. */
  lemma PieceLocate(cur: nat, n: nat, size: nat, pairs: nat, o: nat)
    requires size > 0 && pairs > 0 && cur % size + n <= size && cur <= o < cur + n
    ensures var here := Locate(cur, size, pairs);
      Locate(o, size, pairs) == Location(here.pair, here.chunk, here.pos + (o - cur))
  {
    Arith.Euclid(cur, size);
    Arith.DivModUnique(o, size, cur / size, cur % size + (o - cur));
  }

  /** Every byte of the stripe piece [cur, cur + n) comes from the piece's source chunk. */
  lemma PieceBytes(mirrors: seq<Mirror>, size: nat, cur: nat, n: nat, l: Location, chunk: seq<byte>)
    requires size > 0 && |mirrors| > 0 && MirrorsSized(mirrors, size)
    requires l == Locate(cur, size, |mirrors|) && l.pos + n <= size
    requires Source(mirrors[l.pair], l.chunk) == Some(chunk)
    ensures forall o :: cur <= o < cur + n ==> ByteAt(mirrors, size, o) == Some(chunk[l.pos + (o - cur)])
  {
    forall o | cur <= o < cur + n
      ensures ByteAt(mirrors, size, o) == Some(chunk[l.pos + (o - cur)])
    {
      PieceLocate(cur, n, size, |mirrors|, o);
    }
  }

  /** Read's loop over [cur, end) succeeds exactly when every byte of the range has a source. */
  lemma {:induction false} ReadFromOk(mirrors: seq<Mirror>, size: nat, cur: nat, end: nat)
    requires size > 0 && |mirrors| > 0 && MirrorsSized(mirrors, size)
    ensures ReadFrom(mirrors, size, cur, end).Ok? <==> forall o :: cur <= o < end ==> ByteAt(mirrors, size, o).Some?
    decreases end - cur
  {
    if cur < end {
      var l := Locate(cur, size, |mirrors|);
      var src := Source(mirrors[l.pair], l.chunk);
      if src.None? {
        assert ByteAt(mirrors, size, cur).None?;
      } else {
        var n := if size - l.pos < end - cur then size - l.pos else end - cur;
        ReadFromOk(mirrors, size, cur + n, end);
        PieceBytes(mirrors, size, cur, n, l, src.value);
      }
    }
  }

  /** When Read's loop over [cur, end) succeeds, byte i of its result is the byte found for offset cur + i. */
  lemma {:induction false} ReadFromBytes(mirrors: seq<Mirror>, size: nat, cur: nat, end: nat)
    requires size > 0 && |mirrors| > 0 && MirrorsSized(mirrors, size)
    requires ReadFrom(mirrors, size, cur, end).Ok?
    ensures forall i :: 0 <= i < end - cur ==> ByteAt(mirrors, size, cur + i) == Some(ReadFrom(mirrors, size, cur, end).value[i])
    decreases end - cur
  {
    if cur < end {
      var l := Locate(cur, size, |mirrors|);
      var chunk := Source(mirrors[l.pair], l.chunk).value;
      var n := if size - l.pos < end - cur then size - l.pos else end - cur;
      var r, rest := ReadFrom(mirrors, size, cur, end), ReadFrom(mirrors, size, cur + n, end);
      ReadFromBytes(mirrors, size, cur + n, end);
      PieceBytes(mirrors, size, cur, n, l, chunk);
      forall i | 0 <= i < end - cur
        ensures ByteAt(mirrors, size, cur + i) == Some(r.value[i])
      {
        if i >= n {
          assert ByteAt(mirrors, size, (cur + n) + (i - n)) == Some(rest.value[i - n]);
        }
      }
    }
  }

  /**
   * When Read's loop over [cur, end) fails, it names the first byte of the range without a
   * source: its pair, its chunk, its stripe and its offset.
   */
  lemma {:induction false} ReadFromMissing(mirrors: seq<Mirror>, size: nat, cur: nat, end: nat)
    requires size > 0 && |mirrors| > 0 && MirrorsSized(mirrors, size)
    requires ReadFrom(mirrors, size, cur, end).Err?
    ensures var e := ReadFrom(mirrors, size, cur, end).error;
      && e.MissingPair? && cur <= e.offset < end
      && ByteAt(mirrors, size, e.offset).None?
      && (forall o :: cur <= o < e.offset ==> ByteAt(mirrors, size, o).Some?)
      && e.stripe == e.offset / size
      && Locate(e.offset, size, |mirrors|) == Location(e.pair, e.chunk, e.offset % size)
    decreases end - cur
  {
    var l := Locate(cur, size, |mirrors|);
    var src := Source(mirrors[l.pair], l.chunk);
    if src.None? {
      assert ByteAt(mirrors, size, cur).None?;
    } else {
      var chunk := src.value;
      var n := if size - l.pos < end - cur then size - l.pos else end - cur;
      ReadFromMissing(mirrors, size, cur + n, end);
      PieceBytes(mirrors, size, cur, n, l, chunk);
    }
  }

  /** An array never written holds -1 bytes: every read of it is refused. */
  lemma ReadNeverWritten(pairs: nat, size: nat, start: int, length: int)
    requires pairs > 0 && size > 0
    ensures ReadResult(FreshMirrors(pairs), size, start, length)
      == if start < 0 || length < 0 then Err(NegativeRange) else Err(StartBeyondData(start, -1))
  {
    var empty := FreshMirrors(pairs);
    assert forall i :: 0 <= i < pairs ==> LastStripe(empty[i], i, pairs) == -1;
    assert StoredEnd(empty, size) == -1;
  }

  /** The stored data ends at or past the end of everything the last write put down. */
  lemma StoredCovers(mirrors: seq<Mirror>, size: nat, data: seq<byte>, offset: nat)
    requires size > 0 && |mirrors| > 0 && MirrorsSized(mirrors, size) && |data| > 0
    ensures StoredEnd(WriteResult(mirrors, size, data, offset), size) >= offset + |data|
  {
    var P := |mirrors|;
    var written := WriteResult(mirrors, size, data, offset);
    var lo, hi := offset / size, EndStripe(offset, |data|, size);
    var s, j, k := FinalStripe(offset, |data|, size, P);
    GrownCovers(|mirrors[j].primary.data|, j, lo, s, hi, P, k);
    WrittenLength(mirrors, size, data, offset, j, lo, hi);
    LastStripeCovers(written[j], j, k, s, P);
    StoredAtLeast(written, size, j, s);
  }

  /** The last stripe s of a write of len > 0 bytes: chunk k of pair j, ending at or past the last byte. */
  lemma FinalStripe(offset: nat, len: nat, size: nat, pairs: nat) returns (s: nat, j: nat, k: nat)
    requires len > 0 && size > 0 && pairs > 0
    ensures offset / size <= s < EndStripe(offset, len, size)
    ensures j == s % pairs && k == s / pairs && s == k * pairs + j
    ensures (s + 1) * size >= offset + len
  {
    var last := offset + len - 1;
    s := last / size;
    j, k := s % pairs, s / pairs;
    Arith.Euclid(s, pairs);
    Arith.DivMono(offset, last, size);
    StripeEnd(last, size, s);
  }

  /** The primary of pair j after a write has Grown chunks. */
  lemma WrittenLength(mirrors: seq<Mirror>, size: nat, data: seq<byte>, offset: nat, j: nat, lo: nat, hi: nat)
    requires size > 0 && |mirrors| > 0 && MirrorsSized(mirrors, size) && j < |mirrors|
    requires lo == offset / size && hi == EndStripe(offset, |data|, size)
    ensures |WriteResult(mirrors, size, data, offset)[j].primary.data| == Grown(|mirrors[j].primary.data|, j, lo, hi, |mirrors|)
  {
  }

  /** A pair whose primary holds chunk k holds stripe k*P + j or a later one. */
  lemma LastStripeCovers(m: Mirror, j: nat, k: nat, s: nat, pairs: nat)
    requires s == k * pairs + j && |m.primary.data| > k
    ensures LastStripe(m, j, pairs) >= s
  {
    Arith.MulMono(k, PairChunks(m) - 1, pairs);
  }

  /** A pair holding stripe s makes the stored data end at or past the end of stripe s. */
  lemma StoredAtLeast(mirrors: seq<Mirror>, size: nat, j: nat, s: nat)
    requires j < |mirrors| && LastStripe(mirrors[j], j, |mirrors|) >= s
    ensures StoredEnd(mirrors, size) >= (s + 1) * size
  {
    var ms := MaxStripe(mirrors, |mirrors|);
    Arith.MulMono(s + 1, ms + 1, size);
  }

  /** Byte o of stripe s = o / size lies before the end of stripe s. */
  lemma StripeEnd(o: nat, size: nat, s: nat)
    requires size > 0 && s == o / size
    ensures (s + 1) * size > o
  {
    Arith.Euclid(o, size);
    Arith.Distrib(s + 1, 1, size);
  }

  /** A stripe s of lo .. hi-1 on pair j = s mod P: the write grows the pair past its chunk s / P. */
  lemma GrownCovers(len: nat, j: nat, lo: nat, s: nat, hi: nat, pairs: nat, chunk: nat)
    requires pairs > 0 && lo <= s < hi && j == s % pairs && chunk == s / pairs
    ensures Grown(len, j, lo, hi, pairs) > chunk
  {
    StripeCounts(s, pairs, lo);
    Arith.CountMono(s + 1, hi, pairs, j);
  }

  /** After a write, Read finds every written byte, in the primary of its pair. */
  lemma WrittenAt(mirrors: seq<Mirror>, size: nat, data: seq<byte>, offset: nat, o: nat)
    requires size > 0 && |mirrors| > 0 && MirrorsSized(mirrors, size)
    requires offset <= o < offset + |data|
    ensures ByteAt(WriteResult(mirrors, size, data, offset), size, o) == Some(data[o - offset])
  {
    var P := |mirrors|;
    var l := Locate(o, size, P);
    LogicalLocate(o, size, P);
    OldRangeCovered(l, size, P, offset, |data|);
    var written := WriteResult(mirrors, size, data, offset);
    var m := mirrors[l.pair];
    assert written[l.pair].primary.data[l.chunk][l.pos]
        == WrittenByte(m.primary, Location(l.pair, l.chunk, l.pos), size, P, data, offset);
  }

  /** Write then Read of any range inside the written bytes gives those bytes back. */
  lemma WriteThenRead(mirrors: seq<Mirror>, size: nat, data: seq<byte>, offset: nat, start: nat, length: nat)
    requires size > 0 && |mirrors| > 0 && MirrorsSized(mirrors, size) && |data| > 0
    requires offset <= start && start + length <= offset + |data|
    ensures ReadResult(WriteResult(mirrors, size, data, offset), size, start, length)
      == Ok(data[start - offset..start - offset + length])
  {
    var written := WriteResult(mirrors, size, data, offset);
    StoredCovers(mirrors, size, data, offset);
    if length > 0 {
      ReadInside(written, size, start, length);
      ReadWritten(mirrors, written, size, data, offset, start, length);
    } else {
      assert data[start - offset..start - offset + length] == [];
    }
  }

  /** A read that ends inside the stored data is Read's loop over exactly the requested range. */
  lemma ReadInside(mirrors: seq<Mirror>, size: nat, start: nat, length: nat)
    requires size > 0 && |mirrors| > 0 && MirrorsSized(mirrors, size)
    requires length > 0 && start + length <= StoredEnd(mirrors, size)
    ensures ReadResult(mirrors, size, start, length) == ReadFrom(mirrors, size, start, start + length)
  {
  }

  /** Read's loop over a range inside the last write finds the written bytes. */
  lemma ReadWritten(mirrors: seq<Mirror>, written: seq<Mirror>, size: nat, data: seq<byte>, offset: nat, start: nat, length: nat)
    requires size > 0 && |mirrors| > 0 && MirrorsSized(mirrors, size)
    requires written == WriteResult(mirrors, size, data, offset)
    requires offset <= start && start + length <= offset + |data|
    ensures ReadFrom(written, size, start, start + length) == Ok(data[start - offset..start - offset + length])
  {
    forall o | start <= o < start + length
      ensures ByteAt(written, size, o) == Some(data[o - offset])
    {
      WrittenAt(mirrors, size, data, offset, o);
    }
    ReadFromOk(written, size, start, start + length);
    ReadFromBytes(written, size, start, start + length);
    var r := ReadFrom(written, size, start, start + length);
    forall i | 0 <= i < length
      ensures r.value[i] == data[start - offset + i]
    {
      assert ByteAt(written, size, start + i) == Some(data[start + i - offset]);
    }
    assert r.value == data[start - offset..start - offset + length];
  }

  // -------------------------------------------------------------- mirrored pairs and failures

  /** Both disks of every pair hold the same chunks. */
  ghost predicate InSync(mirrors: seq<Mirror>)
  {
    forall j :: 0 <= j < |mirrors| ==> mirrors[j].primary.data == mirrors[j].backup.data
  }

  /** Two disks with the same chunks are written alike. */
  lemma WrittenAlike(a: Disk, b: Disk, len: nat, j: nat, size: nat, pairs: nat, data: seq<byte>, offset: nat)
    requires DiskSized(a, size) && a.data == b.data && len >= |a.data|
    ensures WrittenDisk(a, len, j, size, pairs, data, offset).data == WrittenDisk(b, len, j, size, pairs, data, offset).data
  {
    var x, y := WrittenDisk(a, len, j, size, pairs, data, offset), WrittenDisk(b, len, j, size, pairs, data, offset);
    forall k | 0 <= k < len
      ensures x.data[k] == y.data[k]
    {
      forall p | 0 <= p < size
        ensures x.data[k][p] == y.data[k][p]
      {
        assert WrittenByte(a, Location(j, k, p), size, pairs, data, offset)
            == WrittenByte(b, Location(j, k, p), size, pairs, data, offset);
      }
    }
  }

  /** Write keeps the two disks of every pair identical. */
  lemma WriteKeepsInSync(mirrors: seq<Mirror>, size: nat, data: seq<byte>, offset: nat)
    requires size > 0 && |mirrors| > 0 && MirrorsSized(mirrors, size) && InSync(mirrors)
    ensures InSync(WriteResult(mirrors, size, data, offset))
  {
    var written := WriteResult(mirrors, size, data, offset);
    var lo, hi := offset / size, EndStripe(offset, |data|, size);
    forall j | 0 <= j < |mirrors|
      ensures written[j].primary.data == written[j].backup.data
    {
      var m := mirrors[j];
      var len := Grown(|m.primary.data|, j, lo, hi, |mirrors|);
      WrittenAlike(m.primary, m.backup, len, j, size, |mirrors|, data, offset);
    }
  }

  /** Pairs whose longer disks have the same lengths store the same total. */
  lemma {:induction false} MaxStripeAlike(a: seq<Mirror>, b: seq<Mirror>, j: nat)
    requires |a| == |b| && j <= |a|
    requires forall i :: 0 <= i < |a| ==> PairChunks(a[i]) == PairChunks(b[i])
    ensures MaxStripe(a, j) == MaxStripe(b, j)
  {
    if j > 0 {
      MaxStripeAlike(a, b, j - 1);
    }
  }

  /** Two arrays of as many pairs, whose pairs give the same source for every chunk. */
  ghost predicate SameSources(a: seq<Mirror>, b: seq<Mirror>, size: nat)
  {
    && size > 0 && |a| > 0 && |a| == |b| && MirrorsSized(a, size) && MirrorsSized(b, size)
    && forall j, k :: 0 <= j < |a| ==> Source(a[j], k) == Source(b[j], k)
  }

  /** Pairs that give the same source for every chunk read alike. */
  lemma {:induction false} ReadFromAlike(a: seq<Mirror>, b: seq<Mirror>, size: nat, cur: nat, end: nat)
    requires SameSources(a, b, size)
    ensures SameSources(a, b, size) && ReadFrom(a, size, cur, end) == ReadFrom(b, size, cur, end)
    decreases end - cur
  {
    if cur < end {
      var l := Locate(cur, size, |a|);
      var source := Source(a[l.pair], l.chunk);
      assert source == Source(b[l.pair], l.chunk);
      if source.Some? {
        var n := if size - l.pos < end - cur then size - l.pos else end - cur;
        ReadFromStep(a, size, cur, end, l, source.value, n);
        ReadFromStep(b, size, cur, end, l, source.value, n);
        ReadFromAlike(a, b, size, cur + n, end);
      }
    }
  }

  /**
   * Degraded read: while both disks of each pair hold the same chunks, the failure of any one
   * disk changes no read, because its mirror still holds every chunk it held.
   */
  lemma ClearKeepsRead(mirrors: seq<Mirror>, size: nat, slot: Slot, start: int, length: int)
    requires size > 0 && |mirrors| > 0 && MirrorsSized(mirrors, size) && InSync(mirrors)
    requires slot.pair < |mirrors|
    ensures MirrorsSized(ClearSlot(mirrors, slot), size)
    ensures ReadResult(ClearSlot(mirrors, slot), size, start, length) == ReadResult(mirrors, size, start, length)
  {
    var cleared := ClearSlot(mirrors, slot);
    ClearAlike(mirrors, cleared, size, slot);
    MaxStripeAlike(cleared, mirrors, |mirrors|);
    assert StoredEnd(cleared, size) == StoredEnd(mirrors, size);
    ReadResultAlike(cleared, mirrors, size, start, length);
  }

  /** Arrays storing the same total, with the same source for every chunk, answer every read alike. */
  lemma ReadResultAlike(a: seq<Mirror>, b: seq<Mirror>, size: nat, start: int, length: int)
    requires size > 0 && |a| > 0 && |a| == |b| && MirrorsSized(a, size) && MirrorsSized(b, size)
    requires StoredEnd(a, size) == StoredEnd(b, size)
    requires forall j, k :: 0 <= j < |a| ==> Source(a[j], k) == Source(b[j], k)
    ensures ReadResult(a, size, start, length) == ReadResult(b, size, start, length)
  {
    if start >= 0 && length >= 0 {
      var stored := StoredEnd(a, size);
      var end := if start + length > stored then stored else start + length;
      if end > start {
        ReadFromAlike(a, b, size, start, end);
      }
    }
  }

  /** The failure of one disk of an in-sync pair changes neither the pair's chunk count nor any source. */
  lemma ClearAlike(mirrors: seq<Mirror>, cleared: seq<Mirror>, size: nat, slot: Slot)
    requires MirrorsSized(mirrors, size) && InSync(mirrors) && slot.pair < |mirrors|
    requires cleared == ClearSlot(mirrors, slot)
    ensures MirrorsSized(cleared, size) && |cleared| == |mirrors|
    ensures forall i :: 0 <= i < |mirrors| ==> PairChunks(cleared[i]) == PairChunks(mirrors[i])
    ensures forall j, k :: 0 <= j < |mirrors| ==> Source(cleared[j], k) == Source(mirrors[j], k)
  {
  }

  /** With pairs numbered 2j, 2j+1, ClearDisk finds exactly the IDs 0 .. 2P-1: pair index / 2, primary when even. */
  lemma FindNumbered(mirrors: seq<Mirror>, index: int)
    requires PairsNumbered(mirrors)
    ensures FindFrom(mirrors, index, 0)
      == if 0 <= index < 2 * |mirrors| then Some(Slot(index / 2, index % 2 == 0)) else None
  {
    var r := FindFrom(mirrors, index, 0);
    if 0 <= index < 2 * |mirrors| {
      var j := index / 2;
      assert mirrors[j].primary.id == index || mirrors[j].backup.id == index;
      assert r.Some?;
      assert r.value.pair == j;
    }
  }

  /** A new controller's pairs are numbered and in sync. */
  lemma FreshInSync(pairs: nat, size: nat)
    ensures PairsNumbered(FreshMirrors(pairs)) && MirrorsSized(FreshMirrors(pairs), size) && InSync(FreshMirrors(pairs))
  {
  }

  /** Clearing a disk keeps the pairs numbered and every chunk stripe-sized. */
  lemma ClearKeepsValid(mirrors: seq<Mirror>, size: nat, slot: Slot)
    requires slot.pair < |mirrors| && PairsNumbered(mirrors) && MirrorsSized(mirrors, size)
    ensures PairsNumbered(ClearSlot(mirrors, slot)) && MirrorsSized(ClearSlot(mirrors, slot), size)
  {
  }
}
