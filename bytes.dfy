/** Byte strings and the handful of slice operations the simulator needs. */
module Bytes {
  import opened Arith

  type byte = bv8

  /** `make([]byte, n)`: n zero bytes. */
  function Zeros(n: nat): (z: seq<byte>)
    ensures |z| == n
    ensures forall i :: 0 <= i < n ==> z[i] == 0
  {
    seq(n, _ => 0)
  }

  /** `buf := make([]byte, n); copy(buf, s)`: the first n bytes of s, zero-padded to n. */
  function Fit(s: seq<byte>, n: nat): (r: seq<byte>)
    ensures |r| == n
    ensures forall i :: 0 <= i < n ==> r[i] == if i < |s| then s[i] else 0
  {
    if |s| >= n then s[..n] else s + Zeros(n - |s|)
  }

  lemma FitExact(s: seq<byte>)
    ensures Fit(s, |s|) == s
  {
  }

  /** Concatenation of a list of chunks, in order. */
  function Flatten(chunks: seq<seq<byte>>): seq<byte>
  {
    if chunks == [] then [] else Flatten(chunks[..|chunks| - 1]) + chunks[|chunks| - 1]
  }

  /** All chunks have exactly `size` bytes. */
  ghost predicate Uniform(chunks: seq<seq<byte>>, size: nat)
  {
    forall i :: 0 <= i < |chunks| ==> |chunks[i]| == size
  }

  lemma {:induction false} FlattenAppend(chunks: seq<seq<byte>>, c: seq<byte>)
    ensures Flatten(chunks + [c]) == Flatten(chunks) + c
  {
    assert (chunks + [c])[..|chunks|] == chunks;
  }

  lemma {:induction false} FlattenConcat(a: seq<seq<byte>>, b: seq<seq<byte>>)
    ensures Flatten(a + b) == Flatten(a) + Flatten(b)
    decreases |b|
  {
    if b == [] {
      assert a + b == a;
    } else {
      var b' := b[..|b| - 1];
      assert a + b == (a + b') + [b[|b| - 1]];
      FlattenConcat(a, b');
      FlattenAppend(a + b', b[|b| - 1]);
      FlattenAppend(b', b[|b| - 1]);
      assert b == b' + [b[|b| - 1]];
    }
  }

  /** Flattening chunks of one size puts byte j of chunk i at position i * size + j. */
  lemma {:induction false} FlattenUniform(chunks: seq<seq<byte>>, size: nat)
    requires Uniform(chunks, size)
    ensures |Flatten(chunks)| == |chunks| * size
    ensures forall i, j {:trigger chunks[i][j]} :: 0 <= i < |chunks| && 0 <= j < size ==>
      Flatten(chunks)[i * size + j] == chunks[i][j]
    decreases |chunks|
  {
    if chunks != [] {
      var n := |chunks| - 1;
      FlattenUniform(chunks[..n], size);
      assert Flatten(chunks) == Flatten(chunks[..n]) + chunks[n];
      forall i, j | 0 <= i < |chunks| && 0 <= j < size
        ensures Flatten(chunks)[i * size + j] == chunks[i][j]
      {
        if i < n {
          assert chunks[..n][i] == chunks[i];
          assert i * size + j < n * size by {
            assert (i + 1) * size <= n * size by {
              MulMono(i + 1, n, size);
            }
          }
        }
      }
    }
  }

  /**
   * `count` chunks of `size` bytes cut from the front of `input`: chunk i holds input
   * bytes [i*size, (i+1)*size), padded with zeros where the input is shorter; input past
   * count*size is not used.
   */
  function Split(input: seq<byte>, size: nat, count: nat): (chunks: seq<seq<byte>>)
    ensures |chunks| == count && Uniform(chunks, size)
    ensures forall i, j {:trigger chunks[i][j]} :: 0 <= i < count && 0 <= j < size ==>
      chunks[i][j] == if i * size + j < |input| then input[i * size + j] else 0
  {
    seq(count, i requires 0 <= i < count => Chunk(input, size, i))
  }

  /** Chunk i of Split: bytes i*size .. i*size+size-1 of the input, zero-padded. */
  function Chunk(input: seq<byte>, size: nat, i: nat): (c: seq<byte>)
    ensures |c| == size
    ensures forall j :: 0 <= j < size ==> c[j] == if i * size + j < |input| then input[i * size + j] else 0
  {
    if i * size < |input| then Fit(input[i * size..], size) else Zeros(size)
  }

  /** Splitting into chunks and flattening them back gives the input, zero-padded. */
  lemma SplitFlatten(input: seq<byte>, size: nat, count: nat)
    requires |input| <= count * size
    ensures Flatten(Split(input, size, count)) == input + Zeros(count * size - |input|)
  {
    var chunks := Split(input, size, count);
    FlattenUniform(chunks, size);
    var padded := input + Zeros(count * size - |input|);
    forall x | 0 <= x < count * size
      ensures Flatten(chunks)[x] == padded[x]
    {
      var i, j := DivBelow(x, size, count);
      assert chunks[i][j] == Flatten(chunks)[i * size + j];
    }
  }

  /** The first min(n, |s|) bytes of s. */
  function Take(s: seq<byte>, n: nat): (t: seq<byte>)
    ensures |t| == if n < |s| then n else |s|
    ensures t == s[..|t|]
  {
    if n < |s| then s[..n] else s
  }

  /** Taking from a longer sequence: the old prefix, then what still fits of the new part. */
  lemma TakeAppend(s: seq<byte>, c: seq<byte>, n: nat)
    ensures Take(s + c, n) == Take(s, n) + c[..if n - |Take(s, n)| < |c| then n - |Take(s, n)| else |c|]
  {
    if n < |s| {
      assert (s + c)[..n] == s[..n];
    } else {
      assert (s + c)[..|s|] == s;
    }
  }

  /** The bytes of an ASCII string, as Go's []byte("...") gives them. */
  function Ascii(s: string): (b: seq<byte>)
    ensures |b| == |s|
  {
    seq(|s|, i requires 0 <= i < |s| => ((s[i] as int) % 256) as byte)
  }

  /** Go's copy of piece into chunk[pos ..]: the chunk with bytes pos .. pos + |piece| - 1 replaced. */
  function Overlay(chunk: seq<byte>, pos: nat, piece: seq<byte>): (r: seq<byte>)
    requires pos + |piece| <= |chunk|
    ensures |r| == |chunk|
  {
    chunk[..pos] + piece + chunk[pos + |piece|..]
  }

  /** Byte i of an overlaid chunk comes from the piece inside pos .. pos + |piece| - 1, from the chunk elsewhere. */
  lemma OverlayAt(chunk: seq<byte>, pos: nat, piece: seq<byte>, i: nat)
    requires pos + |piece| <= |chunk| && i < |chunk|
    ensures Overlay(chunk, pos, piece)[i] == if pos <= i < pos + |piece| then piece[i - pos] else chunk[i]
  {
  }
}
