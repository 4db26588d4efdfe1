/**
 * The erasure-shard helper of the RAID simulator: cutting a logical stripe into
 * data shards, adding parity shards, and rebuilding lost shards.
 *
 * The Reed-Solomon library the helper delegates to is a collaborator here: a `Code`
 * supplies, byte by byte, the parity shards of a set of data shards and the content of a
 * lost shard. That a code can rebuild any p lost shards (it is maximum-distance
 * separable) is the hypothesis `Recovers`, not an axiom; `XorCode` is a concrete code
 * with one parity shard that is proved to satisfy it.
 */
module RsUtil {
  import opened Wrappers
  import opened Bytes
  import GoInt
  import Arith

  /** One slot of a shard array. `None` is the nil slice that marks a lost shard. */
  type Shard = Option<seq<byte>>

  /**
   * The library's encoder. `parity(data, i, j)` is byte j of parity shard i computed from
   * the data shards; `recover(shards, i, j)` is byte j of the lost shard i rebuilt from
   * the shards that are still present.
   */
  datatype Code = Code(
    parity: (seq<seq<byte>>, nat, nat) -> byte,
    recover: (seq<Shard>, nat, nat) -> byte)

  datatype CodecError = TooManyMissingShards(missing: nat, parityShards: nat)

  /** The text of the error, as the Go helper formats it. */
  function Message(e: CodecError): string
  {
    "too many missing shards (" + GoInt.Format(e.missing) + "), only "
      + GoInt.Format(e.parityShards) + " parity shards available"
  }

  // ---------------------------------------------------------------- encoding

  /** The p parity shards the code computes for `data`, each `size` bytes long. */
  function ParityShards(code: Code, data: seq<seq<byte>>, p: nat, size: nat): seq<seq<byte>>
  {
    seq(p, i requires 0 <= i < p => seq(size, j requires 0 <= j < size => code.parity(data, i, j)))
  }

  /** A systematic codeword: the data shards unchanged, then the parity shards. */
  function Codeword(code: Code, data: seq<seq<byte>>, p: nat, size: nat): seq<seq<byte>>
  {
    data + ParityShards(code, data, p, size)
  }

  /**
   * EncodeStripeShards: numData + numParity shards of `size` bytes each, data first.
   * The library refuses shards of zero bytes, and every caller passes size > 0.
   */
  function EncodeStripeShards(input: seq<byte>, size: nat, code: Code, k: nat, p: nat): (shards: seq<seq<byte>>)
    requires size > 0 && k > 0
    ensures |shards| == k + p && Uniform(shards, size)
    ensures shards[..k] == Split(input, size, k)
    ensures shards == Codeword(code, shards[..k], p, size)
  {
    var data := Split(input, size, k);
    assert (data + ParityShards(code, data, p, size))[..k] == data;
    Codeword(code, data, p, size)
  }

  /** Input beyond the k*size bytes of a stripe does not change the shards. */
  lemma EncodeIgnoresTail(input: seq<byte>, size: nat, code: Code, k: nat, p: nat)
    requires size > 0 && k > 0 && |input| >= k * size
    ensures EncodeStripeShards(input, size, code, k, p)
         == EncodeStripeShards(input[..k * size], size, code, k, p)
  {
    var a, b := Split(input, size, k), Split(input[..k * size], size, k);
    forall i | 0 <= i < k
      ensures a[i] == b[i]
    {
      forall j | 0 <= j < size
        ensures a[i][j] == b[i][j]
      {
        assert i * size + j < k * size by {
          Arith.MulMono(i + 1, k, size);
          assert (i + 1) * size == i * size + size;
        }
        assert a[i][j] == input[i * size + j] == b[i][j];
      }
    }
    assert a == b;
  }

  /** An empty input gives all-zero data shards. */
  lemma EncodeEmptyData(size: nat, code: Code, k: nat, p: nat)
    requires size > 0 && k > 0
    ensures forall i :: 0 <= i < k ==> EncodeStripeShards([], size, code, k, p)[i] == Zeros(size)
  {
    var shards := EncodeStripeShards([], size, code, k, p);
    forall i | 0 <= i < k
      ensures shards[i] == Zeros(size)
    {
      assert shards[i] == shards[..k][i];
    }
  }

  // ---------------------------------------------------------- reconstruction

  /** The number of nil entries, as the Go helper counts them. */
  function MissingCount(shards: seq<Shard>): (m: nat)
    ensures m <= |shards|
    ensures m == 0 <==> forall i :: 0 <= i < |shards| ==> shards[i].Some?
  {
    if shards == [] then 0
    else
      var n := |shards| - 1;
      assert forall i :: 0 <= i < n ==> shards[..n][i] == shards[i];
      MissingCount(shards[..n]) + (if shards[n].None? then 1 else 0)
  }

  lemma {:induction false} MissingCountAppend(shards: seq<Shard>, s: Shard)
    ensures MissingCount(shards + [s]) == MissingCount(shards) + (if s.None? then 1 else 0)
  {
    assert (shards + [s])[..|shards|] == shards;
  }

  /** Two distinct lost shards make at least two missing. */
  lemma {:induction false} MissingCountAtLeastTwo(shards: seq<Shard>, a: nat, b: nat)
    requires a < |shards| && b < |shards| && a != b
    requires shards[a].None? && shards[b].None?
    ensures MissingCount(shards) >= 2
    decreases |shards|
  {
    var n := |shards| - 1;
    var prefix := shards[..n];
    if a == n || b == n {
      var other := if a == n then b else a;
      assert prefix[other].None?;
    } else {
      assert prefix[a].None? && prefix[b].None?;
      MissingCountAtLeastTwo(prefix, a, b);
    }
  }

  /** The content of a shard array in which nothing is missing. */
  function Values(shards: seq<Shard>): seq<seq<byte>>
    requires forall i :: 0 <= i < |shards| ==> shards[i].Some?
  {
    seq(|shards|, i requires 0 <= i < |shards| => shards[i].value)
  }

  /** A complete shard array, as the library leaves it after filling every slot. */
  function AsShards(full: seq<seq<byte>>): seq<Shard>
  {
    seq(|full|, i requires 0 <= i < |full| => Some(full[i]))
  }

  /** The size of the first present shard: the size the library rebuilds lost shards to. */
  function ShardSize(shards: seq<Shard>): nat
  {
    if shards == [] then 0
    else if shards[0].Some? then |shards[0].value|
    else ShardSize(shards[1..])
  }

  /** When every present shard has `size` bytes, the library rebuilds lost shards to `size` bytes. */
  lemma {:induction false} ShardSizeUniform(shards: seq<Shard>, size: nat, present: nat)
    requires present < |shards| && shards[present].Some?
    requires forall i :: 0 <= i < |shards| && shards[i].Some? ==> |shards[i].value| == size
    ensures ShardSize(shards) == size
    decreases |shards|
  {
    if shards[0].None? {
      var rest := shards[1..];
      assert forall i :: 0 <= i < |rest| ==> rest[i] == shards[i + 1];
      ShardSizeUniform(rest, size, present - 1);
    }
  }

  /** A shard array with every slot nil misses all of them. */
  lemma {:induction false} MissingCountAll(shards: seq<Shard>)
    requires forall i :: 0 <= i < |shards| ==> shards[i].None?
    ensures MissingCount(shards) == |shards|
    decreases |shards|
  {
    if shards != [] {
      var n := |shards| - 1;
      assert forall i :: 0 <= i < n ==> shards[..n][i] == shards[i];
      MissingCountAll(shards[..n]);
    }
  }

  /** The library's Reconstruct: present shards are kept, each lost one is rebuilt. */
  function Filled(code: Code, shards: seq<Shard>): seq<seq<byte>>
  {
    seq(|shards|, i requires 0 <= i < |shards| =>
      if shards[i].Some? then shards[i].value
      else seq(ShardSize(shards), j requires 0 <= j < ShardSize(shards) => code.recover(shards, i, j)))
  }

  /**
   * ReconstructStripeShards as a function of the shard array it is given: nothing
   * missing leaves the array as it is; more missing shards than parity shards is an
   * error and the encoder is not consulted; otherwise the encoder fills the gaps.
   */
  function Reconstruct(shards: seq<Shard>, code: Code, p: nat): (r: Result<seq<seq<byte>>, CodecError>)
    ensures r.Err? <==> MissingCount(shards) > p
    ensures r.Err? ==> r.error == TooManyMissingShards(MissingCount(shards), p)
    ensures r.Ok? ==> |r.value| == |shards|
    ensures r.Ok? ==> forall i :: 0 <= i < |shards| && shards[i].Some? ==> r.value[i] == shards[i].value
    ensures MissingCount(shards) == 0 ==> r == Ok(Values(shards))
  {
    var missing := MissingCount(shards);
    if missing == 0 then Ok(Values(shards))
    else if missing > p then Err(TooManyMissingShards(missing, p))
    else Ok(Filled(code, shards))
  }

  /** With fewer parity shards than shards, every shard Reconstruct returns has the size of the surviving ones. */
  lemma ReconstructSized(shards: seq<Shard>, code: Code, p: nat, size: nat)
    requires p < |shards| && Reconstruct(shards, code, p).Ok?
    requires forall i :: 0 <= i < |shards| && shards[i].Some? ==> |shards[i].value| == size
    ensures Uniform(Reconstruct(shards, code, p).value, size)
  {
    if MissingCount(shards) > 0 {
      if forall i :: 0 <= i < |shards| ==> shards[i].None? {
        MissingCountAll(shards);
      }
      var present :| 0 <= present < |shards| && shards[present].Some?;
      ShardSizeUniform(shards, size, present);
    }
  }

  /**
   * ReconstructStripeShards on the caller's shard array, which the library fills in
   * place; on an error the array is left as it was.
   */
  method ReconstructStripeShards(shards: array<Shard>, code: Code, numParityShards: nat)
    returns (err: Option<CodecError>)
    modifies shards
    ensures Reconstruct(old(shards[..]), code, numParityShards).Err? ==>
      err == Some(Reconstruct(old(shards[..]), code, numParityShards).error) && shards[..] == old(shards[..])
    ensures Reconstruct(old(shards[..]), code, numParityShards).Ok? ==>
      err == None && shards[..] == AsShards(Reconstruct(old(shards[..]), code, numParityShards).value)
  {
    var missingShardCount := 0;
    for i := 0 to shards.Length
      invariant missingShardCount == MissingCount(shards[..i])
      invariant shards[..] == old(shards[..])
    {
      assert shards[..i + 1] == shards[..i] + [shards[i]];
      MissingCountAppend(shards[..i], shards[i]);
      if shards[i].None? {
        missingShardCount := missingShardCount + 1;
      }
    }
    assert shards[..shards.Length] == shards[..];

    if missingShardCount == 0 {
      assert shards[..] == AsShards(Values(shards[..]));
      return None;
    }
    if missingShardCount > numParityShards {
      return Some(TooManyMissingShards(missingShardCount, numParityShards));
    }

    // encoder.Reconstruct(shards)
    var full := Filled(code, shards[..]);
    forall i | 0 <= i < shards.Length {
      shards[i] := Some(full[i]);
    }
    assert shards[..] == AsShards(full);
    err := None;
  }

  // ------------------------------------------------------ the MDS hypothesis

  /** e is w with some shards lost: every shard still present is the one of w. */
  ghost predicate IsErasureOf(e: seq<Shard>, w: seq<seq<byte>>)
  {
    |e| == |w| && forall i :: 0 <= i < |e| && e[i].Some? ==> e[i].value == w[i]
  }

  /**
   * The code is maximum-distance separable for k data and p parity shards: from any
   * codeword with at most p shards lost, the library rebuilds exactly that codeword.
   */
  ghost predicate Recovers(code: Code, k: nat, p: nat)
  {
    forall data: seq<seq<byte>>, size: nat, e: seq<Shard>
      {:trigger IsErasureOf(e, Codeword(code, data, p, size))} ::
      |data| == k && size > 0 && Uniform(data, size)
      && IsErasureOf(e, Codeword(code, data, p, size)) && MissingCount(e) <= p
      ==> Filled(code, e) == Codeword(code, data, p, size)
  }

  /** A shard array with nothing missing is its own content. */
  lemma CompleteErasure(e: seq<Shard>, w: seq<seq<byte>>)
    requires IsErasureOf(e, w) && MissingCount(e) == 0
    ensures Values(e) == w
  {
  }

  /** Under the MDS hypothesis, ReconstructStripeShards gives back any codeword with at most p shards lost. */
  lemma ReconstructCodeword(code: Code, k: nat, p: nat, data: seq<seq<byte>>, size: nat, e: seq<Shard>)
    requires Recovers(code, k, p) && size > 0 && |data| == k && Uniform(data, size)
    requires IsErasureOf(e, Codeword(code, data, p, size)) && MissingCount(e) <= p
    ensures Reconstruct(e, code, p) == Ok(Codeword(code, data, p, size))
  {
    if MissingCount(e) == 0 {
      CompleteErasure(e, Codeword(code, data, p, size));
    }
  }

  /**
   * After EncodeStripeShards, losing at most numParity shards (data or parity) and
   * calling ReconstructStripeShards gives back every shard.
   */
  lemma ReconstructAfterEncode(code: Code, k: nat, p: nat, input: seq<byte>, size: nat, e: seq<Shard>)
    requires Recovers(code, k, p) && size > 0 && k > 0
    requires IsErasureOf(e, EncodeStripeShards(input, size, code, k, p)) && MissingCount(e) <= p
    ensures Reconstruct(e, code, p) == Ok(EncodeStripeShards(input, size, code, k, p))
  {
    var w := EncodeStripeShards(input, size, code, k, p);
    assert Uniform(w[..k], size);
    ReconstructCodeword(code, k, p, w[..k], size, e);
  }

  // ------------------------------------------------------- the XOR code (p = 1)

  function ByteAt(s: seq<byte>, j: nat): byte
  {
    if j < |s| then s[j] else 0
  }

  /** Byte j of the XOR of all shards. */
  function XorColumn(shards: seq<seq<byte>>, j: nat): byte
  {
    if shards == [] then 0
    else XorColumn(shards[..|shards| - 1], j) ^ ByteAt(shards[|shards| - 1], j)
  }

  /** Byte j of the XOR of every present shard other than shard `lost`. */
  function XorPresent(shards: seq<Shard>, lost: nat, j: nat): byte
  {
    if shards == [] then 0
    else
      var n := |shards| - 1;
      XorPresent(shards[..n], lost, j)
        ^ (if n != lost && shards[n].Some? then ByteAt(shards[n].value, j) else 0)
  }

  /** Single parity as the RAID5 tests fix it: parity is the byte-wise XOR of the data. */
  const XorCode: Code := Code(
    (data: seq<seq<byte>>, i: nat, j: nat) => XorColumn(data, j),
    (shards: seq<Shard>, i: nat, j: nat) => XorPresent(shards, i, j))

  /** With every shard but `lost` present, what XorPresent skips is what XorColumn adds. */
  lemma {:induction false} XorPresentComplement(e: seq<Shard>, w: seq<seq<byte>>, lost: nat, j: nat)
    requires IsErasureOf(e, w) && lost < |e|
    requires forall u :: 0 <= u < |e| && u != lost ==> e[u].Some?
    ensures XorPresent(e, lost, j) ^ ByteAt(w[lost], j) == XorColumn(w, j)
    decreases |e|
  {
    var n := |e| - 1;
    if n == lost {
      assert XorPresent(e[..n], lost, j) == XorColumn(w[..n], j) by {
        XorPresentAll(e[..n], w[..n], lost, j);
      }
    } else {
      assert IsErasureOf(e[..n], w[..n]);
      XorPresentComplement(e[..n], w[..n], lost, j);
      assert w[..n][lost] == w[lost];
    }
  }

  /** Every shard present and `lost` beyond them: XorPresent is the plain XOR. */
  lemma {:induction false} XorPresentAll(e: seq<Shard>, w: seq<seq<byte>>, lost: nat, j: nat)
    requires IsErasureOf(e, w) && lost >= |e|
    requires forall u :: 0 <= u < |e| ==> e[u].Some?
    ensures XorPresent(e, lost, j) == XorColumn(w, j)
    decreases |e|
  {
    if e != [] {
      var n := |e| - 1;
      assert IsErasureOf(e[..n], w[..n]);
      XorPresentAll(e[..n], w[..n], lost, j);
    }
  }

  /** A data-plus-XOR-parity codeword XORs to zero in every column. */
  lemma XorCodewordColumn(data: seq<seq<byte>>, size: nat, j: nat)
    requires j < size
    ensures XorColumn(Codeword(XorCode, data, 1, size), j) == 0
  {
    var w := Codeword(XorCode, data, 1, size);
    assert w[..|w| - 1] == data;
    assert w[|w| - 1][j] == XorColumn(data, j);
  }

  /** The XOR code rebuilds any single lost shard: it satisfies the MDS hypothesis for p = 1. */
  lemma XorRecovers(k: nat)
    requires k > 0
    ensures Recovers(XorCode, k, 1)
  {
    forall data: seq<seq<byte>>, size: nat, e: seq<Shard> |
      |data| == k && size > 0 && Uniform(data, size)
      && IsErasureOf(e, Codeword(XorCode, data, 1, size)) && MissingCount(e) <= 1
      ensures Filled(XorCode, e) == Codeword(XorCode, data, 1, size)
    {
      var w := Codeword(XorCode, data, 1, size);
      assert Uniform(w, size);
      forall t | 0 <= t < |e| && e[t].None?
        ensures Filled(XorCode, e)[t] == w[t]
      {
        forall u | 0 <= u < |e| && u != t
          ensures e[u].Some?
        {
          if e[u].None? {
            MissingCountAtLeastTwo(e, t, u);
          }
        }
        var present := if t == 0 then 1 else 0;
        assert e[present].Some?;
        ShardSizeOfErasure(e, w, size, present);
        forall j | 0 <= j < size
          ensures XorPresent(e, t, j) == w[t][j]
        {
          XorPresentComplement(e, w, t, j);
          XorCodewordColumn(data, size, j);
        }
      }
    }
  }

  /** In an erasure of a codeword of equal-sized shards, ShardSize finds that size. */
  lemma {:induction false} ShardSizeOfErasure(e: seq<Shard>, w: seq<seq<byte>>, size: nat, present: nat)
    requires IsErasureOf(e, w) && Uniform(w, size)
    requires present < |e| && e[present].Some?
    ensures ShardSize(e) == size
    decreases |e|
  {
    if e[0].None? {
      assert IsErasureOf(e[1..], w[1..]);
      ShardSizeOfErasure(e[1..], w[1..], size, present - 1);
    }
  }

  /** All-zero data has all-zero XOR parity (the 2+1 empty-input case). */
  lemma {:induction false} XorOfZeros(data: seq<seq<byte>>, size: nat, j: nat)
    requires forall i :: 0 <= i < |data| ==> data[i] == Zeros(size)
    ensures XorColumn(data, j) == 0
    decreases |data|
  {
    if data != [] {
      XorOfZeros(data[..|data| - 1], size, j);
    }
  }

  lemma EncodeEmptyXor(size: nat, k: nat)
    requires size > 0 && k > 0
    ensures forall i :: 0 <= i < k + 1 ==> EncodeStripeShards([], size, XorCode, k, 1)[i] == Zeros(size)
  {
    var w := EncodeStripeShards([], size, XorCode, k, 1);
    EncodeEmptyData(size, XorCode, k, 1);
    forall j | 0 <= j < size
      ensures w[k][j] == 0
    {
      XorOfZeros(w[..k], size, j);
    }
  }
}
