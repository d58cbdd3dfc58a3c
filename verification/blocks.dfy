/** Scalars, commitments and the byte codec of the block layer: the generator
    basis and `commit`, the 32-byte word reader `chunk_to_scalars`, the block
    splitter `block_to_chunks` and the test-data generator `random_u8_slice`. */
module Blocks {
  import opened Wrappers
  import opened Field
  import opened LinAlg

  type Byte = x: int | 0 <= x < 256

  const U128_BOUND: int := 0x1_0000_0000_0000_0000_0000_0000_0000_0000

  type U128 = x: int | 0 <= x < U128_BOUND

  /** The error strings of the block layer, one constructor per message. */
  datatype Error =
    | ChunkSizeTooLarge
    | ChunkSizeNotDivisibleBy32
    | BlockSizeNotDivisibleByNumChunks

  /** A committer owns the public generator basis. */
  datatype Committer = Committer(generators: seq<Point>)

  function Logs(ps: seq<Point>): (r: Vector)
    ensures |r| == |ps|
    ensures forall i :: 0 <= i < |ps| ==> r[i] == ps[i].log
  {
    seq(|ps|, i requires 0 <= i < |ps| => ps[i].log)
  }

  /** `RistrettoPoint::multiscalar_mul`: the sum of s[i] * ps[i]. The library
      asserts that both sequences have the same length. */
  function MultiscalarMul(s: Vector, ps: seq<Point>): (r: Point)
    requires |s| == |ps|
    ensures r.log == Dot(s, Logs(ps))
  {
    if |s| == 0 then Identity
    else
      assert Logs(ps)[1..] == Logs(ps[1..]);
      PointAdd(ScalarMul(s[0], ps[0]), MultiscalarMul(s[1..], ps[1..]))
  }

  /** `generators(n)`: the basepoint times one random 128-bit scalar per
      generator; the random draws are the parameter `seeds`. */
  function Generators(n: nat, seeds: seq<U128>): (gs: seq<Point>)
    requires |seeds| == n
    ensures |gs| == n
    ensures forall i :: 0 <= i < n ==> gs[i] == ScalarMul(seeds[i], Basepoint)
  {
    seq(n, i requires 0 <= i < n => ScalarMul(seeds[i], Basepoint))
  }

  function NewCommitter(n: nat, seeds: seq<U128>): (c: Committer)
    requires |seeds| == n
    ensures Len(c) == n
    ensures forall i :: 0 <= i < n ==> c.generators[i].log == seeds[i]
  {
    MulOneAll(seeds);
    Committer(Generators(n, seeds))
  }

  lemma MulOneAll(seeds: seq<U128>)
    ensures forall i :: 0 <= i < |seeds| ==> Mul(seeds[i], 1) == seeds[i]
  {
  }

  function Len(c: Committer): nat {
    |c.generators|
  }

  /** `Committer::commit`: fails when there are more scalars than generators,
      otherwise the multiscalar product with the first |scalars| generators. */
  function Commit(c: Committer, scalars: Vector): (r: Result<Point, Error>)
    ensures r.Failure? <==> |scalars| > Len(c)
    ensures r.Failure? ==> r.error == ChunkSizeTooLarge
    ensures r.Success? ==> r.value.log == Dot(scalars, Logs(c.generators)[..|scalars|])
  {
    if |scalars| > |c.generators| then Failure(ChunkSizeTooLarge)
    else
      assert Logs(c.generators[..|scalars|]) == Logs(c.generators)[..|scalars|];
      Success(MultiscalarMul(scalars, c.generators[..|scalars|]))
  }

  /** The commitment is linear: commit(a*u + b*v) == a*commit(u) + b*commit(v). */
  lemma CommitLinear(c: Committer, a: Scalar, u: Vector, b: Scalar, v: Vector)
    requires |u| == |v| <= Len(c)
    ensures Commit(c, VAdd(VScale(a, u), VScale(b, v)))
         == Success(PointAdd(ScalarMul(a, Commit(c, u).value), ScalarMul(b, Commit(c, v).value)))
  {
    var g := Logs(c.generators)[..|u|];
    DotAdd(VScale(a, u), VScale(b, v), g);
    DotScale(a, u, g);
    DotScale(b, v, g);
  }

  /** Two committers that agree on the first |scalars| generators commit alike. */
  lemma CommitUsesPrefix(c1: Committer, c2: Committer, scalars: Vector)
    requires |scalars| <= Len(c1) && |scalars| <= Len(c2)
    requires c1.generators[..|scalars|] == c2.generators[..|scalars|]
    ensures Commit(c1, scalars) == Commit(c2, scalars)
  {
    assert Logs(c1.generators)[..|scalars|] == Logs(c2.generators)[..|scalars|] by {
      forall i | 0 <= i < |scalars|
        ensures Logs(c1.generators)[i] == Logs(c2.generators)[i]
      {
        assert c1.generators[..|scalars|][i] == c2.generators[..|scalars|][i];
      }
    }
  }

  // ---------------------------------------------------------------------------
  // Little-endian words

  function Pow256(n: nat): (p: nat)
    ensures p > 0
  {
    if n == 0 then 1 else 256 * Pow256(n - 1)
  }

  /** The little-endian value of a byte string. */
  function LeValue(bs: seq<Byte>): nat {
    if |bs| == 0 then 0 else bs[0] + 256 * LeValue(bs[1..])
  }

  /** The n-byte little-endian encoding of x (x taken modulo 256^n). */
  function LeEncode(x: nat, n: nat): (bs: seq<Byte>)
    ensures |bs| == n
  {
    if n == 0 then [] else [x % 256] + LeEncode(x / 256, n - 1)
  }

  lemma {:induction false} LeValueBound(bs: seq<Byte>)
    ensures LeValue(bs) < Pow256(|bs|)
  {
    if |bs| > 0 {
      LeValueBound(bs[1..]);
    }
  }

  lemma {:induction false} LeEncodeValue(x: nat, n: nat)
    requires x < Pow256(n)
    ensures LeValue(LeEncode(x, n)) == x
  {
    if n > 0 {
      LeEncodeValue(x / 256, n - 1);
      assert LeEncode(x, n)[1..] == LeEncode(x / 256, n - 1);
    }
  }

  lemma {:induction false} LeValueEncode(bs: seq<Byte>)
    ensures LeEncode(LeValue(bs), |bs|) == bs
  {
    if |bs| > 0 {
      LeValueEncode(bs[1..]);
      assert LeValue(bs) % 256 == bs[0];
      assert LeValue(bs) / 256 == LeValue(bs[1..]);
    }
  }

  /** A zero most-significant byte does not contribute to the value. */
  lemma {:induction false} LeValueDropTopZero(bs: seq<Byte>)
    requires |bs| > 0 && bs[|bs| - 1] == 0
    ensures LeValue(bs) == LeValue(bs[..|bs| - 1])
  {
    if |bs| > 1 {
      assert bs[1..][..|bs| - 2] == bs[..|bs| - 1][1..];
      LeValueDropTopZero(bs[1..]);
    }
  }

  lemma Pow256Of31()
    ensures Pow256(31) < L
  {
    assert Pow256(8) == 0x1_00000000_00000000;
    assert Pow256(16) == 0x1_00000000_00000000_00000000_00000000;
    assert Pow256(24) == 0x1_00000000_00000000_00000000_00000000_00000000_00000000;
    assert Pow256(31) == 0x1_00000000_00000000_00000000_00000000_00000000_00000000_00000000_000000;
  }

  /** A 32-byte word whose top byte is zero is below 2^248 < L, so reading it
      into the field involves no reduction. */
  lemma WordBelowOrder(w: seq<Byte>)
    requires |w| == 32 && w[31] == 0
    ensures LeValue(w) < L
  {
    LeValueDropTopZero(w);
    LeValueBound(w[..31]);
    Pow256Of31();
  }

  // ---------------------------------------------------------------------------
  // chunk_to_scalars

  /** The scalars of the 32-byte words of `chunk`, each read modulo L. */
  function Words(chunk: seq<Byte>): (ws: Vector)
    requires |chunk| % 32 == 0
    ensures |ws| == |chunk| / 32
    ensures forall i :: 0 <= i < |ws| ==> ws[i] == LeValue(chunk[32 * i..32 * i + 32]) % L
  {
    if |chunk| == 0 then []
    else
      var rest := Words(chunk[32..]);
      assert forall i :: 0 <= i < |rest| ==> chunk[32..][32 * i..32 * i + 32] == chunk[32 * (i + 1)..32 * (i + 1) + 32];
      [Reduce(LeValue(chunk[..32]))] + rest
  }

  /** `chunk_to_scalars`: fails unless the length is a multiple of 32; reads
      each 32-byte little-endian word modulo L. */
  function ChunkToScalars(chunk: seq<Byte>): (r: Result<Vector, Error>)
    ensures r.Failure? <==> |chunk| % 32 != 0
    ensures r.Failure? ==> r.error == ChunkSizeNotDivisibleBy32
    ensures r.Success? ==> |r.value| == |chunk| / 32
    ensures r.Success? ==> forall i :: 0 <= i < |r.value| ==> r.value[i] == LeValue(chunk[32 * i..32 * i + 32]) % L
  {
    if |chunk| % 32 != 0 then Failure(ChunkSizeNotDivisibleBy32) else Success(Words(chunk))
  }

  /** A chunk as the system expects it: whole 32-byte words whose top byte is zero. */
  ghost predicate WellFormedChunk(chunk: seq<Byte>) {
    && |chunk| % 32 == 0
    && forall i :: 0 <= i < |chunk| && i % 32 == 31 ==> chunk[i] == 0
  }

  /** The inverse of the word reader: each scalar written as 32 little-endian bytes. */
  function ScalarsToBytes(ws: Vector): (bs: seq<Byte>)
    ensures |bs| == 32 * |ws|
  {
    if |ws| == 0 then [] else LeEncode(ws[0], 32) + ScalarsToBytes(ws[1..])
  }

  /** Dropping the first word of a well-formed chunk leaves a well-formed chunk. */
  lemma WellFormedTail(chunk: seq<Byte>)
    requires WellFormedChunk(chunk) && |chunk| >= 32
    ensures WellFormedChunk(chunk[32..])
  {
    var rest := chunk[32..];
    forall i | 0 <= i < |rest| && i % 32 == 31
      ensures rest[i] == 0
    {
      assert (i + 32) % 32 == 31;
      assert rest[i] == chunk[i + 32];
    }
  }

  /** The first word of a well-formed chunk is read and written back unchanged. */
  lemma FirstWordRoundTrip(chunk: seq<Byte>)
    requires WellFormedChunk(chunk) && |chunk| >= 32
    ensures LeEncode(Reduce(LeValue(chunk[..32])), 32) == chunk[..32]
  {
    var w := chunk[..32];
    assert w[31] == chunk[31];
    WordBelowOrder(w);
    LeValueEncode(w);
  }

  /** Writing back the words of a well-formed chunk reproduces it. */
  lemma {:induction false} ChunkRoundTrip(chunk: seq<Byte>)
    requires WellFormedChunk(chunk)
    ensures ChunkToScalars(chunk).Success?
    ensures ScalarsToBytes(ChunkToScalars(chunk).value) == chunk
    decreases |chunk|
  {
    if |chunk| > 0 {
      var ws := Words(chunk);
      var rest := chunk[32..];
      WellFormedTail(chunk);
      ChunkRoundTrip(rest);
      FirstWordRoundTrip(chunk);
      assert ws == [Reduce(LeValue(chunk[..32]))] + Words(rest);
      assert ws[1..] == Words(rest);
      calc {
        ScalarsToBytes(ws);
        LeEncode(ws[0], 32) + ScalarsToBytes(ws[1..]);
        chunk[..32] + rest;
        chunk;
      }
    }
  }

  /** No two distinct well-formed chunks read to the same scalars. */
  lemma ChunkToScalarsInjective(a: seq<Byte>, b: seq<Byte>)
    requires WellFormedChunk(a) && WellFormedChunk(b)
    requires ChunkToScalars(a) == ChunkToScalars(b)
    ensures a == b
  {
    ChunkRoundTrip(a);
    ChunkRoundTrip(b);
  }

  // ---------------------------------------------------------------------------
  // random_u8_slice and block_to_chunks

  /** `random_u8_slice`: `length` random bytes (given as `random`) with every byte
      at an index congruent to 31 modulo 32 cleared. */
  method RandomU8Slice(length: nat, random: seq<Byte>) returns (ret: seq<Byte>)
    requires |random| == length
    ensures |ret| == length
    ensures forall i :: 0 <= i < length ==> ret[i] == (if i % 32 == 31 then 0 else random[i])
  {
    ret := random;
    var i := 31;
    while i < length
      invariant i % 32 == 31 && 31 <= i
      invariant |ret| == length
      invariant forall k :: 0 <= k < length ==> ret[k] == (if k % 32 == 31 && k < i then 0 else random[k])
    {
      ret := ret[i := 0];
      i := i + 32;
    }
  }

  /** A random slice whose length is a multiple of 32 is a well-formed chunk. */
  lemma RandomSliceWellFormed(length: nat, random: seq<Byte>, ret: seq<Byte>)
    requires length % 32 == 0 && |random| == length && |ret| == length
    requires forall i :: 0 <= i < length ==> ret[i] == (if i % 32 == 31 then 0 else random[i])
    ensures WellFormedChunk(ret)
  {
  }

  function Concat<T>(parts: seq<seq<T>>): seq<T> {
    if |parts| == 0 then [] else parts[0] + Concat(parts[1..])
  }

  /** Rust's `slice::chunks(size)`: consecutive pieces of `size` elements, the
      last one possibly shorter. */
  function Slices(s: seq<Byte>, size: nat): (parts: seq<seq<Byte>>)
    requires size > 0
    ensures Concat(parts) == s
    ensures forall k :: 0 <= k < |parts| ==> 0 < |parts[k]| <= size && (k < |parts| - 1 ==> |parts[k]| == size)
    decreases |s|
  {
    if |s| == 0 then []
    else
      var m := if |s| < size then |s| else size;
      assert s == s[..m] + s[m..];
      [s[..m]] + Slices(s[m..], size)
  }

  lemma MulPred(a: nat, b: nat)
    requires a > 0
    ensures (a - 1) * b == a * b - b
    ensures 0 <= (a - 1) * b
  {
  }

  lemma {:induction false} SlicesOfMultiple(s: seq<Byte>, size: nat, n: nat)
    requires size > 0 && |s| == n * size
    ensures |Slices(s, size)| == n
    ensures forall k :: 0 <= k < n ==> |Slices(s, size)[k]| == size
  {
    if n > 0 {
      MulPred(n, size);
      var tail := s[size..];
      SlicesOfMultiple(tail, size, n - 1);
      assert Slices(s, size) == [s[..size]] + Slices(tail, size);
    }
  }

  /** `block_to_chunks`: fails unless the block length is a multiple of
      `numChunks`, otherwise the block cut into `numChunks` equal slices. Rust
      divides by `numChunks` and cannot cut into empty slices, hence the
      requirements. */
  function BlockToChunks(block: seq<Byte>, numChunks: nat): (r: Result<seq<seq<Byte>>, Error>)
    requires numChunks > 0 && |block| > 0
    ensures r.Failure? <==> |block| % numChunks != 0
    ensures r.Failure? ==> r.error == BlockSizeNotDivisibleByNumChunks
    ensures r.Success? ==> |r.value| == numChunks && Concat(r.value) == block
    ensures r.Success? ==> forall k :: 0 <= k < numChunks ==> |r.value[k]| == |block| / numChunks
  {
    if |block| % numChunks != 0 then Failure(BlockSizeNotDivisibleByNumChunks)
    else
      var size := |block| / numChunks;
      SlicesOfMultiple(block, size, numChunks);
      Success(Slices(block, size))
  }
}
