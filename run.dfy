/** One whole run of main.c (lines 40-98), the p MPI processes simulated one
    after another: validate, scatter A and B in contiguous row-major chunks
    of local_n * local_n elements, let every rank multiply-accumulate its two
    chunks once into a zeroed local block, and gather the blocks into C.
    There is no skew and no block rotation, so for p > 1 each rank combines
    a contiguous row-major stretch of A with the same stretch of B. */
module Cannon {

  import opened Arith
  import opened LocalMultiply
  import opened Layout
  import opened Config

  /** What one rank holds in localC after main.c:86-95: its two chunks
      multiply-accumulated into a zeroed buffer, which is their product. */
  function LocalBlock(A: seq<int>, B: seq<int>, r: nat, ln: nat): (blk: seq<int>)
    requires (r + 1) * (ln * ln) <= |A| && (r + 1) * (ln * ln) <= |B|
    ensures blk == Product(Chunk(A, r, ln * ln), Chunk(B, r, ln * ln), ln)
  {
    AccumulateFromZero(Chunk(A, r, ln * ln), Chunk(B, r, ln * ln), ln);
    Accumulate(Zeros(ln * ln), Chunk(A, r, ln * ln), Chunk(B, r, ln * ln), ln)
  }

  /** The local blocks of all p ranks, in rank order. */
  function LocalBlocks(A: seq<int>, B: seq<int>, p: nat, ln: nat): (cs: seq<seq<int>>)
    requires p * (ln * ln) <= |A| && p * (ln * ln) <= |B|
    ensures |cs| == p && Uniform(cs, ln * ln)
  {
    seq(p, r requires 0 <= r < p => ChunkFits(p, ln * ln, r); LocalBlock(A, B, r, ln))
  }

  /** The result matrix C a run leaves at the root, or the start-up error
      that ends it with exit status 1. A and B are the n * n matrices the
      root generates. */
  function Run(argc: int, n: nat, p: nat, A: seq<int>, B: seq<int>): (r: Result<seq<int>>)
    requires p >= 1 && |A| == n * n && |B| == n * n
    ensures r.Err? <==> ValidateChecked(argc, n, p).Err?
    ensures r.Err? ==> r.error == ValidateChecked(argc, n, p).error
    ensures r.Ok? ==> |r.value| == n * n
  {
    match ValidateChecked(argc, n, p)
    case Err(e) => Err(e)
    case Ok(g) =>
      ValidateCheckedTiles(argc, n, p);
      var cs := LocalBlocks(A, B, p, g.localN);
      GatherLength(cs, g.localN * g.localN);
      Ok(Gather(cs, g.localN * g.localN))
  }

  /** The range [r * b, (r + 1) * b) of C,
      with b = local_n * local_n, is the product of rank r's chunk of A with
      rank r's chunk of B. */
  lemma RunRank(argc: int, n: nat, p: nat, A: seq<int>, B: seq<int>, r: nat)
    requires p >= 1 && |A| == n * n && |B| == n * n
    requires ValidateChecked(argc, n, p).Ok? && r < p
    ensures var ln := ValidateChecked(argc, n, p).value.localN;
            var C := Run(argc, n, p, A, B).value;
            |C| == n * n == p * (ln * ln) &&
            Chunk(C, r, ln * ln) == Product(Chunk(A, r, ln * ln), Chunk(B, r, ln * ln), ln)
  {
    var ln := ValidateChecked(argc, n, p).value.localN;
    var b := ln * ln;
    ValidateCheckedTiles(argc, n, p);
    var cs := LocalBlocks(A, B, p, ln);
    var C := Gather(cs, b);
    assert Run(argc, n, p, A, B) == Ok(C);
    ScatterGather(cs, b);
    ChunkFits(p, b, r);
    calc {
      Chunk(C, r, b);
      Scatter(C, p, b)[r];
      cs[r];
      LocalBlock(A, B, r, ln);
      Product(Chunk(A, r, b), Chunk(B, r, b), ln);
    }
  }

  /** Rank r's range of C depends only on rank r's chunks of A and B: two
      inputs that agree there give the same entries there. */
  lemma RunLocality(argc: int, n: nat, p: nat, A: seq<int>, B: seq<int>, A': seq<int>, B': seq<int>, r: nat)
    requires p >= 1 && |A| == n * n && |B| == n * n && |A'| == n * n && |B'| == n * n
    requires ValidateChecked(argc, n, p).Ok? && r < p
    requires var ln := ValidateChecked(argc, n, p).value.localN;
             forall t :: r * (ln * ln) <= t < (r + 1) * (ln * ln) && t < n * n ==>
               A[t] == A'[t] && B[t] == B'[t]
    ensures var ln := ValidateChecked(argc, n, p).value.localN;
            forall t :: r * (ln * ln) <= t < (r + 1) * (ln * ln) && t < n * n ==>
              Run(argc, n, p, A, B).value[t] == Run(argc, n, p, A', B').value[t]
  {
    var ln := ValidateChecked(argc, n, p).value.localN;
    var b := ln * ln;
    RunRank(argc, n, p, A, B, r);
    RunRank(argc, n, p, A', B', r);
    ChunkFits(p, b, r);
    assert Chunk(A, r, b) == Chunk(A', r, b);
    assert Chunk(B, r, b) == Chunk(B', r, b);
    var C, C' := Run(argc, n, p, A, B).value, Run(argc, n, p, A', B').value;
    forall t | r * b <= t < (r + 1) * b && t < n * n ensures C[t] == C'[t] {
      assert C[t] == Chunk(C, r, b)[t - r * b];
      assert C'[t] == Chunk(C', r, b)[t - r * b];
    }
  }

  /** With a single process (sqrt_p = 1, local_n = n) the run computes the
      full product C = A × B. */
  lemma RunSingleProcess(n: nat, A: seq<int>, B: seq<int>)
    requires |A| == n * n && |B| == n * n
    ensures Run(2, n, 1, A, B) == Ok(Product(A, B, n))
  {
    ISqrtUnique(1, 1);
    var r := Run(2, n, 1, A, B);
    assert r.Ok?;
    RunRank(2, n, 1, A, B, 0);
    assert Chunk(A, 0, n * n) == A;
    assert Chunk(B, 0, n * n) == B;
    assert Chunk(r.value, 0, n * n) == r.value;
  }

  /** The 4 × 4 matrix holding 1 .. 16 in row-major order. */
  function Counting16(): (A: seq<int>)
    ensures |A| == 16
  {
    seq(16, idx => idx + 1)
  }

  /** With four processes, A = Counting16() and B the identity, the run does
      not return A: rank 0 multiplies the first row of A, read as the block
      [[1, 2], [3, 4]], by the first row of B, read as [[1, 0], [0, 0]], so
      C[1] is 0 where A[1] is 2. */
  lemma FourProcessesIdentity()
    ensures Run(2, 4, 4, Counting16(), Identity(4)).Ok?
    ensures Run(2, 4, 4, Counting16(), Identity(4)).value[1] == 0
    ensures Run(2, 4, 4, Counting16(), Identity(4)).value != Counting16()
  {
    ISqrtUnique(4, 2);
    var A, B := Counting16(), Identity(4);
    var r := Run(2, 4, 4, A, B);
    assert r.Ok?;
    RunRank(2, 4, 4, A, B, 0);
    var a0, b0 := Chunk(A, 0, 4), Chunk(B, 0, 4);
    assert a0 == [1, 2, 3, 4];
    assert b0 == [1, 0, 0, 0] by {
      assert B[1] == 0 && B[2] == 0 && B[3] == 0 by {
        assert 1 / 4 == 0 && 2 / 4 == 0 && 3 / 4 == 0;
      }
    }
    ProductAt(a0, b0, 2, 0, 1);
    assert MatMulEntry(a0, b0, 2, 0, 1) == 0;
    assert Chunk(r.value, 0, 4)[1] == r.value[1];
  }

  /** main.c:86-95 for one rank: allocate localA and localB and fill them
      with the rank's chunks (the scatter), allocate a zeroed localC
      (calloc), and run the local multiply-accumulate once. The block it
      leaves is the product of the rank's two chunks. */
  method RankStep(A: seq<int>, B: seq<int>, r: nat, ln: nat) returns (block: seq<int>)
    requires (r + 1) * (ln * ln) <= |A| && (r + 1) * (ln * ln) <= |B|
    ensures block == Product(Chunk(A, r, ln * ln), Chunk(B, r, ln * ln), ln)
  {
    var b := ln * ln;
    var chunkA, chunkB := Chunk(A, r, b), Chunk(B, r, b);
    var localA := new int[b](t requires 0 <= t < b => chunkA[t]);
    var localB := new int[b](t requires 0 <= t < b => chunkB[t]);
    var localC := new int[b](_ => 0);
    assert localA[..] == chunkA && localB[..] == chunkB;
    assert localC[..] == Zeros(b);
    CannonMatrixMultiply(localA, localB, localC, ln);
    block := localC[..];
    AccumulateFromZero(chunkA, chunkB, ln);
  }
}
