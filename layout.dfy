/** The data layout of main.c's MPI_Scatter and MPI_Gather calls: the root's
    flat buffer is cut into p contiguous chunks of b elements, rank r taking
    elements [r * b, (r + 1) * b), and gathering writes rank r's chunk back
    into that same range (sections 5.6 and 5.5 of the MPI 3.1 standard). */
module Layout {

  import opened Arith

  /** Chunks r < p of size b all fit in a buffer of p * b elements. */
  lemma ChunkFits(p: nat, b: nat, r: nat)
    requires r < p
    ensures (r + 1) * b <= p * b
  {
    MulLe(r + 1, p, b);
  }

  /** The chunk rank r sends or receives: elements [r * b, (r + 1) * b) of X. */
  function Chunk(X: seq<int>, r: nat, b: nat): (c: seq<int>)
    requires (r + 1) * b <= |X|
    ensures |c| == b
  {
    X[r * b .. (r + 1) * b]
  }

  /** What MPI_Scatter with send count b hands to each of the p ranks. */
  function Scatter(X: seq<int>, p: nat, b: nat): (cs: seq<seq<int>>)
    requires p * b <= |X|
    ensures |cs| == p
    ensures forall r :: 0 <= r < p ==> |cs[r]| == b
  {
    seq(p, r requires 0 <= r < p => ChunkFits(p, b, r); Chunk(X, r, b))
  }

  /** The chunks laid end to end in rank order. */
  function Concat(cs: seq<seq<int>>): seq<int>
  {
    if cs == [] then [] else cs[0] + Concat(cs[1..])
  }

  /** Every chunk has b elements. */
  ghost predicate Uniform(cs: seq<seq<int>>, b: nat)
  {
    forall r :: 0 <= r < |cs| ==> |cs[r]| == b
  }

  /** The buffer MPI_Gather with receive count b builds from the ranks' chunks. */
  function Gather(cs: seq<seq<int>>, b: nat): seq<int>
    requires Uniform(cs, b)
  {
    Concat(cs)
  }

  /** Element t of rank r's chunk lands at offset r * b + t of the gathered
      buffer, which holds exactly |cs| * b elements. */
  lemma {:induction false} GatherAt(cs: seq<seq<int>>, b: nat, r: nat, t: nat)
    requires Uniform(cs, b) && r < |cs| && t < b
    ensures |Gather(cs, b)| == |cs| * b
    ensures r * b + t < |cs| * b
    ensures Gather(cs, b)[r * b + t] == cs[r][t]
  {
    GatherLength(cs, b);
    ChunkFits(|cs|, b, r);
    if r > 0 {
      GatherAt(cs[1..], b, r - 1, t);
      assert (r - 1) * b + t + b == r * b + t;
    }
  }

  /** The gathered buffer holds |cs| * b elements. */
  lemma {:induction false} GatherLength(cs: seq<seq<int>>, b: nat)
    requires Uniform(cs, b)
    ensures |Gather(cs, b)| == |cs| * b
  {
    if cs != [] {
      GatherLength(cs[1..], b);
      assert |cs| * b == b + (|cs| - 1) * b;
    }
  }

  /** Rank r's range [r * b, (r + 1) * b) contains position idx exactly when
      r is idx / b, and a position below p * b belongs to a rank below p: the
      p ranges tile the buffer without overlap or gap. */
  lemma Owner(idx: nat, b: nat, r: nat, p: nat)
    requires b > 0
    ensures r * b <= idx < (r + 1) * b <==> r == idx / b
    ensures idx < p * b ==> idx / b < p
  {
    if idx / b >= p {
      MulLe(p, idx / b, b);
    }
    var q := idx / b;
    assert q * b + idx % b == idx;
    if r * b <= idx < (r + 1) * b {
      assert (r + 1) * b == r * b + b;
      DivMod(idx, b, r, idx - r * b);
    } else {
      assert (q + 1) * b == q * b + b;
    }
  }

  /** Gathering the scattered chunks unchanged gives back the root's buffer. */
  lemma GatherScatter(X: seq<int>, p: nat, b: nat)
    requires |X| == p * b
    ensures Gather(Scatter(X, p, b), b) == X
  {
    var cs := Scatter(X, p, b);
    GatherLength(cs, b);
    forall idx | 0 <= idx < |X| ensures Gather(cs, b)[idx] == X[idx] {
      var r, t := idx / b, idx % b;
      assert r * b + t == idx;
      if r >= p {
        MulLe(p, r, b);
      }
      GatherAt(cs, b, r, t);
      ChunkFits(p, b, r);
      assert cs[r] == Chunk(X, r, b);
    }
  }

  /** Scattering a gathered buffer hands every rank back its own chunk. */
  lemma ScatterGather(cs: seq<seq<int>>, b: nat)
    requires Uniform(cs, b)
    ensures |Gather(cs, b)| == |cs| * b
    ensures Scatter(Gather(cs, b), |cs|, b) == cs
  {
    GatherLength(cs, b);
    var cs' := Scatter(Gather(cs, b), |cs|, b);
    forall r | 0 <= r < |cs| ensures cs'[r] == cs[r] {
      ChunkFits(|cs|, b, r);
      var c := Chunk(Gather(cs, b), r, b);
      assert cs'[r] == c;
      forall t | 0 <= t < b ensures c[t] == cs[r][t] {
        GatherAt(cs, b, r, t);
      }
    }
  }
}
