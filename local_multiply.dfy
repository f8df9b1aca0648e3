/** The per-process block multiply-accumulate of main.c (cannonMatrixMultiply).
    A local block of side ln is a flat row-major buffer: entry (i, j) lives at
    position i * ln + j. */
module LocalMultiply {

  import opened Arith

  /** Position (i, j) of a row-major ln × ln buffer is in range, and division
      by ln recovers its row and column. */
  lemma RowMajorIndex(ln: nat, i: nat, j: nat)
    requires i < ln && j < ln
    ensures i * ln + j < ln * ln
    ensures (i * ln + j) / ln == i && (i * ln + j) % ln == j
  {
    MulLe(i + 1, ln, ln);
    assert (i + 1) * ln == i * ln + ln;
    DivMod(i * ln + j, ln, i, j);
  }

  /** Every position below ln * ln is the position of an in-range
      (row, column) pair, namely (idx / ln, idx % ln). RowMajorIndex shows
      no other pair maps there. */
  lemma RowMajorSplit(ln: nat, idx: nat)
    requires idx < ln * ln
    ensures idx / ln < ln && idx % ln < ln
    ensures (idx / ln) * ln + idx % ln == idx
  {
    var q := idx / ln;
    assert q * ln + idx % ln == idx;
    if q >= ln {
      MulLe(ln, q, ln);
    }
  }

  /** The first k terms of the dot product of row i of A with column j of B,
      added in the order the innermost loop of the source adds them. */
  function Dot(A: seq<int>, B: seq<int>, ln: nat, i: nat, j: nat, k: nat): int
    requires |A| >= ln * ln && |B| >= ln * ln
    requires i < ln && j < ln && k <= ln
    decreases k
  {
    if k == 0 then 0
    else
      RowMajorIndex(ln, i, k - 1);
      RowMajorIndex(ln, k - 1, j);
      Dot(A, B, ln, i, j, k - 1) + A[i * ln + (k - 1)] * B[(k - 1) * ln + j]
  }

  /** Entry (i, j) of the ln × ln product: sum over k < ln of A[i][k] * B[k][j]. */
  function MatMulEntry(A: seq<int>, B: seq<int>, ln: nat, i: nat, j: nat): int
    requires |A| >= ln * ln && |B| >= ln * ln
    requires i < ln && j < ln
  {
    Dot(A, B, ln, i, j, ln)
  }

  /** The product entry that belongs at row-major position idx. */
  function EntryAt(A: seq<int>, B: seq<int>, ln: nat, idx: nat): int
    requires |A| >= ln * ln && |B| >= ln * ln
    requires idx < ln * ln
  {
    RowMajorSplit(ln, idx);
    MatMulEntry(A, B, ln, idx / ln, idx % ln)
  }

  /** The row-major ln × ln product A × B. */
  function Product(A: seq<int>, B: seq<int>, ln: nat): (P: seq<int>)
    requires |A| >= ln * ln && |B| >= ln * ln
    ensures |P| == ln * ln
  {
    seq(ln * ln, idx requires 0 <= idx < ln * ln => EntryAt(A, B, ln, idx))
  }

  /** Row-major position i * ln + j of the product holds entry (i, j). */
  lemma ProductAt(A: seq<int>, B: seq<int>, ln: nat, i: nat, j: nat)
    requires |A| >= ln * ln && |B| >= ln * ln
    requires i < ln && j < ln
    ensures i * ln + j < ln * ln
    ensures Product(A, B, ln)[i * ln + j] == MatMulEntry(A, B, ln, i, j)
  {
    RowMajorIndex(ln, i, j);
  }

  /** C with the product entry added at each of its first m positions, in
      row-major order; the state of the source's loop nest after m entries. */
  function AccumulatePrefix(C: seq<int>, A: seq<int>, B: seq<int>, ln: nat, m: nat): (C': seq<int>)
    requires |A| >= ln * ln && |B| >= ln * ln && m <= ln * ln <= |C|
    ensures |C'| == |C|
  {
    seq(|C|, idx requires 0 <= idx < |C| =>
               if idx < m then C[idx] + EntryAt(A, B, ln, idx) else C[idx])
  }

  /** Finishing entry m extends the accumulated prefix by one position. */
  lemma AccumulatePrefixStep(C: seq<int>, A: seq<int>, B: seq<int>, ln: nat, m: nat)
    requires |A| >= ln * ln && |B| >= ln * ln && m < ln * ln <= |C|
    ensures AccumulatePrefix(C, A, B, ln, m + 1)
         == AccumulatePrefix(C, A, B, ln, m)[m := C[m] + EntryAt(A, B, ln, m)]
  {
  }

  /** C after one multiply-accumulate: each of the first ln * ln positions
      gains the product entry that belongs there, positions beyond them keep
      their value. */
  function Accumulate(C: seq<int>, A: seq<int>, B: seq<int>, ln: nat): (C': seq<int>)
    requires |A| >= ln * ln && |B| >= ln * ln && |C| >= ln * ln
    ensures |C'| == |C|
    ensures forall idx :: ln * ln <= idx < |C| ==> C'[idx] == C[idx]
  {
    AccumulatePrefix(C, A, B, ln, ln * ln)
  }

  /** Row-major position i * ln + j gains exactly the product entry (i, j). */
  lemma AccumulateAt(C: seq<int>, A: seq<int>, B: seq<int>, ln: nat, i: nat, j: nat)
    requires |A| >= ln * ln && |B| >= ln * ln && |C| >= ln * ln
    requires i < ln && j < ln
    ensures i * ln + j < ln * ln
    ensures Accumulate(C, A, B, ln)[i * ln + j] == C[i * ln + j] + MatMulEntry(A, B, ln, i, j)
  {
    RowMajorIndex(ln, i, j);
  }

  /** An all-zero buffer of m entries (what calloc returns). */
  function Zeros(m: nat): (Z: seq<int>)
    ensures |Z| == m && forall idx :: 0 <= idx < m ==> Z[idx] == 0
  {
    seq(m, _ => 0)
  }

  /** The ln × ln identity matrix, row-major. */
  function Identity(ln: nat): (I: seq<int>)
    ensures |I| == ln * ln
  {
    seq(ln * ln, idx requires 0 <= idx < ln * ln => if idx / ln == idx % ln then 1 else 0)
  }

  /** Accumulating into a zero buffer yields exactly the product. */
  lemma AccumulateFromZero(A: seq<int>, B: seq<int>, ln: nat)
    requires |A| >= ln * ln && |B| >= ln * ln
    ensures Accumulate(Zeros(ln * ln), A, B, ln) == Product(A, B, ln)
  {
    var C' := Accumulate(Zeros(ln * ln), A, B, ln);
    var P := Product(A, B, ln);
    forall idx | 0 <= idx < ln * ln ensures C'[idx] == P[idx] {
      RowMajorSplit(ln, idx);
      var i, j := idx / ln, idx % ln;
      RowMajorIndex(ln, i, j);
    }
  }

  /** Against the identity, the first k terms of row i pick out A[i][j] once
      column j has been passed, and nothing before. */
  lemma {:induction false} DotIdentity(A: seq<int>, ln: nat, i: nat, j: nat, k: nat)
    requires |A| >= ln * ln
    requires i < ln && j < ln && k <= ln
    ensures i * ln + j < ln * ln
    ensures Dot(A, Identity(ln), ln, i, j, k) == if j < k then A[i * ln + j] else 0
  {
    RowMajorIndex(ln, i, j);
    if k > 0 {
      DotIdentity(A, ln, i, j, k - 1);
      RowMajorIndex(ln, k - 1, j);
      var I := Identity(ln);
      assert I[(k - 1) * ln + j] == if k - 1 == j then 1 else 0;
    }
  }

  /** Multiplying by the identity adds A entrywise to C. */
  lemma AccumulateIdentity(C: seq<int>, A: seq<int>, ln: nat)
    requires |A| >= ln * ln && |C| >= ln * ln
    ensures forall idx :: 0 <= idx < ln * ln ==>
              Accumulate(C, A, Identity(ln), ln)[idx] == C[idx] + A[idx]
  {
    var C' := Accumulate(C, A, Identity(ln), ln);
    forall idx | 0 <= idx < ln * ln ensures C'[idx] == C[idx] + A[idx] {
      RowMajorSplit(ln, idx);
      var i, j := idx / ln, idx % ln;
      DotIdentity(A, ln, i, j, ln);
    }
  }

  /** main.c:21-23, the innermost loop: add the dot product of row i of
      localA with column j of localB to entry (i, j) of localC, one term at a
      time, and change nothing else. */
  method AccumulateEntry(localA: array<int>, localB: array<int>, localC: array<int>, ln: nat, i: nat, j: nat)
    requires localA.Length >= ln * ln && localB.Length >= ln * ln && localC.Length >= ln * ln
    requires localC != localA && localC != localB
    requires i < ln && j < ln
    modifies localC
    ensures i * ln + j < ln * ln
    ensures localC[..] == old(localC[..])[i * ln + j := old(localC[i * ln + j])
                                          + MatMulEntry(old(localA[..]), old(localB[..]), ln, i, j)]
  {
    RowMajorIndex(ln, i, j);
    ghost var C0, A, B := localC[..], localA[..], localB[..];
    for k := 0 to ln
      invariant localC[..] == C0[i * ln + j := C0[i * ln + j] + Dot(A, B, ln, i, j, k)]
    {
      RowMajorIndex(ln, i, k);
      RowMajorIndex(ln, k, j);
      localC[i * ln + j] := localC[i * ln + j] + localA[i * ln + k] * localB[k * ln + j];
    }
  }

  /** main.c:18-26. The loop nest adds, to every entry (i, j) of the local
      result block, the dot product of row i of localA with column j of
      localB; it reads but never writes localA and localB and leaves every
      position of localC from ln * ln on untouched. */
  method CannonMatrixMultiply(localA: array<int>, localB: array<int>, localC: array<int>, ln: nat)
    requires localA.Length >= ln * ln && localB.Length >= ln * ln && localC.Length >= ln * ln
    requires localC != localA && localC != localB
    modifies localC
    ensures localC[..] == Accumulate(old(localC[..]), localA[..], localB[..], ln)
  {
    ghost var C0 := localC[..];
    ghost var A, B := localA[..], localB[..];
    for i := 0 to ln
      invariant i * ln <= ln * ln
      invariant localC[..] == AccumulatePrefix(C0, A, B, ln, i * ln)
    {
      MulLe(i + 1, ln, ln);
      assert (i + 1) * ln == i * ln + ln;
      for j := 0 to ln
        invariant localC[..] == AccumulatePrefix(C0, A, B, ln, i * ln + j)
      {
        AccumulateEntry(localA, localB, localC, ln, i, j);
        RowMajorIndex(ln, i, j);
        AccumulatePrefixStep(C0, A, B, ln, i * ln + j);
      }
    }
  }
}
