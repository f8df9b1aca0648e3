/** The start-up checks and block-size arithmetic of main.c's main: the
    argument-count check, the process-grid side sqrt_p = (int)sqrt(p), the
    divisibility check and local_n = n / sqrt_p. */
module Config {

  import opened Arith

  /** Why a run stops with exit status 1 before any data is distributed. */
  datatype ConfigError =
    | Usage          // argc != 2 (main.c:40-46)
    | NotDivisible   // n % sqrt_p != 0 (main.c:51-57)
    | NotSquare      // p is not sqrt_p * sqrt_p (not checked by main.c; see ValidateChecked)

  /** The quantities every process derives before the scatter. */
  datatype Grid = Grid(n: nat, p: nat, sqrtP: nat, localN: nat)

  datatype Result<T> = Ok(value: T) | Err(error: ConfigError)

  /** Integer square root rounded down: the value (int)sqrt(p) takes for
      every p an int can hold. */
  function ISqrt(p: nat): (s: nat)
    ensures s * s <= p < (s + 1) * (s + 1)
  {
    if p == 0 then 0
    else
      var s := ISqrt(p - 1);
      if (s + 1) * (s + 1) <= p then s + 1 else s
  }

  /** Any s with s * s <= p < (s + 1)^2 is ISqrt(p). */
  lemma ISqrtUnique(p: nat, s: nat)
    requires s * s <= p < (s + 1) * (s + 1)
    ensures ISqrt(p) == s
  {
    var t := ISqrt(p);
    if t < s {
      SquareLe(t + 1, s);
    } else if t > s {
      SquareLe(s + 1, t);
    }
  }

  /** The checks of main.c:40-57 and the block size of main.c:83, in the
      order the source makes them. */
  function Validate(argc: int, n: nat, p: nat): (r: Result<Grid>)
    requires p >= 1
    ensures r.Err? <==> argc != 2 || n % ISqrt(p) != 0
    ensures r.Err? ==> r.error == (if argc != 2 then Usage else NotDivisible)
    ensures r.Ok? ==> r.value.n == n && r.value.p == p && r.value.sqrtP == ISqrt(p)
    ensures r.Ok? ==> r.value.localN * r.value.sqrtP == n
  {
    if argc != 2 then Err(Usage)
    else
      var s := ISqrt(p);
      if n % s != 0 then Err(NotDivisible)
      else Ok(Grid(n, p, s, n / s))
  }

  /** Validate also lets through a process count that is not a perfect
      square, and then the p chunks of local_n * local_n elements that
      MPI_Scatter reads from A and B (and MPI_Gather writes into C) overrun
      the n * n buffers. */
  lemma NonSquareOverruns(argc: int, n: nat, p: nat)
    requires p >= 1 && n > 0
    requires ISqrt(p) * ISqrt(p) != p
    requires Validate(argc, n, p).Ok?
    ensures var g := Validate(argc, n, p).value;
            p * (g.localN * g.localN) > n * n
  {
    var g := Validate(argc, n, p).value;
    ExceedsSquare(p, g.sqrtP, g.localN, n);
  }

  /** A small such run: two processes, n = 4. Validate accepts it with
      local_n = 4, so the two chunks of 16 elements need 32 of the 16
      elements of A. */
  lemma TwoProcessesOverrun()
    ensures Validate(2, 4, 2) == Ok(Grid(4, 2, 1, 4))
    ensures var g := Validate(2, 4, 2).value;
            g.p * (g.localN * g.localN) > g.n * g.n
  {
    ISqrtUnique(2, 1);
  }

  /** Validate plus the perfect-square check an s × s process grid needs,
      made right after sqrt_p is computed and before any data moves. */
  function ValidateChecked(argc: int, n: nat, p: nat): (r: Result<Grid>)
    requires p >= 1
    ensures r.Err? <==> argc != 2 || ISqrt(p) * ISqrt(p) != p || n % ISqrt(p) != 0
    ensures r.Ok? ==> r == Validate(argc, n, p)
    ensures Validate(argc, n, p).Err? ==> r.Err?
    ensures r.Err? ==> r.error == (if argc != 2 then Usage
                                   else if ISqrt(p) * ISqrt(p) != p then NotSquare
                                   else NotDivisible)
  {
    if argc != 2 then Err(Usage)
    else
      var s := ISqrt(p);
      if s * s != p then Err(NotSquare)
      else if n % s != 0 then Err(NotDivisible)
      else Ok(Grid(n, p, s, n / s))
  }

  /** Start-up rejections: n = 10 with p = 9 (a 3 × 3 grid) is not
      divisible; five processes pass the code's checks for n = 4 but are
      refused once the perfect-square check is made; a missing argument is a
      usage error whatever n and p are. */
  lemma RejectionExamples(n: nat, p: nat)
    requires p >= 1
    ensures Validate(2, 10, 9) == Err(NotDivisible)
    ensures Validate(2, 4, 5).Ok? && ValidateChecked(2, 4, 5) == Err(NotSquare)
    ensures Validate(1, n, p) == Err(Usage) && ValidateChecked(3, n, p) == Err(Usage)
  {
    ISqrtUnique(9, 3);
    ISqrtUnique(5, 2);
  }

  /** The status main returns (main.c:45, 56, 115): 1 when the start-up
      checks as written reject the run, 0 when they accept it. For a p that
      is not a perfect square the accepted run reaches return 0 only after
      the out-of-bounds scatter and gather of NonSquareOverruns, so the 0
      is what the code as written returns, not a promise that such a run
      is well defined. */
  function MainStatus(argc: int, n: nat, p: nat): (status: int)
    requires p >= 1
    ensures status == 1 <==> argc != 2 || n % ISqrt(p) != 0
    ensures status == 0 <==> Validate(argc, n, p).Ok?
  {
    match Validate(argc, n, p)
    case Err(_) => 1
    case Ok(_) => 0
  }

  /** The same status under the corrected checks: a process count that is
      not a perfect square also ends the run with 1. */
  function CheckedStatus(argc: int, n: nat, p: nat): (status: int)
    requires p >= 1
    ensures status == 1 <==> argc != 2 || ISqrt(p) * ISqrt(p) != p || n % ISqrt(p) != 0
    ensures status == 0 <==> ValidateChecked(argc, n, p).Ok?
    ensures MainStatus(argc, n, p) == 1 ==> status == 1
  {
    match ValidateChecked(argc, n, p)
    case Err(_) => 1
    case Ok(_) => 0
  }

  /** An accepted run's p chunks of local_n * local_n elements tile the
      n * n buffers exactly. */
  lemma ValidateCheckedTiles(argc: int, n: nat, p: nat)
    requires p >= 1
    requires ValidateChecked(argc, n, p).Ok?
    ensures var g := ValidateChecked(argc, n, p).value;
            g.sqrtP * g.sqrtP == p && p * (g.localN * g.localN) == n * n
  {
    var g := ValidateChecked(argc, n, p).value;
    var s, ln := g.sqrtP, g.localN;
    assert n == ln * s;
    SquareOfProduct(ln, s);
  }
}
