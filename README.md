# Distributed matrix multiply (main.c) in Dafny

This project models `main.c`, an MPI program that is meant to multiply two
random `n × n` integer matrices with Cannon's algorithm on `p` processes.
The model has five parts:

- **Local multiply.** Module `LocalMultiply`, file `local_multiply.dfy`.
  `cannonMatrixMultiply` works in place on a flat, row-major
  `local_n × local_n` buffer. It is modelled as a method over `array<int>`
  with the same three nested loops; the innermost one is the helper method
  `AccumulateEntry`. It is proved against a specification function:
  `Accumulate` adds the row-major product (`Product`, entry by entry
  `MatMulEntry`) to the old contents of `localC`.
- **Start-up checks.** Module `Config`, file `config.dfy`. This is the
  argument-count check and the divisibility check. Both end the run with
  exit status 1; a run that passes them reaches `return 0` (`MainStatus`),
  though for a `p` that is not a perfect square only after the
  out-of-bounds scatter and gather described under Findings. It also has
  the grid side `sqrt_p = (int)sqrt(p)`, modelled as the integer floor
  square root `ISqrt`, and the block size `local_n = n / sqrt_p`.
- **Data layout.** Module `Layout`, file `layout.dfy`. `MPI_Scatter` and
  `MPI_Gather` are modelled only by the layout that sections 5.6 and 5.5 of
  the MPI 3.1 standard give them. Rank `r` receives elements
  `[r·b, (r+1)·b)` of the root buffer, and gather writes rank `r`'s block
  back into that same range.
- **Whole run.** Module `Cannon`, file `run.dfy`. `Run` simulates one run,
  with the ranks taken one after another. It validates, scatters A and B,
  lets every rank multiply its two chunks once into a zeroed block, and
  gathers the blocks into C. The method `RankStep` does the same for one
  rank on real arrays, calling `CannonMatrixMultiply`.
- **Arithmetic helpers.** Module `Arith`, file `arith.dfy`, holds the
  division and multiplication facts the index arithmetic needs.

The code does less than its comments and Cannon's algorithm
describe. The model follows the code:

- **No skew and no rotation.** There is no initial skew and no block
  rotation. Each rank multiplies once, and its two "blocks" are contiguous
  row-major chunks of A and B, not 2-D sub-blocks. So `C = A × B` holds only
  for one process (`RunSingleProcess`). `FourProcessesIdentity` shows that
  with four processes and `B = I`, the run does not return A.
- **No perfect-square check.** The code never checks that `p` is a perfect
  square; see Findings. `Run` uses the corrected start-up check
  `ValidateChecked`.

## Model

| member | source | states |
|---|---|---|
| `LocalMultiply.CannonMatrixMultiply` | main.c:18-26 | `localC` becomes `Accumulate(old localC, localA, localB, ln)`: every entry below `ln*ln` gains its product entry, every later entry is unchanged, and `localA`, `localB` are not written |
| `LocalMultiply.AccumulateEntry` | main.c:21-23 | the innermost loop adds the dot product of row `i` of `localA` with column `j` of `localB` to entry `(i, j)` of `localC` and changes no other entry |
| `LocalMultiply.AccumulateAt` | main.c:19-25 | after the call, row-major entry `(i, j)` equals its old value plus `Σ_{k<ln} A[i*ln+k]*B[k*ln+j]`; it accumulates and does not overwrite |
| `LocalMultiply.AccumulatePrefixStep` | main.c:19-25 | finishing the innermost loop for one entry extends the accumulated row-major prefix by exactly that entry |
| `LocalMultiply.ProductAt` | main.c:19-25 | row-major position `i*ln+j` of the product lies inside the `ln*ln` buffer and holds entry `(i, j)` of `A × B` |
| `LocalMultiply.AccumulateFromZero` | main.c:88-95 | starting from the zeroed buffer that calloc returns, one call leaves exactly the row-major product `A × B` |
| `LocalMultiply.DotIdentity` | main.c:21-22 | against the identity, the first `k` terms of the dot product for `(i, j)` are `A[i*ln+j]` once `j < k`, and 0 before |
| `LocalMultiply.AccumulateIdentity` | main.c:19-25 | when `localB` is the `ln × ln` identity, the call adds `localA` entrywise to `localC` |
| `LocalMultiply.RowMajorIndex` | main.c:22 | index `i*local_n+j` with `i, j < local_n` is inside the buffer, and division by `local_n` recovers `i` and `j` |
| `LocalMultiply.RowMajorSplit` | main.c:22 | every index below `local_n*local_n` is `i*local_n+j` for the in-range row `i = idx / local_n` and column `j = idx % local_n` (that no other pair maps there is `RowMajorIndex`) |
| `Layout.ChunkFits` | main.c:91-92 | each of the `p` chunks of `b` elements lies inside a buffer of `p*b` elements |
| `Layout.GatherLength` | main.c:98 | gathering `p` chunks of `b` elements yields `p*b` elements |
| `Layout.GatherAt` | main.c:98 | element `t` of rank `r`'s chunk lands at offset `r*b+t` of the gathered buffer |
| `Layout.Chunk` | main.c:91-92 | the chunk rank `r` receives has `b` elements; its contract states only the length, and its content is stated by `GatherScatter`, `ScatterGather` and `GatherAt` |
| `Layout.Scatter` | main.c:91-92 | `MPI_Scatter` hands out `p` chunks of `b` elements each; its contract states only these lengths, and what they hold is stated by `GatherScatter` and `ScatterGather` |
| `Layout.Gather` | main.c:98 | `MPI_Gather` lays the ranks' chunks end to end in rank order; it has no contract of its own, and its length and content are stated by `GatherLength`, `GatherAt`, `GatherScatter` and `ScatterGather` |
| `Layout.Owner` | main.c:91-92 | position `idx` lies in rank `r`'s range `[r*b, (r+1)*b)` if and only if `r == idx / b`, and a position below `p*b` belongs to a rank below `p`, so the `p` ranges tile the buffer with no gap and no overlap |
| `Layout.GatherScatter` | main.c:91-98 | gathering the scattered chunks unchanged gives back the root's buffer |
| `Layout.ScatterGather` | main.c:91-98 | scattering a gathered buffer gives every rank back its own chunk |
| `Config.ISqrt` | main.c:49 | `sqrt_p` is the largest `s` with `s*s <= p` |
| `Config.ISqrtUnique` | main.c:49 | any `s` with `s*s <= p < (s+1)^2` is `sqrt_p` |
| `Config.Validate` | main.c:40-83 | the code's checks as written: the run is rejected iff `argc != 2` (usage error, checked first) or `n % sqrt_p != 0`; otherwise `local_n * sqrt_p == n` |
| `Config.NonSquareOverruns` | main.c:49-92 | if `p` is not a perfect square and `n > 0`, a run that `Validate` accepts has `p*local_n² > n²`, so the scatter reads past A and B |
| `Config.TwoProcessesOverrun` | main.c:49-92 | the concrete case `p = 2`, `n = 4`: `Validate` accepts it with `sqrt_p = 1`, `local_n = 4`, and the accepted grid's `p*local_n²` exceeds `n²` |
| `Config.ValidateChecked` | main.c:40-83 | rejects exactly when `argc != 2`, `sqrt_p² != p` or `n % sqrt_p != 0`, in that order of precedence; it rejects everything `Validate` rejects and otherwise agrees with it |
| `Config.RejectionExamples` | main.c:40-57 | `n = 10` with `p = 9` is a divisibility error; `p = 5` with `n = 4` passes the code's checks but fails the perfect-square check; a wrong argument count is always a usage error |
| `Config.MainStatus` | main.c:40-115 | `main` returns 1 exactly when `argc != 2` or `n % sqrt_p != 0`; otherwise the code reaches `return 0`, which is well defined only when `p` is a perfect square (see the Left out line) |
| `Config.CheckedStatus` | main.c:40-115 | with the perfect-square check added, the status is 1 exactly when `argc != 2`, `sqrt_p² != p` or `n % sqrt_p != 0`, 0 exactly when the corrected checks accept, and it is 1 whenever the code's own status is 1 |
| `Config.ValidateCheckedTiles` | main.c:83-98 | after the corrected checks, `sqrt_p² == p` and the `p` chunks of `local_n²` elements exactly fill the `n²` buffers |
| `Cannon.LocalBlock` | main.c:86-95 | what rank `r` holds in `localC` after its local multiply into the zeroed buffer is the product of its chunk of A with its chunk of B (through `AccumulateFromZero`) |
| `Cannon.LocalBlocks` | main.c:86-95 | there is one block per rank and each has `local_n²` elements; its contract states only these lengths, block `r` is `LocalBlock` of rank `r`, and what C holds is stated by `RunRank` |
| `Cannon.Run` | main.c:40-98 | a run is rejected, before any data moves, exactly when the start-up checks reject it and with the same error; an accepted run returns a C of `n*n` entries |
| `Cannon.RunRank` | main.c:86-98 | rank `r`'s range of C is the product of rank `r`'s chunk of A with rank `r`'s chunk of B |
| `Cannon.RunLocality` | main.c:91-98 | two inputs that agree on rank `r`'s chunks of A and B give the same C on rank `r`'s range |
| `Cannon.RunSingleProcess` | main.c:49-98 | with one process the run returns exactly `C = A × B` |
| `Cannon.FourProcessesIdentity` | main.c:91-98 | with `p = 4`, `n = 4`, A holding 1..16 and `B = I`, C is not A (`C[1] = 0`, `A[1] = 2`) |
| `Cannon.RankStep` | main.c:86-95 | one rank's local buffers, filled with its chunks and a zeroed `localC` and then multiplied, hold the product of its two chunks |

## Findings

| source | as written | input that shows it | evidently intended | confidence | as-written member | corrected member |
|---|---|---|---|---|---|---|
| main.c:49-57 | `sqrt_p = (int)sqrt(p)` is used without checking `sqrt_p * sqrt_p == p`, so a process count that is not a perfect square is accepted | `p = 2`, `n = 4`: `sqrt_p = 1`, `local_n = 4`, and `MPI_Scatter` reads `2·16` elements from the 16-element A (and `MPI_Gather` writes 32 into C) | reject the run with status 1 before any scatter when `p` is not a perfect square | high; not executed | `Config.NonSquareOverruns` | `Config.ValidateChecked` |

`Config.ValidateCheckedTiles` proves the intended property of the corrected
check: after it accepts, the chunks exactly fill the buffers. `Cannon.Run`
uses the corrected check.

## Left out

- MPI start-up and shutdown, `MPI_Comm_rank`, `MPI_Comm_size` and the broadcast of `n` (main.c:36-38, 80, 113) are not modelled. They are process bootstrap and foreign calls. `p` is a parameter with `p >= 1`, which is what `MPI_Comm_size` guarantees.
- Concurrency and message passing are not modelled. The ranks of a run are simulated one after another, and scatter and gather are modelled only by their layout.
- `printMatrix`, every `printf` and the usage message text (main.c:7-15, 42, 53, 73-76, 102-103) are left out. They are diagnostic output.
- The `srand`/`rand` generation of A and B (main.c:66-70) is left out. A and B are inputs of `n*n` entries each.
- `atoi` (main.c:48) is left out. `n` is a natural-number parameter, so negative or non-numeric arguments are not modelled.
- `Config.ISqrt`: models `(int)sqrt(p)` as the exact integer floor square root. Double-precision `sqrt` followed by truncation agrees with it for every `p` an `int` can hold. Floating point itself is not modelled.
- `LocalMultiply.CannonMatrixMultiply`: does not model 32-bit `int` overflow in `+=` and `*` (main.c:22). All arithmetic is on mathematical integers.
- `LocalMultiply.CannonMatrixMultiply`: requires `localC` to be a different array from `localA` and `localB`, as the three separate allocations in `main` guarantee. Aliased buffers are not modelled.
- malloc, calloc and free (main.c:60-62, 86-88, 106-111) are left out. Only the fact that calloc returns zeros is used, in `RankStep` and `Run`.
- `Config.MainStatus`: for a `p` that is not a perfect square, `main` reaches `return 0` only after the out-of-bounds scatter and gather (`NonSquareOverruns`), so status 0 is not guaranteed there; the function gives 0 because that is the status the code as written returns.
- `Cannon.Run`: uses the corrected start-up check, so the out-of-bounds scatter and gather that the code performs when `p` is not a perfect square are not simulated. `Config.NonSquareOverruns` states that they happen.
- Cannon's skew and rotation rounds are not modelled, because the code does not have them.
