# calculate: a matrix filled at random and then "relaxed"

This project models `calculate(int n, bool &completed)` from
`29-200519/code/02-perfect/06-timed-exceptions.cpp`, together with the
`main` that calls it. The function does four things in order:

1. It builds an `n`-by-`n` `std::vector<std::vector<int>>` named `graph`,
   with every cell set to `inf` = 1,000,000,000. If `n` is negative, this
   constructor throws before anything else happens.
2. It overwrites every cell, row by row, with the next value of a
   default-seeded `std::mt19937` passed through
   `std::uniform_int_distribution(0, 100000)`.
3. It runs the triple loop `graph[j][k] = min(graph[j][i], graph[i][k])`
   over all `i`, `j`, `k` below `n`, in that nesting order. This looks like
   Floyd–Warshall but adds no path lengths: each write copies the smaller
   of two existing cells.
4. Only then does it set the by-reference flag `completed` to true.

`main` starts with `completed = false`, calls `calculate(-1, completed)`
through the `timed` wrapper, and prints the flag. If the call threw, the
catch-all handler prints `exception` instead.

The model has two modules:

- `Graph` (`graph.dfy`) is the value view: the matrix as `seq<seq<int>>`,
  its construction and its fill, one relaxation write (`Relax`), and the
  run of a list of writes (`Run`). `Schedule(n)` lists the exact writes the
  triple loop makes, in order. The lemmas say what the loop order is and
  what the writes preserve.
- `TimedExceptions` (`timed_exceptions.dfy`) is the imperative code over an
  `array2<int>`: `Fill`, `RelaxRow`/`RelaxPivot`/`RelaxAll` (the three loop
  levels), `Calculate` and `Driver`. Every loop method is proved against
  the `Graph` functions.

Modelling choices:

- The generator is the parameter `draws`: the values it produces, in order.
  `Fill` consumes them through a cursor, one per cell. The
  precondition `DrawsInRange` is the distribution's promise that every
  value lies in [0, 100000].
- The by-reference flag is the input `completed` plus the output
  `completed'`.
- The throw is an `Outcome` value, `Threw(LengthError)`. When it is
  returned, `completed'` equals the input `completed`.
- The local matrix is never returned, so `Calculate` exposes it through
  three ghost snapshots. `built` is taken after construction, `filled`
  after the fill loop and `final` after the triple loop.
- The source runs all three loop levels inside one function. The model
  gives each level its own method so that each proof stays small. The
  loops, their bounds and their order are unchanged.
- No arithmetic in `calculate` can overflow a 32-bit `int`. The loop
  counters stay below `n`, and every cell is either `inf` or a draw. So
  the model uses unbounded `int` with no wrap-around. The row-major index
  `r * n + c` exists only in the model; the source never computes it.

## Model

| member | source | states |
|---|---|---|
| `Graph.Min` | 29-200519/code/02-perfect/06-timed-exceptions.cpp:19 | `std::min` returns one of its two arguments and is no larger than either |
| `Graph.Initial` | 29-200519/code/02-perfect/06-timed-exceptions.cpp:9-10 | the constructed matrix has n rows of n columns, every cell is `inf`, and for n > 0 `inf` is its only value |
| `Graph.RowMajorOrder` | 29-200519/code/02-perfect/06-timed-exceptions.cpp:13-15 | the fill visits cell (r, c) before cell (i, j) exactly when r < i, or r = i and c < j |
| `Graph.RowMajorInjective` | 29-200519/code/02-perfect/06-timed-exceptions.cpp:13-15 | two cells get the same draw number only if they are the same cell, so each cell is written once with its own draw |
| `Graph.Draw` | 29-200519/code/02-perfect/06-timed-exceptions.cpp:15 | cell (r, c) gets draw number r * n + c, and that number is below n * n |
| `Graph.Filled` | 29-200519/code/02-perfect/06-timed-exceptions.cpp:13-15 | the matrix after the fill still has n rows of n columns |
| `Graph.FilledBounded` | 29-200519/code/02-perfect/06-timed-exceptions.cpp:12-15 | if every draw is in [0, 100000], every filled cell is in [0, 100000] and no `inf` is left |
| `Graph.Relax` | 29-200519/code/02-perfect/06-timed-exceptions.cpp:19 | one step writes cell (j, k) with the min of cells (j, i) and (i, k); every other cell and the shape stay the same |
| `Graph.Run` | 29-200519/code/02-perfect/06-timed-exceptions.cpp:16-19 | any sequence of steps keeps the matrix square and keeps its size |
| `Graph.RunAppend` | 29-200519/code/02-perfect/06-timed-exceptions.cpp:16-19 | running two step lists one after the other is the same as running their concatenation |
| `Graph.ColumnSteps` | 29-200519/code/02-perfect/06-timed-exceptions.cpp:18-19 | the inner loop up to column k makes exactly k steps, and step t is (i, j, t) |
| `Graph.RowStepsWithin` | 29-200519/code/02-perfect/06-timed-exceptions.cpp:17-19 | every step of the middle loop uses pivot i, a row below j and a column below n |
| `Graph.PivotStepsWithin` | 29-200519/code/02-perfect/06-timed-exceptions.cpp:16-19 | every step of the outer loop up to pivot i uses a pivot below i and a row and a column below n |
| `Graph.Schedule` | 29-200519/code/02-perfect/06-timed-exceptions.cpp:16-18 | every step of the triple loop stays inside the n-by-n matrix |
| `Graph.RowSteps` | 29-200519/code/02-perfect/06-timed-exceptions.cpp:17-19 | the steps of rows 0..j-1 of pivot i, each a full inner loop over n columns: the middle loop up to row j, which makes exactly j * n steps (its other properties are `RowStepsWithin`, `RowStepsCover`, `RowStepsIncreasing` and `RowStepsPrefix`) |
| `Graph.PivotSteps` | 29-200519/code/02-perfect/06-timed-exceptions.cpp:16-19 | the steps of pivots 0..i-1, each a full middle loop: the outer loop up to pivot i, which makes exactly i * n * n steps (its other properties are `PivotStepsWithin`, `PivotStepsCover`, `PivotStepsIncreasing` and `PivotStepsPrefix`) |
| `Graph.RowStepsCover` | 29-200519/code/02-perfect/06-timed-exceptions.cpp:17-18 | the middle loop up to row j performs (i, r, c) for every r below j and every c below n |
| `Graph.PivotStepsCover` | 29-200519/code/02-perfect/06-timed-exceptions.cpp:16-18 | the outer loop up to pivot i performs every triple whose pivot is below i |
| `Graph.RowStepsIncreasing` | 29-200519/code/02-perfect/06-timed-exceptions.cpp:17-18 | the middle loop's steps are strictly increasing in (row, column) order |
| `Graph.PivotStepsIncreasing` | 29-200519/code/02-perfect/06-timed-exceptions.cpp:16-18 | the outer loop's steps are strictly increasing in lexicographic (pivot, row, column) order |
| `Graph.ScheduleShape` | 29-200519/code/02-perfect/06-timed-exceptions.cpp:16-18 | the triple loop makes exactly n^3 steps; it performs every triple below n, each exactly once, in lexicographic order |
| `Graph.ColumnStepsPrefix` | 29-200519/code/02-perfect/06-timed-exceptions.cpp:18-19 | the inner loop stopped at column k has done a prefix of the steps it does when stopped at any later column |
| `Graph.RowStepsPrefix` | 29-200519/code/02-perfect/06-timed-exceptions.cpp:17-19 | the middle loop stopped at row j has done a prefix of the steps it does when stopped at any later row |
| `Graph.PivotStepsPrefix` | 29-200519/code/02-perfect/06-timed-exceptions.cpp:16-19 | the outer loop stopped at pivot i has done a prefix of the steps it does when stopped at any later pivot |
| `Graph.RowStateInPivot` | 29-200519/code/02-perfect/06-timed-exceptions.cpp:17-19 | inside pivot i, the steps done when the loops stand at row j, column k are a prefix of the whole middle loop |
| `Graph.PivotPrefixInSchedule` | 29-200519/code/02-perfect/06-timed-exceptions.cpp:16-19 | any prefix of the steps done by the end of pivot i is a prefix of the whole triple loop |
| `Graph.LoopStateInSchedule` | 29-200519/code/02-perfect/06-timed-exceptions.cpp:16-19 | the steps done when the three loops stand at (i, j, k) are exactly a prefix of `Schedule(n)` |
| `Graph.RelaxKeepsValues` | 29-200519/code/02-perfect/06-timed-exceptions.cpp:19 | a step adds no new value: every value afterwards was already in the matrix before |
| `Graph.RunKeepsValues` | 29-200519/code/02-perfect/06-timed-exceptions.cpp:16-19 | every value after any sequence of steps was already in the starting matrix |
| `Graph.RunBounded` | 29-200519/code/02-perfect/06-timed-exceptions.cpp:16-19 | steps keep every cell within any bounds that the starting matrix satisfies |
| `Graph.ScheduleBoundedThroughout` | 29-200519/code/02-perfect/06-timed-exceptions.cpp:16-19 | after any prefix of the triple loop, every cell is still within the bounds the filled matrix had |
| `Graph.LoopStateBounded` | 29-200519/code/02-perfect/06-timed-exceptions.cpp:16-19 | wherever the triple loop stands (pivot i, row j, column k), the matrix it has produced so far stays within the bounds of the filled matrix |
| `TimedExceptions.Fill` | 29-200519/code/02-perfect/06-timed-exceptions.cpp:13-15 | after the fill loop the array equals `Filled(n, draws)`, and the generator has advanced exactly n * n times |
| `TimedExceptions.RelaxRow` | 29-200519/code/02-perfect/06-timed-exceptions.cpp:18-19 | the inner loop turns the array into `Run` of the old contents over `ColumnSteps(i, j, n)` |
| `TimedExceptions.RelaxPivot` | 29-200519/code/02-perfect/06-timed-exceptions.cpp:17-19 | the middle loop turns the array into `Run` of the old contents over `RowSteps(n, i, n)` |
| `TimedExceptions.RelaxAll` | 29-200519/code/02-perfect/06-timed-exceptions.cpp:16-19 | the triple loop turns the array into `Run` of the old contents over `Schedule(n)` |
| `TimedExceptions.Calculate` | 29-200519/code/02-perfect/06-timed-exceptions.cpp:8-21 | for n < 0: `Threw(LengthError)` with the flag unchanged. For n >= 0: the matrix is built all `inf` and filled from the draws, then run through `Schedule(n)`; the result stays in [0, 100000], holds only values present after the fill, no `inf` is left after the fill, and the flag becomes true |
| `TimedExceptions.Driver` | 29-200519/code/02-perfect/06-timed-exceptions.cpp:35-43 | with the flag starting false, a negative n reports `exception` and leaves the flag false; n >= 0 reports the flag as true |

## Left out

- The `timed` wrapper and its `Timer` (lines 23-33): they read
  `steady_clock` and print the elapsed milliseconds on scope exit. That is
  clock access and output. The model keeps only the call they forward.
- Printing in `main` (lines 39 and 41): `Driver` returns what would be
  printed as a `Report` value instead of writing to stdout.
- The exact values of `std::mt19937` and `uniform_int_distribution`: the
  distribution's algorithm is defined by the library. The model takes any
  draw sequence whose values are in [0, 100000].
- The C++ exception type: any throw is the single failure `LengthError`.
  Running out of memory (`std::bad_alloc`) for a large non-negative n is
  not modelled. Under the model, every n >= 0 completes.
- Perfect forwarding in `timed` (line 32): a language mechanism with no
  behaviour to verify.
- Calculate: the "exactly once" assignment of `completed` is captured only
  at the interface. The flag comes back unchanged on the throw path and true
  on the normal path. The point of assignment inside the function is not a
  separate contract.
