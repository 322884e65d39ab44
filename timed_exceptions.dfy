/**
 `calculate` from 06-timed-exceptions.cpp: build an n-by-n matrix of Inf,
 overwrite every cell with a draw from a generator in row-major order, run
 the triple loop graph[j][k] = min(graph[j][i], graph[i][k]) over all
 (i, j, k), and only then set the out-flag `completed`. The generator is the
 sequence `draws` of the values it would produce, in order; the by-reference
 flag is passed in as `completed` and handed back as `completed'`.
 */
module TimedExceptions {
  import opened Graph

  /** The only way `calculate` fails: a vector of negative size cannot be
      built (the C++ library throws std::length_error or std::bad_alloc,
      depending on the library). */
  datatype Failure = LengthError

  /** Whether `calculate` returned normally or threw. */
  datatype Outcome = Returned | Threw(failure: Failure)

  /** The generator's promise: every value lies in [DrawMin, DrawMax]. */
  predicate DrawsInRange(draws: seq<int>)
  {
    forall t :: 0 <= t < |draws| ==> DrawMin <= draws[t] <= DrawMax
  }

  /** The array holds exactly the cells of the square matrix m. */
  ghost predicate Mirrors(g: array2<int>, m: Matrix)
    reads g
  {
    g.Length0 == |m| && g.Length1 == |m| && Square(m) &&
    forall r, c :: 0 <= r < g.Length0 && 0 <= c < g.Length1 ==> g[r, c] == m[r][c]
  }

  /** The current contents of the array, as a matrix value. */
  ghost function Snapshot(g: array2<int>): (m: Matrix)
    reads g
    ensures |m| == g.Length0
    ensures forall r :: 0 <= r < |m| ==> |m[r]| == g.Length1
    ensures g.Length0 == g.Length1 ==> Square(m)
  {
    seq(g.Length0, r requires 0 <= r < g.Length0 reads g =>
      seq(g.Length1, c requires 0 <= c < g.Length1 reads g => g[r, c]))
  }

  lemma SnapshotOf(g: array2<int>, m: Matrix)
    requires Mirrors(g, m)
    ensures Snapshot(g) == m
  {
    var s := Snapshot(g);
    assert |s| == |m|;
    forall r | 0 <= r < |m| ensures s[r] == m[r] {
      assert |s[r]| == |m[r]|;
    }
  }

  /** The fill loop: the generator's next value goes to cell (i, j), row
      by row, so cell (r, c) receives draw number r * n + c and every cell
      is overwritten exactly once. `next` is how far the generator has
      advanced: n * n draws in all. */
  method Fill(graph: array2<int>, draws: seq<int>) returns (next: nat)
    requires graph.Length0 == graph.Length1
    requires graph.Length0 * graph.Length0 <= |draws|
    modifies graph
    ensures Mirrors(graph, Filled(graph.Length0, draws))
    ensures next == graph.Length0 * graph.Length0
  {
    var n := graph.Length0;
    next := 0;
    var i := 0;
    while i < n
      invariant 0 <= i <= n && next == i * n
      invariant forall r, c :: 0 <= r < n && 0 <= c < n ==>
        graph[r, c] == if r < i then Draw(draws, n, r, c) else old(graph[r, c])
    {
      var j := 0;
      while j < n
        invariant 0 <= j <= n && next == i * n + j
        invariant forall r, c :: 0 <= r < n && 0 <= c < n ==>
          graph[r, c] == if r < i || (r == i && c < j) then Draw(draws, n, r, c) else old(graph[r, c])
      {
        // Draw's contract puts the cursor i * n + j below n * n, so
        // draws[next] is in bounds.
        ghost var v := Draw(draws, n, i, j);
        graph[i, j] := draws[next];
        next := next + 1;
        j := j + 1;
      }
      assert next == (i + 1) * n;
      i := i + 1;
    }
  }

  /** The innermost loop for pivot i and row j: for each column k in turn,
      graph[j, k] := min(graph[j, i], graph[i, k]). */
  method RelaxRow(graph: array2<int>, i: int, j: int, ghost m: Matrix)
    requires Mirrors(graph, m)
    requires 0 <= i < |m| && 0 <= j < |m|
    modifies graph
    ensures AllWithin(ColumnSteps(i, j, |m|), |m|)
    ensures Mirrors(graph, Run(m, ColumnSteps(i, j, |m|)))
  {
    var n := graph.Length0;
    ghost var done: seq<Step> := [];
    var k := 0;
    while k < n
      invariant 0 <= k <= n
      invariant done == ColumnSteps(i, j, k) && AllWithin(done, n)
      invariant Mirrors(graph, Run(m, done))
    {
      graph[j, k] := Min(graph[j, i], graph[i, k]);
      done := done + [Step(i, j, k)];
      k := k + 1;
    }
  }

  /** The middle loop for pivot i: the inner loop for each row j in turn. */
  method RelaxPivot(graph: array2<int>, i: int, ghost m: Matrix)
    requires Mirrors(graph, m)
    requires 0 <= i < |m|
    modifies graph
    ensures AllWithin(RowSteps(|m|, i, |m|), |m|)
    ensures Mirrors(graph, Run(m, RowSteps(|m|, i, |m|)))
  {
    var n := graph.Length0;
    var j := 0;
    while j < n
      invariant 0 <= j <= n
      invariant AllWithin(RowSteps(n, i, j), n)
      invariant Mirrors(graph, Run(m, RowSteps(n, i, j)))
    {
      RelaxRow(graph, i, j, Run(m, RowSteps(n, i, j)));
      RunAppend(m, RowSteps(n, i, j), ColumnSteps(i, j, n));
      j := j + 1;
    }
  }

  /** The triple loop: the middle loop for each pivot i in turn, which is
      every step of Schedule(n) in order. */
  method RelaxAll(graph: array2<int>, ghost m: Matrix)
    requires Mirrors(graph, m)
    modifies graph
    ensures Mirrors(graph, Run(m, Schedule(|m|)))
  {
    var n := graph.Length0;
    var i := 0;
    while i < n
      invariant 0 <= i <= n
      invariant AllWithin(PivotSteps(n, i), n)
      invariant Mirrors(graph, Run(m, PivotSteps(n, i)))
    {
      RelaxPivot(graph, i, Run(m, PivotSteps(n, i)));
      RunAppend(m, PivotSteps(n, i), RowSteps(n, i, n));
      i := i + 1;
    }
  }

  /** One run of `calculate(n, completed)`. For n < 0 nothing is built and
      the flag keeps its value. Otherwise the snapshots say what the matrix
      holds after construction (`built`), after the fill loop (`filled`) and
      after the triple loop (`final`), and the flag ends up true. */
  method Calculate(n: int, completed: bool, draws: seq<int>)
    returns (outcome: Outcome, completed': bool, ghost built: Matrix, ghost filled: Matrix, ghost final: Matrix)
    requires n >= 0 ==> n * n <= |draws|
    requires DrawsInRange(draws)
    ensures outcome == if n < 0 then Threw(LengthError) else Returned
    ensures completed' == if n < 0 then completed else true
    ensures n >= 0 ==> built == Initial(n) && filled == Filled(n, draws) && final == Run(filled, Schedule(n))
    ensures n >= 0 ==> Bounded(final, DrawMin, DrawMax) && Values(final) <= Values(filled) && Inf !in Values(filled)
  {
    if n < 0 {
      return Threw(LengthError), completed, [], [], [];
    }
    var graph := new int[n, n]((r, c) => Inf);
    SnapshotOf(graph, Initial(n));
    built := Snapshot(graph);
    var taken := Fill(graph, draws);
    SnapshotOf(graph, Filled(n, draws));
    filled := Snapshot(graph);
    RelaxAll(graph, filled);
    SnapshotOf(graph, Run(filled, Schedule(n)));
    final := Snapshot(graph);
    FilledBounded(n, draws);
    RunKeepsValues(filled, Schedule(n));
    RunBounded(filled, Schedule(n), DrawMin, DrawMax);
    completed' := true;
    outcome := Returned;
  }

  /** What the driver prints after the timing line: the flag, or the
      catch-all handler's "exception". */
  datatype Report = Flag(value: bool) | Exception

  /** `main`: start with the flag false, call `calculate(n, completed)` and
      report the flag, or "exception" if it threw. The program itself
      passes n = -1. */
  method Driver(n: int, draws: seq<int>) returns (report: Report, completed: bool)
    requires n >= 0 ==> n * n <= |draws|
    requires DrawsInRange(draws)
    ensures n < 0 ==> report == Exception && !completed
    ensures n >= 0 ==> report == Flag(true) && completed
  {
    completed := false;
    var outcome;
    ghost var built, filled, final;
    outcome, completed, built, filled, final := Calculate(n, completed, draws);
    report := if outcome.Threw? then Exception else Flag(completed);
  }
}
