/**
 The value-level view of the matrix that `calculate` works on: an n-by-n
 grid of integers, the single "relaxation" write the triple loop performs,
 the exact sequence of those writes in loop order, and what they preserve.
 */
module Graph {

  /** Sentinel every cell holds right after construction. */
  const Inf: int := 1_000_000_000
  /** Inclusive bounds of the uniform distribution that fills the matrix. */
  const DrawMin: int := 0
  const DrawMax: int := 100000

  /** Row-major matrix: m[r][c] is the cell in row r, column c. */
  type Matrix = seq<seq<int>>

  /** Every row has as many columns as there are rows. */
  predicate Square(m: Matrix)
  {
    forall r :: 0 <= r < |m| ==> |m[r]| == |m|
  }

  /** Every cell lies in [lo, hi]. */
  predicate Bounded(m: Matrix, lo: int, hi: int)
  {
    forall r, c :: 0 <= r < |m| && 0 <= c < |m[r]| ==> lo <= m[r][c] <= hi
  }

  /** The set of values held by some cell. */
  function Values(m: Matrix): set<int>
  {
    set r, c | 0 <= r < |m| && 0 <= c < |m[r]| :: m[r][c]
  }

  /** std::min on int. */
  function Min(a: int, b: int): (r: int)
    ensures r <= a && r <= b
    ensures r == a || r == b
  {
    if b < a then b else a
  }

  /** The freshly constructed matrix: n rows of n columns, all Inf. */
  function Initial(n: nat): (m: Matrix)
    ensures |m| == n && Square(m)
    ensures forall r, c :: 0 <= r < n && 0 <= c < n ==> m[r][c] == Inf
    ensures n > 0 ==> Values(m) == {Inf}
  {
    var m := seq(n, r => seq(n, c => Inf));
    assert n > 0 ==> m[0][0] in Values(m);
    m
  }

  // ---------------------------------------------------------------------
  // The fill: cell (r, c) receives the draw with row-major index r * n + c.
  // ---------------------------------------------------------------------

  lemma MulMonotone(a: nat, b: nat, n: nat)
    requires a <= b
    ensures a * n <= b * n
  {
  }

  /** Row-major indices order cells lexicographically: (r, c) comes before
      (i, j) exactly when r < i, or r == i and c < j. */
  lemma {:induction false} RowMajorOrder(n: nat, r: nat, c: nat, i: nat, j: nat)
    requires c < n && j < n
    ensures r * n + c < i * n + j <==> (r < i || (r == i && c < j))
  {
    if r < i {
      MulMonotone(r + 1, i, n);
    } else if i < r {
      MulMonotone(i + 1, r, n);
    }
  }

  /** Distinct cells have distinct row-major indices: the fill writes each
      cell with its own draw, exactly once. */
  lemma {:induction false} RowMajorInjective(n: nat, r: nat, c: nat, i: nat, j: nat)
    requires c < n && j < n
    ensures r * n + c == i * n + j <==> r == i && c == j
  {
    RowMajorOrder(n, r, c, i, j);
    RowMajorOrder(n, i, j, r, c);
  }

  /** The draw that lands in cell (r, c): the (r * n + c)-th value taken
      from the generator. */
  function Draw(draws: seq<int>, n: nat, r: nat, c: nat): (v: int)
    requires r < n && c < n && n * n <= |draws|
    ensures r * n + c < n * n && v == draws[r * n + c]
  {
    RowMajorOrder(n, r, c, n - 1, n - 1);
    draws[r * n + c]
  }

  /** The matrix once the fill loop has run: cell (r, c) holds the
      (r * n + c)-th draw. */
  function Filled(n: nat, draws: seq<int>): (m: Matrix)
    requires n * n <= |draws|
    ensures |m| == n && Square(m)
  {
    seq(n, r requires 0 <= r < n => seq(n, c requires 0 <= c < n => Draw(draws, n, r, c)))
  }

  /** With every draw in [DrawMin, DrawMax], the filled matrix is bounded
      the same way, and no Inf is left in it. */
  lemma {:induction false} FilledBounded(n: nat, draws: seq<int>)
    requires n * n <= |draws|
    requires forall t :: 0 <= t < |draws| ==> DrawMin <= draws[t] <= DrawMax
    ensures Bounded(Filled(n, draws), DrawMin, DrawMax)
    ensures Inf !in Values(Filled(n, draws))
  {
    var m := Filled(n, draws);
    forall r, c | 0 <= r < |m| && 0 <= c < |m[r]| ensures DrawMin <= m[r][c] <= DrawMax {
      assert m[r][c] == Draw(draws, n, r, c);
    }
    BoundedValues(m, DrawMin, DrawMax);
  }

  // ---------------------------------------------------------------------
  // The relaxation step graph[j][k] = min(graph[j][i], graph[i][k]).
  // ---------------------------------------------------------------------

  /** One iteration of the triple loop: pivot i (`via`), row j, column k. */
  datatype Step = Step(via: int, row: int, col: int)

  predicate StepWithin(s: Step, n: int)
  {
    0 <= s.via < n && 0 <= s.row < n && 0 <= s.col < n
  }

  predicate AllWithin(steps: seq<Step>, n: int)
  {
    forall t :: 0 <= t < |steps| ==> StepWithin(steps[t], n)
  }

  /** The one write of a step: only cell (row, col) changes, and it takes
      the smaller of cells (row, via) and (via, col). */
  function Relax(m: Matrix, s: Step): (m': Matrix)
    requires Square(m) && StepWithin(s, |m|)
    ensures |m'| == |m| && Square(m')
    ensures m'[s.row][s.col] == Min(m[s.row][s.via], m[s.via][s.col])
    ensures forall r, c :: 0 <= r < |m| && 0 <= c < |m| && (r != s.row || c != s.col) ==> m'[r][c] == m[r][c]
  {
    m[s.row := m[s.row][s.col := Min(m[s.row][s.via], m[s.via][s.col])]]
  }

  /** The matrix after performing the steps in order, first to last. */
  function Run(m: Matrix, steps: seq<Step>): (m': Matrix)
    requires Square(m) && AllWithin(steps, |m|)
    ensures |m'| == |m| && Square(m')
    decreases |steps|
  {
    if steps == [] then m
    else Relax(Run(m, steps[..|steps| - 1]), steps[|steps| - 1])
  }

  /** Running two step sequences one after the other is running their
      concatenation. */
  lemma {:induction false} RunAppend(m: Matrix, a: seq<Step>, b: seq<Step>)
    requires Square(m) && AllWithin(a, |m|) && AllWithin(b, |m|)
    ensures AllWithin(a + b, |m|)
    ensures Run(m, a + b) == Run(Run(m, a), b)
    decreases |b|
  {
    var ab := a + b;
    assert AllWithin(ab, |m|) by {
      forall t | 0 <= t < |ab| ensures StepWithin(ab[t], |m|) {
        if t < |a| { assert ab[t] == a[t]; } else { assert ab[t] == b[t - |a|]; }
      }
    }
    if b == [] {
      assert ab == a;
    } else {
      var b' := b[..|b| - 1];
      assert ab[..|ab| - 1] == a + b';
      assert ab[|ab| - 1] == b[|b| - 1];
      RunAppend(m, a, b');
    }
  }

  // ---------------------------------------------------------------------
  // The loop order: for i, for j, for k.
  // ---------------------------------------------------------------------

  /** Steps (i, j, 0), ..., (i, j, k - 1): the innermost loop, for pivot i
      and row j, up to column k. */
  function ColumnSteps(i: nat, j: nat, k: nat): (s: seq<Step>)
    ensures |s| == k
    ensures forall t :: 0 <= t < k ==> s[t] == Step(i, j, t)
  {
    if k == 0 then [] else ColumnSteps(i, j, k - 1) + [Step(i, j, k - 1)]
  }

  /** Rows 0, ..., j - 1 of pivot i, each a full inner loop over n columns:
      the middle loop up to row j, which makes j * n steps. */
  function RowSteps(n: nat, i: nat, j: nat): (s: seq<Step>)
    ensures |s| == j * n
  {
    if j == 0 then []
    else
      assert (j - 1) * n + n == j * n;
      RowSteps(n, i, j - 1) + ColumnSteps(i, j - 1, n)
  }

  /** Pivots 0, ..., i - 1, each a full middle loop: the outer loop up to
      pivot i, which makes i * n * n steps. */
  function PivotSteps(n: nat, i: nat): (s: seq<Step>)
    ensures |s| == i * (n * n)
  {
    if i == 0 then []
    else
      assert (i - 1) * (n * n) + n * n == i * (n * n);
      PivotSteps(n, i - 1) + RowSteps(n, i - 1, n)
  }

  /** Every step the triple loop performs on an n-by-n matrix, in order. */
  function Schedule(n: nat): (s: seq<Step>)
    ensures AllWithin(s, n)
  {
    PivotStepsWithin(n, n);
    PivotSteps(n, n)
  }

  /** Lexicographic order on (pivot, row, column), the order of the loops. */
  predicate Before(s: Step, t: Step)
  {
    s.via < t.via || (s.via == t.via && (s.row < t.row || (s.row == t.row && s.col < t.col)))
  }

  /** Each step comes strictly before every later one. */
  predicate Increasing(steps: seq<Step>)
  {
    forall t, u :: 0 <= t < u < |steps| ==> Before(steps[t], steps[u])
  }

  lemma IncreasingConcat(a: seq<Step>, b: seq<Step>)
    requires Increasing(a) && Increasing(b)
    requires forall t, u :: 0 <= t < |a| && 0 <= u < |b| ==> Before(a[t], b[u])
    ensures Increasing(a + b)
  {
    var ab := a + b;
    forall t, u | 0 <= t < u < |ab| ensures Before(ab[t], ab[u]) {
      if u < |a| {
        assert ab[t] == a[t] && ab[u] == a[u];
      } else if t < |a| {
        assert ab[t] == a[t] && ab[u] == b[u - |a|];
      } else {
        assert ab[t] == b[t - |a|] && ab[u] == b[u - |a|];
      }
    }
  }

  /** The middle loop for pivot i, up to row j, only touches pivot i, rows
      below j and columns below n. */
  lemma {:induction false} RowStepsWithin(n: nat, i: nat, j: nat)
    ensures forall t :: 0 <= t < |RowSteps(n, i, j)| ==> RowSteps(n, i, j)[t].via == i && 0 <= RowSteps(n, i, j)[t].row < j && 0 <= RowSteps(n, i, j)[t].col < n
  {
    if j > 0 {
      RowStepsWithin(n, i, j - 1);
      var prev, cols := RowSteps(n, i, j - 1), ColumnSteps(i, j - 1, n);
      var all: seq<Step> := prev + cols;
      forall t | 0 <= t < |all| ensures all[t].via == i && 0 <= all[t].row < j && 0 <= all[t].col < n {
        if t < |prev| {
          assert all[t] == prev[t];
        } else {
          assert all[t] == cols[t - |prev|];
        }
      }
    }
  }

  /** The outer loop up to pivot i only touches pivots below i and rows and
      columns below n. */
  lemma {:induction false} PivotStepsWithin(n: nat, i: nat)
    ensures forall t :: 0 <= t < |PivotSteps(n, i)| ==> 0 <= PivotSteps(n, i)[t].via < i && 0 <= PivotSteps(n, i)[t].row < n && 0 <= PivotSteps(n, i)[t].col < n
  {
    if i > 0 {
      PivotStepsWithin(n, i - 1);
      RowStepsWithin(n, i - 1, n);
      var prev, rows := PivotSteps(n, i - 1), RowSteps(n, i - 1, n);
      var all: seq<Step> := prev + rows;
      forall t | 0 <= t < |all| ensures 0 <= all[t].via < i && 0 <= all[t].row < n && 0 <= all[t].col < n {
        if t < |prev| {
          assert all[t] == prev[t];
        } else {
          assert all[t] == rows[t - |prev|];
        }
      }
    }
  }

  /** The middle loop for pivot i, up to row j, performs (i, r, c) for
      every row r below j and column c below n. */
  lemma {:induction false} RowStepsCover(n: nat, i: nat, j: nat, r: nat, c: nat)
    requires r < j && c < n
    ensures Step(i, r, c) in RowSteps(n, i, j)
  {
    var prev, cols := RowSteps(n, i, j - 1), ColumnSteps(i, j - 1, n);
    assert RowSteps(n, i, j) == prev + cols;
    if r == j - 1 {
      assert cols[c] == Step(i, r, c);
    } else {
      RowStepsCover(n, i, j - 1, r, c);
    }
  }

  /** The outer loop up to pivot i performs (p, r, c) for every pivot p
      below i and row and column below n. */
  lemma {:induction false} PivotStepsCover(n: nat, i: nat, p: nat, r: nat, c: nat)
    requires p < i && r < n && c < n
    ensures Step(p, r, c) in PivotSteps(n, i)
  {
    var prev, rows := PivotSteps(n, i - 1), RowSteps(n, i - 1, n);
    assert PivotSteps(n, i) == prev + rows;
    if p == i - 1 {
      RowStepsCover(n, i - 1, n, r, c);
    } else {
      PivotStepsCover(n, i - 1, p, r, c);
    }
  }

  /** The middle loop performs its steps in increasing order. */
  lemma {:induction false} RowStepsIncreasing(n: nat, i: nat, j: nat)
    ensures Increasing(RowSteps(n, i, j))
  {
    if j > 0 {
      RowStepsIncreasing(n, i, j - 1);
      RowStepsWithin(n, i, j - 1);
      IncreasingConcat(RowSteps(n, i, j - 1), ColumnSteps(i, j - 1, n));
    }
  }

  /** The outer loop performs its steps in increasing order. */
  lemma {:induction false} PivotStepsIncreasing(n: nat, i: nat)
    ensures Increasing(PivotSteps(n, i))
  {
    if i > 0 {
      PivotStepsIncreasing(n, i - 1);
      PivotStepsWithin(n, i - 1);
      RowStepsIncreasing(n, i - 1, n);
      RowStepsWithin(n, i - 1, n);
      var prev, rows := PivotSteps(n, i - 1), RowSteps(n, i - 1, n);
      forall t, u | 0 <= t < |prev| && 0 <= u < |rows| ensures Before(prev[t], rows[u]) {
        assert prev[t].via < i - 1 == rows[u].via;
      }
      IncreasingConcat(prev, rows);
    }
  }

  /** The triple loop performs exactly n^3 steps, every one on a valid
      cell, each triple (i, j, k) of indices below n exactly once, in
      lexicographic order. */
  lemma ScheduleShape(n: nat)
    ensures |Schedule(n)| == n * n * n
    ensures forall i, j, k :: 0 <= i < n && 0 <= j < n && 0 <= k < n ==> Step(i, j, k) in Schedule(n)
    ensures Increasing(Schedule(n))
  {
    assert n * (n * n) == n * n * n;
    forall i, j, k | 0 <= i < n && 0 <= j < n && 0 <= k < n ensures Step(i, j, k) in Schedule(n) {
      PivotStepsCover(n, n, i, j, k);
    }
    PivotStepsIncreasing(n, n);
  }

  lemma PrefixConcat(p: seq<Step>, a: seq<Step>, b: seq<Step>)
    requires a <= b
    ensures p + a <= p + b
  {
    assert (p + b)[..|p + a|] == p + a;
  }

  lemma PrefixTransitive(a: seq<Step>, b: seq<Step>, c: seq<Step>)
    requires a <= b && b <= c
    ensures a <= c
  {
    assert c[..|a|] == b[..|a|];
  }

  /** Stopping the inner loop at column k leaves a prefix of its full run. */
  lemma ColumnStepsPrefix(i: nat, j: nat, k: nat, k': nat)
    requires k <= k'
    ensures ColumnSteps(i, j, k) <= ColumnSteps(i, j, k')
  {
    assert ColumnSteps(i, j, k')[..k] == ColumnSteps(i, j, k);
  }

  /** Stopping the middle loop at row j leaves a prefix of a later stop. */
  lemma {:induction false} RowStepsPrefix(n: nat, i: nat, j: nat, j': nat)
    requires j <= j'
    ensures RowSteps(n, i, j) <= RowSteps(n, i, j')
    decreases j'
  {
    if j < j' {
      RowStepsPrefix(n, i, j, j' - 1);
      var prev := RowSteps(n, i, j' - 1);
      assert (prev + ColumnSteps(i, j' - 1, n))[..|prev|] == prev;
      PrefixTransitive(RowSteps(n, i, j), prev, RowSteps(n, i, j'));
    }
  }

  /** Stopping the outer loop at pivot i leaves a prefix of a later stop. */
  lemma {:induction false} PivotStepsPrefix(n: nat, i: nat, i': nat)
    requires i <= i'
    ensures PivotSteps(n, i) <= PivotSteps(n, i')
    decreases i'
  {
    if i < i' {
      PivotStepsPrefix(n, i, i' - 1);
      var prev := PivotSteps(n, i' - 1);
      assert (prev + RowSteps(n, i' - 1, n))[..|prev|] == prev;
      PrefixTransitive(PivotSteps(n, i), prev, PivotSteps(n, i'));
    }
  }

  /** Within pivot i, the steps done when the middle loop stands at row j
      and the inner loop at column k are a prefix of the whole middle loop. */
  lemma RowStateInPivot(n: nat, i: nat, j: nat, k: nat)
    requires j < n && k <= n
    ensures RowSteps(n, i, j) + ColumnSteps(i, j, k) <= RowSteps(n, i, n)
  {
    var rs := RowSteps(n, i, j);
    ColumnStepsPrefix(i, j, k, n);
    PrefixConcat(rs, ColumnSteps(i, j, k), ColumnSteps(i, j, n));
    RowStepsPrefix(n, i, j + 1, n);
    PrefixTransitive(rs + ColumnSteps(i, j, k), RowSteps(n, i, j + 1), RowSteps(n, i, n));
  }

  /** Anything done by the end of pivot i is a prefix of the whole schedule. */
  lemma PivotPrefixInSchedule(n: nat, i: nat, a: seq<Step>)
    requires i < n && a <= PivotSteps(n, i + 1)
    ensures a <= Schedule(n)
  {
    PivotStepsPrefix(n, i + 1, n);
    PrefixTransitive(a, PivotSteps(n, i + 1), Schedule(n));
  }

  /** The steps done when the loops stand at pivot i, row j and column k
      (everything before (i, j, k)) are a prefix of the whole schedule. */
  lemma LoopStateInSchedule(n: nat, i: nat, j: nat, k: nat)
    requires i < n && j < n && k <= n
    ensures PivotSteps(n, i) + RowSteps(n, i, j) + ColumnSteps(i, j, k) <= Schedule(n)
  {
    var p, inner := PivotSteps(n, i), RowSteps(n, i, j) + ColumnSteps(i, j, k);
    RowStateInPivot(n, i, j, k);
    PrefixConcat(p, inner, RowSteps(n, i, n));
    PivotPrefixInSchedule(n, i, p + inner);
    assert PivotSteps(n, i) + RowSteps(n, i, j) + ColumnSteps(i, j, k) == p + inner;
  }

  // ---------------------------------------------------------------------
  // What the steps preserve.
  // ---------------------------------------------------------------------

  /** A step introduces no new value: the written cell takes a value
      already held by one of the two cells it reads. */
  lemma RelaxKeepsValues(m: Matrix, s: Step)
    requires Square(m) && StepWithin(s, |m|)
    ensures Values(Relax(m, s)) <= Values(m)
  {
    var m' := Relax(m, s);
    forall v | v in Values(m') ensures v in Values(m) {
      var r, c :| 0 <= r < |m'| && 0 <= c < |m'[r]| && m'[r][c] == v;
      if r == s.row && c == s.col {
        if v == m[s.row][s.via] {
          assert m[s.row][s.via] in Values(m);
        } else {
          assert m[s.via][s.col] in Values(m);
        }
      } else {
        assert m[r][c] in Values(m);
      }
    }
  }

  /** Any sequence of steps only permutes and duplicates existing values:
      every value of the result was already in the starting matrix. */
  lemma {:induction false} RunKeepsValues(m: Matrix, steps: seq<Step>)
    requires Square(m) && AllWithin(steps, |m|)
    ensures Values(Run(m, steps)) <= Values(m)
    decreases |steps|
  {
    if steps != [] {
      var prefix := steps[..|steps| - 1];
      RunKeepsValues(m, prefix);
      RelaxKeepsValues(Run(m, prefix), steps[|steps| - 1]);
    }
  }

  /** Bounds on cells are bounds on the value set, and back. */
  lemma BoundedValues(m: Matrix, lo: int, hi: int)
    ensures Bounded(m, lo, hi) <==> forall v :: v in Values(m) ==> lo <= v <= hi
  {
    if Bounded(m, lo, hi) {
      forall v | v in Values(m) ensures lo <= v <= hi {
        var r, c :| 0 <= r < |m| && 0 <= c < |m[r]| && m[r][c] == v;
      }
    }
    if forall v :: v in Values(m) ==> lo <= v <= hi {
      forall r, c | 0 <= r < |m| && 0 <= c < |m[r]| ensures lo <= m[r][c] <= hi {
        assert m[r][c] in Values(m);
      }
    }
  }

  /** Steps keep every cell within any bounds the starting matrix obeys. */
  lemma RunBounded(m: Matrix, steps: seq<Step>, lo: int, hi: int)
    requires Square(m) && AllWithin(steps, |m|)
    requires Bounded(m, lo, hi)
    ensures Bounded(Run(m, steps), lo, hi)
  {
    RunKeepsValues(m, steps);
    BoundedValues(m, lo, hi);
    BoundedValues(Run(m, steps), lo, hi);
  }

  /** At every point of the triple loop (after any number t of its steps),
      the matrix is still within the bounds of the fill. */
  lemma ScheduleBoundedThroughout(m: Matrix, t: nat, lo: int, hi: int)
    requires Square(m) && Bounded(m, lo, hi)
    requires t <= |Schedule(|m|)|
    ensures AllWithin(Schedule(|m|)[..t], |m|)
    ensures Bounded(Run(m, Schedule(|m|)[..t]), lo, hi)
  {
    RunBounded(m, Schedule(|m|)[..t], lo, hi);
  }

  /** Wherever the triple loop stands (pivot i, row j, column k), the
      matrix it has produced so far is within the bounds of the filled one. */
  lemma LoopStateBounded(m: Matrix, i: nat, j: nat, k: nat, lo: int, hi: int)
    requires Square(m) && Bounded(m, lo, hi)
    requires i < |m| && j < |m| && k <= |m|
    ensures AllWithin(PivotSteps(|m|, i) + RowSteps(|m|, i, j) + ColumnSteps(i, j, k), |m|)
    ensures Bounded(Run(m, PivotSteps(|m|, i) + RowSteps(|m|, i, j) + ColumnSteps(i, j, k)), lo, hi)
  {
    var done := PivotSteps(|m|, i) + RowSteps(|m|, i, j) + ColumnSteps(i, j, k);
    LoopStateInSchedule(|m|, i, j, k);
    assert done == Schedule(|m|)[..|done|];
    ScheduleBoundedThroughout(m, |done|, lo, hi);
  }
}
