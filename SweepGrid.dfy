/**
 * The index bookkeeping of perform_simulation, shared by ThawMaster and MeatTemp:
 * np.meshgrid of the two temperature axes, row-major ravel of both grids into one
 * flat work list, np.unravel_index of a flat result index, and the loop that
 * writes each result into time_grid.
 */
module SweepGrid {
  import opened Cooling

  /** g has the given number of rows, each of the given length. */
  ghost predicate Rectangular(g: seq<seq<real>>, rows: nat, cols: nat) {
    |g| == rows && forall r :: 0 <= r < rows ==> |g[r]| == cols
  }

  /** The Euclidean quotient and remainder are the only pair with the remainder in range. */
  lemma DivModUnique(k: int, n: int, q: int, r: int)
    requires n > 0 && 0 <= r < n && k == q * n + r
    ensures k / n == q && k % n == r
  {
    var q', r' := k / n, k % n;
    var d := q - q';
    assert d * n == r' - r by {
      assert k == q' * n + r';
      assert d * n == q * n - q' * n;
    }
    if d > 0 {
      MulAtLeast(d, n);
    } else if d < 0 {
      MulAtLeast(-d, n);
    }
  }

  lemma MulAtLeast(a: int, n: int)
    requires a >= 1 && n > 0
    ensures a * n >= n
  {
  }

  /** Row-major position of cell (r, c) in a rows × cols grid (np.ravel_multi_index). */
  function FlatIndex(r: nat, c: nat, rows: nat, cols: nat): (k: nat)
    requires r < rows && c < cols
    ensures k < rows * cols
    ensures k / cols == r && k % cols == c
  {
    FlatIndexFacts(r, c, rows, cols);
    r * cols + c
  }

  lemma FlatIndexFacts(r: nat, c: nat, rows: nat, cols: nat)
    requires r < rows && c < cols
    ensures r * cols + c < rows * cols
    ensures (r * cols + c) / cols == r && (r * cols + c) % cols == c
  {
    DivModUnique(r * cols + c, cols, r, c);
    MulMonotone(r + 1, rows, cols);
    assert (r + 1) * cols == r * cols + cols;
  }

  lemma MulMonotone(a: nat, b: nat, n: nat)
    requires a <= b
    ensures a * n <= b * n
  {
    assert b * n == a * n + (b - a) * n;
  }

  /** np.unravel_index(k, (rows, cols)): the cell of flat position k. */
  function Unravel(k: nat, rows: nat, cols: nat): (rc: (nat, nat))
    requires k < rows * cols
    ensures rc.0 < rows && rc.1 < cols
    ensures FlatIndex(rc.0, rc.1, rows, cols) == k
  {
    assert cols > 0;
    var r, c := k / cols, k % cols;
    (r, c)
  }

  /** Every cell of the grid is the unravelled position of exactly one flat index. */
  lemma UnravelHitsEachCellOnce(rows: nat, cols: nat, r: nat, c: nat, k: nat)
    requires r < rows && c < cols && k < rows * cols
    ensures Unravel(k, rows, cols) == (r, c) <==> k == FlatIndex(r, c, rows, cols)
  {
  }

  /** np.meshgrid(xs, ys): xs runs along the columns, ys along the rows. */
  function Meshgrid(xs: seq<real>, ys: seq<real>): (grids: (seq<seq<real>>, seq<seq<real>>))
    ensures Rectangular(grids.0, |ys|, |xs|) && Rectangular(grids.1, |ys|, |xs|)
    ensures forall r, c :: 0 <= r < |ys| && 0 <= c < |xs| ==> grids.0[r][c] == xs[c] && grids.1[r][c] == ys[r]
  {
    (seq(|ys|, r => xs), seq(|ys|, r requires 0 <= r < |ys| => seq(|xs|, c => ys[r])))
  }

  /** grid.ravel(): the rows laid end to end, so a rows × cols grid flattens to rows * cols values. */
  function Ravel(g: seq<seq<real>>): (flat: seq<real>)
    ensures forall cols :: Rectangular(g, |g|, cols) ==> |flat| == |g| * cols
  {
    if g == [] then []
    else
      var rest := Ravel(g[1..]);
      assert forall cols :: Rectangular(g, |g|, cols) ==>
        Rectangular(g[1..], |g| - 1, cols) && (|g| - 1) * cols + cols == |g| * cols;
      g[0] + rest
  }

  /** Cell (r, c) of a rectangular grid sits at its row-major position in the raveled grid. */
  lemma {:induction false} RavelAt(g: seq<seq<real>>, rows: nat, cols: nat, r: nat, c: nat)
    requires Rectangular(g, rows, cols) && r < rows && c < cols
    ensures |Ravel(g)| == rows * cols
    ensures Ravel(g)[FlatIndex(r, c, rows, cols)] == g[r][c]
    decreases r
  {
    assert Rectangular(g[1..], rows - 1, cols);
    if r > 0 {
      RavelAt(g[1..], rows - 1, cols, r - 1, c);
      assert FlatIndex(r, c, rows, cols) == FlatIndex(r - 1, c, rows - 1, cols) + cols;
    }
  }

  /**
   * zip(init_grid.ravel(), room_grid.ravel()): the work item at the flat position of
   * cell (r, c) pairs xs[c] with ys[r], the pair both grids hold at that cell.
   */
  function PairGrid(xs: seq<real>, ys: seq<real>): (pairs: seq<(real, real)>)
    ensures |pairs| == |ys| * |xs|
    ensures forall r, c :: 0 <= r < |ys| && 0 <= c < |xs| ==>
      pairs[FlatIndex(r, c, |ys|, |xs|)] == (xs[c], ys[r])
  {
    var grids := Meshgrid(xs, ys);
    var a, b := Ravel(grids.0), Ravel(grids.1);
    assert |a| == |ys| * |xs| && |b| == |ys| * |xs|;
    var pairs := seq(|a|, k requires 0 <= k < |a| => (a[k], b[k]));
    assert forall r, c :: 0 <= r < |ys| && 0 <= c < |xs| ==>
      pairs[FlatIndex(r, c, |ys|, |xs|)] == (xs[c], ys[r]) by {
      forall r, c | 0 <= r < |ys| && 0 <= c < |xs|
        ensures pairs[FlatIndex(r, c, |ys|, |xs|)] == (xs[c], ys[r])
      {
        RavelAt(grids.0, |ys|, |xs|, r, c);
        RavelAt(grids.1, |ys|, |xs|, r, c);
      }
    }
    pairs
  }

  /**
   * time_grid = np.zeros_like(init_grid), then for each result i:
   * time_grid[np.unravel_index(i, shape)] = time_to_cool.
   */
  method FillTimeGrid(results: seq<SimResult>, rows: nat, cols: nat) returns (timeGrid: array2<CoolTime>)
    requires |results| == rows * cols
    ensures fresh(timeGrid)
    ensures timeGrid.Length0 == rows && timeGrid.Length1 == cols
    ensures forall r, c :: 0 <= r < rows && 0 <= c < cols ==>
      timeGrid[r, c] == results[FlatIndex(r, c, rows, cols)].timeToCool
  {
    timeGrid := new CoolTime[rows, cols]((r, c) => CooledAt(0.0));
    for i := 0 to |results|
      invariant forall r, c :: 0 <= r < rows && 0 <= c < cols ==>
        timeGrid[r, c] == if FlatIndex(r, c, rows, cols) < i then results[FlatIndex(r, c, rows, cols)].timeToCool else CooledAt(0.0)
    {
      var rc := Unravel(i, rows, cols);
      timeGrid[rc.0, rc.1] := results[i].timeToCool;
    }
  }
}
