/** The mask post-processor set_to_zero_if_no_neighbours: one in-place raster sweep over the
    interior cells that clears a 1 whose four neighbours are all 0 and fills a 0 whose four
    neighbours are all 1, each cell seeing the updates already made to earlier cells. */
module PostProcess {
  import opened Grids
  import opened Masks
  import opened Wrappers

  /** (i, j) is neither in the first or last row nor in the first or last column. */
  predicate Interior(height: nat, width: nat, i: int, j: int) {
    1 <= i < height - 1 && 1 <= j < width - 1
  }

  /** The four neighbours of interior cell (i, j) all equal v. */
  predicate NeighboursAre(m: Grid<int>, height: nat, width: nat, i: nat, j: nat, v: int)
    requires HasShape(m, height, width) && Interior(height, width, i, j)
  {
    m[i + 1][j] == v && m[i - 1][j] == v && m[i][j + 1] == v && m[i][j - 1] == v
  }

  /** Interior cell (i, j) differs from each of its four neighbours. */
  predicate DiffersFromAllNeighbours(m: Grid<int>, height: nat, width: nat, i: nat, j: nat)
    requires HasShape(m, height, width) && Interior(height, width, i, j)
  {
    m[i][j] != m[i + 1][j] && m[i][j] != m[i - 1][j] && m[i][j] != m[i][j + 1] && m[i][j] != m[i][j - 1]
  }

  /** m with cell (i, j) replaced by v. */
  function SetCell(m: Grid<int>, i: nat, j: nat, v: int): Grid<int>
    requires i < |m| && j < |m[i]|
  {
    m[i := m[i][j := v]]
  }

  /** The two tests at one interior cell; the second sees the outcome of the first. */
  function UpdateCell(m: Grid<int>, height: nat, width: nat, i: nat, j: nat): (m': Grid<int>)
    requires HasShape(m, height, width) && Interior(height, width, i, j)
    ensures HasShape(m', height, width)
  {
    var cleared := if m[i][j] == 1 && NeighboursAre(m, height, width, i, j, 0) then 0 else m[i][j];
    var filled := if cleared == 0 && NeighboursAre(m, height, width, i, j, 1) then 1 else cleared;
    SetCell(m, i, j, filled)
  }

  /** The rest of the sweep, from cell (i, j) on in raster order (row by row, left to right). */
  function SweepFrom(m: Grid<int>, height: nat, width: nat, i: nat, j: nat): (m': Grid<int>)
    requires HasShape(m, height, width) && 1 <= i && 1 <= j
    ensures HasShape(m', height, width)
    decreases height - i, width - j
  {
    if i >= height - 1 then m
    else if j >= width - 1 then SweepFrom(m, height, width, i + 1, 1)
    else SweepFrom(UpdateCell(m, height, width, i, j), height, width, i, j + 1)
  }

  /** The whole sweep of a height-by-width mask. */
  function Sweep(m: Grid<int>, height: nat, width: nat): Grid<int>
    requires HasShape(m, height, width)
  {
    SweepFrom(m, height, width, 1, 1)
  }

  /** set_to_zero_if_no_neighbours: the raster sweep, in place. */
  method SetToZeroIfNoNeighbours(mask: array2<int>)
    modifies mask
    ensures Cells(mask) == Sweep(old(Cells(mask)), mask.Length0, mask.Length1)
  {
    var height, width := mask.Length0, mask.Length1;
    var i := 1;
    while i < height - 1
      invariant 1 <= i
      invariant SweepFrom(Cells(mask), height, width, i, 1) == Sweep(old(Cells(mask)), height, width)
    {
      var j := 1;
      while j < width - 1
        invariant 1 <= j
        invariant SweepFrom(Cells(mask), height, width, i, j) == Sweep(old(Cells(mask)), height, width)
      {
        UpdateInPlace(mask, i, j);
        j := j + 1;
      }
      i := i + 1;
    }
  }

  /** The body of the sweep's inner loop: the two tests at interior cell (i, j). */
  method UpdateInPlace(mask: array2<int>, i: nat, j: nat)
    requires Interior(mask.Length0, mask.Length1, i, j)
    modifies mask
    ensures Cells(mask) == UpdateCell(old(Cells(mask)), mask.Length0, mask.Length1, i, j)
  {
    ghost var before := Cells(mask);
    if mask[i, j] == 1 && mask[i + 1, j] == 0 && mask[i - 1, j] == 0
       && mask[i, j + 1] == 0 && mask[i, j - 1] == 0 {
      mask[i, j] := 0;
    }
    if mask[i, j] == 0 && mask[i + 1, j] == 1 && mask[i - 1, j] == 1
       && mask[i, j + 1] == 1 && mask[i, j - 1] == 1 {
      mask[i, j] := 1;
    }
    assert Cells(mask) == UpdateCell(before, mask.Length0, mask.Length1, i, j) by {
      var after := UpdateCell(before, mask.Length0, mask.Length1, i, j);
      forall r | 0 <= r < mask.Length0
        ensures Cells(mask)[r] == after[r]
      {
      }
    }
  }

  /** postprocess_prediction: prediction rows to mask, one sweep, and back to prediction rows;
      the IndexError of prediction_to_mask passes through. */
  method PostprocessPrediction(prediction: array2<real>, width: nat, height: nat)
    returns (r: Result<array2<real>>)
    ensures r.Failure? <==> !RowsCover(prediction.Length0, prediction.Length1, height * width)
    ensures r.Failure? ==> r.error == "IndexError"
    ensures r.Success? ==> fresh(r.value)
    ensures r.Success? ==>
              Cells(r.value)
              == PredictionFromMask(Sweep(MaskFromPrediction(Cells(prediction), width, height), height, width),
                                    height, width)
  {
    var mask := PredictionToMask(prediction, width, height);
    if mask.Failure? {
      return Failure(mask.error);
    }
    SetToZeroIfNoNeighbours(mask.value);
    var result := MaskToPrediction(mask.value);
    return Success(result);
  }

  /** The sweep only ever writes interior cells: row 0, row height-1, column 0 and column
      width-1 keep their values. */
  lemma {:induction false} SweepFromKeepsBorder(m: Grid<int>, height: nat, width: nat, i: nat, j: nat)
    requires HasShape(m, height, width) && 1 <= i && 1 <= j
    ensures forall r, c :: 0 <= r < height && 0 <= c < width && !Interior(height, width, r, c) ==>
              SweepFrom(m, height, width, i, j)[r][c] == m[r][c]
    decreases height - i, width - j
  {
    if i >= height - 1 {
    } else if j >= width - 1 {
      SweepFromKeepsBorder(m, height, width, i + 1, 1);
    } else {
      SweepFromKeepsBorder(UpdateCell(m, height, width, i, j), height, width, i, j + 1);
    }
  }

  /** The sweep never changes a border cell. */
  lemma SweepKeepsBorder(m: Grid<int>, height: nat, width: nat)
    requires HasShape(m, height, width)
    ensures HasShape(Sweep(m, height, width), height, width)
    ensures forall c :: 0 <= c < width && height > 0 ==>
              Sweep(m, height, width)[0][c] == m[0][c] && Sweep(m, height, width)[height - 1][c] == m[height - 1][c]
    ensures forall r :: 0 <= r < height && width > 0 ==>
              Sweep(m, height, width)[r][0] == m[r][0] && Sweep(m, height, width)[r][width - 1] == m[r][width - 1]
  {
    SweepFromKeepsBorder(m, height, width, 1, 1);
  }

  /** A {0,1} mask stays a {0,1} mask. */
  lemma {:induction false} SweepFromKeepsBinary(m: Grid<int>, height: nat, width: nat, i: nat, j: nat)
    requires HasShape(m, height, width) && 1 <= i && 1 <= j && Binary(m)
    ensures Binary(SweepFrom(m, height, width, i, j))
    decreases height - i, width - j
  {
    if i >= height - 1 {
    } else if j >= width - 1 {
      SweepFromKeepsBinary(m, height, width, i + 1, 1);
    } else {
      var m' := UpdateCell(m, height, width, i, j);
      assert Binary(m') by {
        forall r, c | 0 <= r < |m'| && 0 <= c < |m'[r]|
          ensures m'[r][c] == 0 || m'[r][c] == 1
        {
          if r != i || c != j {
            assert m'[r][c] == m[r][c];
          }
        }
      }
      SweepFromKeepsBinary(m', height, width, i, j + 1);
    }
  }

  /** No interior cell differs from all four of its neighbours. */
  predicate Smooth(m: Grid<int>, height: nat, width: nat)
    requires HasShape(m, height, width)
  {
    forall i: nat, j: nat :: 1 <= i < height - 1 && 1 <= j < width - 1 ==>
      !DiffersFromAllNeighbours(m, height, width, i, j)
  }

  /** A cell that does not differ from all its neighbours is left alone. */
  lemma UpdateCellKeeps(m: Grid<int>, height: nat, width: nat, i: nat, j: nat)
    requires HasShape(m, height, width) && Interior(height, width, i, j)
    requires !DiffersFromAllNeighbours(m, height, width, i, j)
    ensures UpdateCell(m, height, width, i, j) == m
  {
    assert m[i][j := m[i][j]] == m[i];
  }

  /** From any cell on, the sweep leaves a smooth mask as it is. */
  lemma {:induction false} SweepFromSmooth(m: Grid<int>, height: nat, width: nat, i: nat, j: nat)
    requires HasShape(m, height, width) && 1 <= i && 1 <= j && Smooth(m, height, width)
    ensures SweepFrom(m, height, width, i, j) == m
    decreases height - i, width - j
  {
    if i >= height - 1 {
    } else if j >= width - 1 {
      SweepFromSmooth(m, height, width, i + 1, 1);
    } else {
      UpdateCellKeeps(m, height, width, i, j);
      SweepFromSmooth(m, height, width, i, j + 1);
    }
  }

  /** A mask in which no interior cell differs from all four of its neighbours comes back
      unchanged. */
  lemma SmoothUnchanged(m: Grid<int>, height: nat, width: nat)
    requires HasShape(m, height, width) && Smooth(m, height, width)
    ensures Sweep(m, height, width) == m
  {
    SweepFromSmooth(m, height, width, 1, 1);
  }

  /** Cell (i, j) is visited no later than cell (a, b) in raster order. */
  predicate NotAfter(i: nat, j: nat, a: nat, b: nat) {
    i < a || (i == a && j <= b)
  }

  /** From any cell not after the lone cell (a, b), the sweep of a mask that is background
      everywhere except (a, b) ends in the all-background mask. */
  lemma {:induction false} SweepFromLoneCell(height: nat, width: nat, background: int, a: nat, b: nat, i: nat, j: nat)
    requires background == 0 || background == 1
    requires Interior(height, width, a, b) && 1 <= i && 1 <= j && NotAfter(i, j, a, b)
    ensures SweepFrom(SetCell(Constant(height, width, background), a, b, 1 - background), height, width, i, j)
            == Constant(height, width, background)
    decreases height - i, width - j
  {
    var flat := Constant(height, width, background);
    var m := SetCell(flat, a, b, 1 - background);
    if j >= width - 1 {
      SweepFromLoneCell(height, width, background, a, b, i + 1, 1);
    } else if i == a && j == b {
      assert UpdateCell(m, height, width, i, j) == flat by {
        assert m[a][b := background] == flat[a];
        assert SetCell(m, a, b, background) == flat;
      }
      SweepFromSmooth(flat, height, width, i, j + 1);
    } else {
      UpdateCellKeeps(m, height, width, i, j);
      SweepFromLoneCell(height, width, background, a, b, i, j + 1);
    }
  }

  /** A lone interior 1 in an all-0 mask is cleared, and a lone interior 0 in an all-1 mask is
      filled: either way the result is uniform. */
  lemma LoneCellRemoved(height: nat, width: nat, a: nat, b: nat)
    requires Interior(height, width, a, b)
    ensures Sweep(SetCell(Constant(height, width, 0), a, b, 1), height, width) == Constant(height, width, 0)
    ensures Sweep(SetCell(Constant(height, width, 1), a, b, 0), height, width) == Constant(height, width, 1)
  {
    SweepFromLoneCell(height, width, 0, a, b, 1, 1);
    SweepFromLoneCell(height, width, 1, a, b, 1, 1);
  }

  /** Post-processing leaves the prediction rows of a smooth {0,1} mask as they are, and every
      row it returns is one-hot. */
  lemma PostprocessSmooth(m: Grid<int>, height: nat, width: nat)
    requires HasShape(m, height, width) && Binary(m) && Smooth(m, height, width)
    ensures var p := PredictionFromMask(m, height, width);
            Scored(p, height * width) &&
            PredictionFromMask(Sweep(MaskFromPrediction(p, width, height), height, width), height, width) == p
  {
    var p := PredictionFromMask(m, height, width);
    forall k | 0 <= k < height * width
      ensures |p[k]| > 0
    {
    }
    MaskRoundTrip(m, height, width);
    SmoothUnchanged(m, height, width);
  }

  /** Updates are seen by later cells: in this 3-by-4 mask cell (1, 2) is a 1 whose neighbours
      are all 0, yet it survives, because the hole at (1, 1) is filled first. */
  lemma RasterOrderMatters()
    ensures var m := [[0, 1, 0, 0], [1, 0, 1, 0], [0, 1, 0, 0]];
            DiffersFromAllNeighbours(m, 3, 4, 1, 2) &&
            Sweep(m, 3, 4) == [[0, 1, 0, 0], [1, 1, 1, 0], [0, 1, 0, 0]]
  {
    var m := [[0, 1, 0, 0], [1, 0, 1, 0], [0, 1, 0, 0]];
    assert NeighboursAre(m, 3, 4, 1, 1, 1);
    var m1 := UpdateCell(m, 3, 4, 1, 1);
    assert m1 == SetCell(m, 1, 1, 1);
    assert m[1][1 := 1] == [1, 1, 1, 0];
    assert m1 == [[0, 1, 0, 0], [1, 1, 1, 0], [0, 1, 0, 0]];
    assert !NeighboursAre(m1, 3, 4, 1, 2, 0);
    assert m1[1][2 := 1] == m1[1];
    assert UpdateCell(m1, 3, 4, 1, 2) == m1;
  }
}
