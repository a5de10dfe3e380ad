/** The submission encoder: for each P-by-P block of a test image's prediction, one row holding
    the id str(i).zfill(3) + "_" + str(x) + "_" + str(y) and the value str(prediction[y, x]),
    with x as the outer and y as the inner loop. */
module Submission {
  import opened Arith
  import opened Grids
  import opened Wrappers
  import opened Patches
  import opened Masks

  /** The decimal digit for d. */
  function DigitChar(d: nat): (c: char)
    requires d < 10
    ensures '0' <= c <= '9'
  {
    "0123456789"[d]
  }

  predicate IsDigits(s: string) {
    forall k :: 0 <= k < |s| ==> '0' <= s[k] <= '9'
  }

  /** The value of a string of decimal digits, most significant first. */
  function DigitsValue(s: string): nat
    requires IsDigits(s)
  {
    if |s| == 0 then 0 else 10 * DigitsValue(s[..|s| - 1]) + (s[|s| - 1] as int - '0' as int)
  }

  /** str(n) for a non-negative n: a non-empty digit string without a leading zero. */
  function NatToString(n: nat): (s: string)
    ensures |s| >= 1 && IsDigits(s)
    ensures |s| == 1 || s[0] != '0'
  {
    if n < 10 then [DigitChar(n)] else NatToString(n / 10) + [DigitChar(n % 10)]
  }

  /** Reading str(n) back as a decimal number gives n. */
  lemma {:induction false} NatToStringRoundTrip(n: nat)
    ensures DigitsValue(NatToString(n)) == n
  {
    var s := NatToString(n);
    if n >= 10 {
      NatToStringRoundTrip(n / 10);
      assert s[..|s| - 1] == NatToString(n / 10);
    }
  }

  /** str(v) for any integer v. */
  function IntToString(v: int): (s: string)
    ensures v >= 0 ==> s == NatToString(v)
    ensures v < 0 ==> |s| >= 2 && s[0] == '-' && s[1..] == NatToString(-v)
  {
    if v < 0 then "-" + NatToString(-v) else NatToString(v)
  }

  /** Reading str(v) back gives v: a digit string of value v for v >= 0, and '-' followed by a
      digit string of value -v for v < 0. */
  lemma IntToStringRoundTrip(v: int)
    ensures v >= 0 ==> IsDigits(IntToString(v)) && DigitsValue(IntToString(v)) == v
    ensures v < 0 ==> IntToString(v)[0] == '-' && IsDigits(IntToString(v)[1..])
                      && DigitsValue(IntToString(v)[1..]) == -v
  {
    if v >= 0 {
      NatToStringRoundTrip(v);
    } else {
      NatToStringRoundTrip(-v);
    }
  }

  /** s.zfill(width) for a digit string s: zeros in front up to the width, s itself at the end. */
  function ZFill(s: string, width: nat): (r: string)
    ensures |r| == if |s| >= width then |s| else width
    ensures r[|r| - |s|..] == s
    ensures forall k :: 0 <= k < |r| - |s| ==> r[k] == '0'
  {
    if |s| >= width then s else seq(width - |s|, _ => '0') + s
  }

  /** Leading zeros do not change the value of a digit string. */
  lemma {:induction false} LeadingZeros(z: string, s: string)
    requires forall k :: 0 <= k < |z| ==> z[k] == '0'
    requires IsDigits(s)
    ensures IsDigits(z + s) && DigitsValue(z + s) == DigitsValue(s)
    decreases |s|, |z|
  {
    if |s| > 0 {
      assert (z + s)[..|z + s| - 1] == z + s[..|s| - 1];
      LeadingZeros(z, s[..|s| - 1]);
    } else if |z| > 0 {
      assert z + s == z;
      assert z[..|z| - 1] + [] == z[..|z| - 1];
      LeadingZeros(z[..|z| - 1], []);
    }
  }

  /** The id of the block at column x and row y of test image i. */
  function PatchId(i: nat, x: nat, y: nat): string {
    ZFill(NatToString(i), 3) + "_" + NatToString(x) + "_" + NatToString(y)
  }

  /** Digit strings carry no '_', so the first '_' of a + "_" + u sits right after a. */
  lemma SplitAtUnderscore(a: string, u: string, a': string, u': string)
    requires IsDigits(a) && IsDigits(a') && a + "_" + u == a' + "_" + u'
    ensures a == a' && u == u'
  {
    var s := a + "_" + u;
    assert s[|a|] == '_' && s[|a'|] == '_';
    assert forall k :: 0 <= k < |a| ==> s[k] == a[k];
    assert forall k :: 0 <= k < |a'| ==> s[k] == a'[k];
    assert |a| == |a'|;
    assert a == s[..|a|] == a';
    assert u == s[|a| + 1..] == u';
  }

  /** Two '_'-joined triples of digit strings are equal only part by part. */
  lemma JoinedParts(a: string, b: string, c: string, a': string, b': string, c': string)
    requires IsDigits(a) && IsDigits(b) && IsDigits(c) && IsDigits(a') && IsDigits(b') && IsDigits(c')
    requires a + "_" + b + "_" + c == a' + "_" + b' + "_" + c'
    ensures a == a' && b == b' && c == c'
  {
    assert a + "_" + b + "_" + c == a + "_" + (b + "_" + c);
    assert a' + "_" + b' + "_" + c' == a' + "_" + (b' + "_" + c');
    SplitAtUnderscore(a, b + "_" + c, a', b' + "_" + c');
    SplitAtUnderscore(b, c, b', c');
  }

  /** str(i).zfill(3) is a digit string whose value is i. */
  lemma ZFillValue(i: nat)
    ensures IsDigits(ZFill(NatToString(i), 3)) && DigitsValue(ZFill(NatToString(i), 3)) == i
  {
    var s := NatToString(i);
    var a := ZFill(s, 3);
    LeadingZeros(a[..|a| - |s|], s);
    assert a == a[..|a| - |s|] + s;
    NatToStringRoundTrip(i);
  }

  /** Different blocks, or different images, never share an id. */
  lemma PatchIdInjective(i: nat, x: nat, y: nat, i': nat, x': nat, y': nat)
    requires PatchId(i, x, y) == PatchId(i', x', y')
    ensures i == i' && x == x' && y == y'
  {
    ZFillValue(i);
    ZFillValue(i');
    JoinedParts(ZFill(NatToString(i), 3), NatToString(x), NatToString(y),
                ZFill(NatToString(i'), 3), NatToString(x'), NatToString(y'));
    NatToStringRoundTrip(x);
    NatToStringRoundTrip(x');
    NatToStringRoundTrip(y);
    NatToStringRoundTrip(y');
  }

  /** One line of submission.csv. */
  datatype Row = Row(id: string, value: string)

  /** Every element access prediction[y, x] of the two loops lies inside the array. */
  predicate Addressable(rows: nat, cols: nat, xs: seq<nat>, ys: seq<nat>) {
    |xs| == 0 || |ys| == 0 ||
    ((forall a :: 0 <= a < |xs| ==> xs[a] < cols) && (forall b :: 0 <= b < |ys| ==> ys[b] < rows))
  }

  /** Every access prediction[y, x] of the inner loop for one x lies inside the array. */
  predicate ColumnInside(rows: nat, cols: nat, x: nat, ys: seq<nat>) {
    forall b :: 0 <= b < |ys| ==> ys[b] < rows && x < cols
  }

  /** The row of block (x, y): its id and the value prediction[y, x]. */
  function CellRow(i: nat, cells: Grid<int>, rows: nat, cols: nat, x: nat, y: nat): Row
    requires HasShape(cells, rows, cols) && y < rows && x < cols
  {
    Row(PatchId(i, x, y), IntToString(cells[y][x]))
  }

  /** The rows the inner loop emits for one x. */
  function ColumnRows(i: nat, cells: Grid<int>, rows: nat, cols: nat, x: nat, ys: seq<nat>): (r: seq<Row>)
    requires HasShape(cells, rows, cols) && ColumnInside(rows, cols, x, ys)
    ensures |r| == |ys|
  {
    seq(|ys|, b requires 0 <= b < |ys| => CellRow(i, cells, rows, cols, x, ys[b]))
  }

  /** The rows of the two loops, x over xs outside, y over ys inside. */
  function BlockRows(i: nat, cells: Grid<int>, rows: nat, cols: nat, xs: seq<nat>, ys: seq<nat>): seq<Row>
    requires HasShape(cells, rows, cols) && Addressable(rows, cols, xs, ys)
  {
    if |xs| == 0 then []
    else
      var init := xs[..|xs| - 1];
      assert forall a :: 0 <= a < |init| ==> init[a] == xs[a];
      BlockRows(i, cells, rows, cols, init, ys) + ColumnRows(i, cells, rows, cols, xs[|xs| - 1], ys)
  }

  /** The rows of test image i: IndexError when some prediction[y, x] falls outside the array,
      since x runs over the first dimension and y over the second. */
  function ImageRows(i: nat, cells: Grid<int>, rows: nat, cols: nat, patchSize: nat): Result<seq<Row>>
    requires patchSize > 0 && HasShape(cells, rows, cols)
  {
    var xs, ys := Range(0, rows, patchSize), Range(0, cols, patchSize);
    if Addressable(rows, cols, xs, ys) then Success(BlockRows(i, cells, rows, cols, xs, ys))
    else Failure("IndexError")
  }

  /** Appending the row of ys[b] to the rows of ys[..b]. */
  lemma ColumnRowsStep(i: nat, cells: Grid<int>, rows: nat, cols: nat, x: nat, ys: seq<nat>, b: nat)
    requires HasShape(cells, rows, cols) && b < |ys| && ColumnInside(rows, cols, x, ys[..b]) && ys[b] < rows && x < cols
    ensures ColumnInside(rows, cols, x, ys[..b + 1])
    ensures ColumnRows(i, cells, rows, cols, x, ys[..b + 1])
            == ColumnRows(i, cells, rows, cols, x, ys[..b]) + [CellRow(i, cells, rows, cols, x, ys[b])]
  {
    var longer, shorter := ys[..b + 1], ys[..b];
    assert forall k :: 0 <= k < b ==> longer[k] == ys[k] == shorter[k];
    assert longer[b] == ys[b];
    assert ColumnInside(rows, cols, x, longer);
    var lhs := ColumnRows(i, cells, rows, cols, x, longer);
    var head := ColumnRows(i, cells, rows, cols, x, shorter);
    var last := CellRow(i, cells, rows, cols, x, ys[b]);
    assert forall k :: 0 <= k < b ==> lhs[k] == head[k];
    assert lhs[b] == last;
    assert lhs == head + [last];
  }



  /** Appending the rows of xs[a] to the rows of xs[..a]. */
  lemma BlockRowsStep(i: nat, cells: Grid<int>, rows: nat, cols: nat, xs: seq<nat>, ys: seq<nat>, a: nat)
    requires HasShape(cells, rows, cols) && a < |xs| && Addressable(rows, cols, xs[..a + 1], ys)
    ensures Addressable(rows, cols, xs[..a], ys)
    ensures BlockRows(i, cells, rows, cols, xs[..a + 1], ys)
            == BlockRows(i, cells, rows, cols, xs[..a], ys) + ColumnRows(i, cells, rows, cols, xs[a], ys)
  {
    assert xs[..a + 1][..a] == xs[..a];
    assert forall k :: 0 <= k < a ==> xs[..a][k] == xs[..a + 1][k];
  }

  /** A column with an access outside the array makes the loops fail. */
  lemma OutsideFails(rows: nat, cols: nat, xs: seq<nat>, ys: seq<nat>, a: nat)
    requires a < |xs| && !ColumnInside(rows, cols, xs[a], ys)
    ensures !Addressable(rows, cols, xs, ys)
  {
  }

  /** A column whose every access is inside the array extends the addressable prefix. */
  lemma AddressableStep(rows: nat, cols: nat, xs: seq<nat>, ys: seq<nat>, a: nat)
    requires a < |xs| && Addressable(rows, cols, xs[..a], ys) && ColumnInside(rows, cols, xs[a], ys)
    ensures Addressable(rows, cols, xs[..a + 1], ys)
  {
    if |ys| > 0 {
      assert ys[0] < rows && xs[a] < cols;
      assert forall k :: 0 <= k < a ==> xs[..a][k] < cols;
      assert forall k :: 0 <= k < a ==> xs[..a + 1][k] == xs[..a][k];
      assert xs[..a + 1][a] == xs[a];
    }
  }

  /** The inner loop for one x: IndexError at the first y outside the array, otherwise the
      rows of the whole column. */
  method ColumnLoop(i: nat, prediction: array2<int>, x: nat, ys: seq<nat>) returns (r: Result<seq<Row>>)
    ensures r.Success? <==> ColumnInside(prediction.Length0, prediction.Length1, x, ys)
    ensures r.Success? ==> r.value == ColumnRows(i, Cells(prediction), prediction.Length0, prediction.Length1, x, ys)
    ensures r.Failure? ==> r.error == "IndexError"
  {
    var numRows, numCols := prediction.Length0, prediction.Length1;
    ghost var cells := Cells(prediction);
    var column: seq<Row> := [];
    for b := 0 to |ys|
      invariant ColumnInside(numRows, numCols, x, ys[..b])
      invariant column == ColumnRows(i, cells, numRows, numCols, x, ys[..b])
    {
      var y := ys[b];
      if y >= numRows || x >= numCols {
        return Failure("IndexError");
      }
      ColumnRowsStep(i, cells, numRows, numCols, x, ys, b);
      CellAt(prediction, y, x);
      var row := Row(PatchId(i, x, y), IntToString(prediction[y, x]));
      assert row == CellRow(i, cells, numRows, numCols, x, y);
      column := column + [row];
    }
    assert ys[..|ys|] == ys;
    r := Success(column);
  }

  /** The construction of rows_out for test image i. */
  method SubmissionRows(i: nat, prediction: array2<int>, patchSize: nat) returns (r: Result<seq<Row>>)
    requires patchSize > 0
    ensures r == ImageRows(i, Cells(prediction), prediction.Length0, prediction.Length1, patchSize)
  {
    var numRows, numCols := prediction.Length0, prediction.Length1;
    ghost var cells := Cells(prediction);
    var xs, ys := Range(0, numRows, patchSize), Range(0, numCols, patchSize);
    var rowsOut: seq<Row> := [];
    for a := 0 to |xs|
      invariant Addressable(numRows, numCols, xs[..a], ys)
      invariant rowsOut == BlockRows(i, cells, numRows, numCols, xs[..a], ys)
    {
      var column := ColumnLoop(i, prediction, xs[a], ys);
      if column.Failure? {
        OutsideFails(numRows, numCols, xs, ys, a);
        return column;
      }
      AddressableStep(numRows, numCols, xs, ys, a);
      BlockRowsStep(i, cells, numRows, numCols, xs, ys, a);
      rowsOut := rowsOut + column.value;
    }
    assert xs[..|xs|] == xs;
    r := Success(rowsOut);
  }

  /** The two loops emit |xs| * |ys| rows. */
  lemma {:induction false} BlockRowsLength(i: nat, cells: Grid<int>, rows: nat, cols: nat, xs: seq<nat>, ys: seq<nat>)
    requires HasShape(cells, rows, cols) && Addressable(rows, cols, xs, ys)
    ensures |BlockRows(i, cells, rows, cols, xs, ys)| == |xs| * |ys|
  {
    if |xs| > 0 {
      var n := |xs|;
      BlockRowsStep(i, cells, rows, cols, xs, ys, n - 1);
      assert xs[..n] == xs;
      BlockRowsLength(i, cells, rows, cols, xs[..n - 1], ys);
      LastBlock(n, |ys|);
    }
  }

  /** Row a * |ys| + b is the block at x = xs[a], y = ys[b], valued prediction[ys[b], xs[a]]. */
  lemma {:induction false} BlockRowsAt(i: nat, cells: Grid<int>, rows: nat, cols: nat, xs: seq<nat>, ys: seq<nat>,
                                       a: nat, b: nat)
    requires HasShape(cells, rows, cols) && Addressable(rows, cols, xs, ys)
    requires a < |xs| && b < |ys|
    ensures a * |ys| + b < |BlockRows(i, cells, rows, cols, xs, ys)|
    ensures xs[a] < cols && ys[b] < rows
    ensures BlockRows(i, cells, rows, cols, xs, ys)[a * |ys| + b] == CellRow(i, cells, rows, cols, xs[a], ys[b])
  {
    var n, m := |xs|, |ys|;
    var front := xs[..n - 1];
    assert xs[..n] == xs;
    BlockRowsStep(i, cells, rows, cols, xs, ys, n - 1);
    BlockRowsLength(i, cells, rows, cols, front, ys);
    var head := BlockRows(i, cells, rows, cols, front, ys);
    var column := ColumnRows(i, cells, rows, cols, xs[n - 1], ys);
    if a < n - 1 {
      assert front[a] == xs[a];
      BlockRowsAt(i, cells, rows, cols, front, ys, a, b);
    }
    BlockAt(head, column, n, m, a, b);
  }

  /** Position a * m + b of the rows of n - 1 columns followed by one more column of m rows. */
  lemma BlockAt<T>(head: seq<T>, column: seq<T>, n: nat, m: nat, a: nat, b: nat)
    requires 0 < n && |head| == (n - 1) * m && |column| == m && a < n && b < m
    requires a < n - 1 ==> a * m + b < |head|
    ensures a * m + b < |head + column|
    ensures (head + column)[a * m + b] == if a < n - 1 then head[a * m + b] else column[b]
  {
    LastBlock(n, m);
  }

  /** The id of block (16, 0) of test image 3. */
  lemma ExampleId()
    ensures PatchId(3, 16, 0) == "003_16_0"
  {
    assert NatToString(16) == "16" by {
      assert NatToString(16) == NatToString(1) + [DigitChar(6)];
    }
    assert ZFill("3", 3) == "003";
  }

  /** Test image 3 with a 1 at prediction[0, 16] yields the row 003_16_0,1, emitted right after
      the column x = 0. */
  lemma SubmissionExample(cells: Grid<int>, n: nat)
    requires HasShape(cells, n, n) && n > 16 && cells[0][16] == 1
    ensures ImageRows(3, cells, n, n, 16).Success?
    ensures NumBlocks(n, 16) < |ImageRows(3, cells, n, n, 16).value|
    ensures ImageRows(3, cells, n, n, 16).value[NumBlocks(n, 16)] == Row("003_16_0", "1")
  {
    SquareAgrees(3, cells, n, 16);
    var blocks := NumBlocks(n, 16);
    var r := CorrectedRows(3, cells, n, n, 16);
    assert 1 < blocks by {
      BlockOf(16, 16, n);
    }
    assert blocks < |r| && r[blocks] == Row(PatchId(3, 16, 0), IntToString(cells[0][16])) by {
      CorrectedRowsShape(3, cells, n, n, 16);
      assert r[1 * blocks + 0] == Row(PatchId(3, 1 * 16, 0 * 16), IntToString(cells[0 * 16][1 * 16]));
      assert 1 * blocks + 0 == blocks;
    }
    ExampleId();
    assert IntToString(1) == "1";
  }

  /** Whenever the loops as written do not raise, they emit ceil(rows / P) * ceil(cols / P)
      rows, row a * ceil(cols / P) + b holding x = a * P, y = b * P and prediction[y, x]. */
  lemma ImageRowsShape(i: nat, cells: Grid<int>, rows: nat, cols: nat, patchSize: nat)
    requires patchSize > 0 && HasShape(cells, rows, cols)
    ensures var r := ImageRows(i, cells, rows, cols, patchSize);
            r.Success? ==>
              |r.value| == NumBlocks(rows, patchSize) * NumBlocks(cols, patchSize) &&
              forall a, b :: 0 <= a < NumBlocks(rows, patchSize) && 0 <= b < NumBlocks(cols, patchSize) ==>
                a * patchSize < cols && b * patchSize < rows && a * NumBlocks(cols, patchSize) + b < |r.value| &&
                r.value[a * NumBlocks(cols, patchSize) + b]
                == Row(PatchId(i, a * patchSize, b * patchSize), IntToString(cells[b * patchSize][a * patchSize]))
  {
    var xs, ys := Range(0, rows, patchSize), Range(0, cols, patchSize);
    BlockOrigins(rows, patchSize);
    BlockOrigins(cols, patchSize);
    if Addressable(rows, cols, xs, ys) {
      BlockRowsLength(i, cells, rows, cols, xs, ys);
      forall a, b | 0 <= a < NumBlocks(rows, patchSize) && 0 <= b < NumBlocks(cols, patchSize)
        ensures a * patchSize < cols && b * patchSize < rows
        ensures a * NumBlocks(cols, patchSize) + b < |BlockRows(i, cells, rows, cols, xs, ys)|
        ensures BlockRows(i, cells, rows, cols, xs, ys)[a * NumBlocks(cols, patchSize) + b]
                == Row(PatchId(i, a * patchSize, b * patchSize), IntToString(cells[b * patchSize][a * patchSize]))
      {
        BlockRowsAt(i, cells, rows, cols, xs, ys, a, b);
        assert xs[a] == a * patchSize && ys[b] == b * patchSize;
      }
    }
  }

  /** The loops as written raise exactly when the prediction has a different number of
      blocks along its two axes, neither of them zero: a 20-by-17 prediction with P = 16 has
      two blocks along each axis and does not raise. */
  lemma ImageRowsFailsExactly(i: nat, cells: Grid<int>, rows: nat, cols: nat, patchSize: nat)
    requires patchSize > 0 && HasShape(cells, rows, cols)
    ensures ImageRows(i, cells, rows, cols, patchSize).Failure?
            <==> NumBlocks(rows, patchSize) != NumBlocks(cols, patchSize)
                 && NumBlocks(rows, patchSize) > 0 && NumBlocks(cols, patchSize) > 0
  {
    var xs, ys := Range(0, rows, patchSize), Range(0, cols, patchSize);
    BlockOrigins(rows, patchSize);
    BlockOrigins(cols, patchSize);
    var nr, nc := |xs|, |ys|;
    if nr > 0 && nc > 0 {
      if nr > nc {
        BlockStartsInside(nc, patchSize, cols);
        assert !(xs[nc] < cols);
      } else if nc > nr {
        BlockStartsInside(nr, patchSize, rows);
        assert !(ys[nr] < rows);
      } else {
        forall a | 0 <= a < nr
          ensures xs[a] < cols
        {
          BlockStartsInside(a, patchSize, cols);
        }
        forall b | 0 <= b < nc
          ensures ys[b] < rows
        {
          BlockStartsInside(b, patchSize, rows);
        }
      }
    }
  }

  /** A prediction with 16 rows and 32 columns raises IndexError: y reaches 16, a row index
      the array does not have. */
  lemma NonSquareFails(i: nat, cells: Grid<int>)
    requires HasShape(cells, 16, 32)
    ensures ImageRows(i, cells, 16, 32, 16) == Failure("IndexError")
  {
    assert Range(32, 32, 16) == [];
    assert Range(16, 32, 16) == [16];
    assert Range(0, 32, 16) == [0, 16];
    assert Range(0, 16, 16) == [0];
    var xs, ys := Range(0, 16, 16), Range(0, 32, 16);
    assert |xs| > 0 && ys[1] == 16;
    assert !Addressable(16, 32, xs, ys);
  }

  /** The rows with x running over the columns and y over the rows, so that prediction[y, x]
      is always inside the array. */
  function CorrectedRows(i: nat, cells: Grid<int>, rows: nat, cols: nat, patchSize: nat): seq<Row>
    requires patchSize > 0 && HasShape(cells, rows, cols)
  {
    BlockOrigins(rows, patchSize);
    BlockOrigins(cols, patchSize);
    BlockRows(i, cells, rows, cols, Range(0, cols, patchSize), Range(0, rows, patchSize))
  }

  /** Row a * ceil(rows / P) + b of the corrected loops is the block at column a * P and row
      b * P, both inside the array. */
  lemma CorrectedRowAt(i: nat, cells: Grid<int>, rows: nat, cols: nat, patchSize: nat, a: nat, b: nat)
    requires patchSize > 0 && HasShape(cells, rows, cols)
    requires a < NumBlocks(cols, patchSize) && b < NumBlocks(rows, patchSize)
    ensures a * patchSize < cols && b * patchSize < rows
    ensures var r := CorrectedRows(i, cells, rows, cols, patchSize);
            a * NumBlocks(rows, patchSize) + b < |r| &&
            r[a * NumBlocks(rows, patchSize) + b]
            == Row(PatchId(i, a * patchSize, b * patchSize), IntToString(cells[b * patchSize][a * patchSize]))
  {
    var xs, ys := Range(0, cols, patchSize), Range(0, rows, patchSize);
    BlockOrigins(rows, patchSize);
    BlockOrigins(cols, patchSize);
    BlockRowsAt(i, cells, rows, cols, xs, ys, a, b);
    assert xs[a] == a * patchSize && ys[b] == b * patchSize;
  }

  /** For every shape the corrected loops emit ceil(cols / P) * ceil(rows / P) rows, row
      a * ceil(rows / P) + b holding the block at column a * P and row b * P. */
  lemma CorrectedRowsShape(i: nat, cells: Grid<int>, rows: nat, cols: nat, patchSize: nat)
    requires patchSize > 0 && HasShape(cells, rows, cols)
    ensures var r := CorrectedRows(i, cells, rows, cols, patchSize);
            |r| == NumBlocks(cols, patchSize) * NumBlocks(rows, patchSize) &&
            forall a, b :: 0 <= a < NumBlocks(cols, patchSize) && 0 <= b < NumBlocks(rows, patchSize) ==>
              a * patchSize < cols && b * patchSize < rows && a * NumBlocks(rows, patchSize) + b < |r| &&
              r[a * NumBlocks(rows, patchSize) + b]
              == Row(PatchId(i, a * patchSize, b * patchSize), IntToString(cells[b * patchSize][a * patchSize]))
  {
    var xs, ys := Range(0, cols, patchSize), Range(0, rows, patchSize);
    BlockOrigins(rows, patchSize);
    BlockOrigins(cols, patchSize);
    BlockRowsLength(i, cells, rows, cols, xs, ys);
    forall a, b | 0 <= a < NumBlocks(cols, patchSize) && 0 <= b < NumBlocks(rows, patchSize)
      ensures a * patchSize < cols && b * patchSize < rows
      ensures var r := CorrectedRows(i, cells, rows, cols, patchSize);
              a * NumBlocks(rows, patchSize) + b < |r| &&
              r[a * NumBlocks(rows, patchSize) + b]
              == Row(PatchId(i, a * patchSize, b * patchSize), IntToString(cells[b * patchSize][a * patchSize]))
    {
      CorrectedRowAt(i, cells, rows, cols, patchSize, a, b);
    }
  }

  /** On a square prediction the loops as written never fail and agree with the corrected ones. */
  lemma SquareAgrees(i: nat, cells: Grid<int>, n: nat, patchSize: nat)
    requires patchSize > 0 && HasShape(cells, n, n)
    ensures ImageRows(i, cells, n, n, patchSize) == Success(CorrectedRows(i, cells, n, n, patchSize))
  {
    BlockOrigins(n, patchSize);
  }
}
