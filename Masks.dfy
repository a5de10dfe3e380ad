/** Conversions between per-patch predictions and masks: prediction_to_mask and
    mask_to_prediction (row-major, one cell per prediction row) and label_to_img (one
    w-by-h block of pixels per prediction row). */
module Masks {
  import opened Arith
  import opened Grids
  import opened Labels
  import opened Patches
  import opened Wrappers

  /** The mask value of one prediction row: 0 when the non-road score exceeds 0.5, else 1. */
  function MaskValue(row: Label): int
    requires |row| > 0
  {
    if row[0] > 0.5 then 0 else 1
  }

  /** The first n prediction rows have a class-0 score. */
  predicate Scored(labels: seq<Label>, n: nat) {
    n <= |labels| && forall k :: 0 <= k < n ==> |labels[k]| > 0
  }

  /** The height-by-width mask whose cell (i, j) is decided by prediction row i*width + j. */
  function MaskFromPrediction(labels: seq<Label>, width: nat, height: nat): (m: Grid<int>)
    requires Scored(labels, height * width)
    ensures HasShape(m, height, width)
  {
    seq(height, i requires 0 <= i < height =>
      seq(width, j requires 0 <= j < width =>
        RowMajor(i, j, height, width);
        MaskValue(labels[i * width + j])))
  }

  /** Cell (i, j) of the mask is decided by prediction row i * width + j. */
  lemma MaskFromPredictionAt(labels: seq<Label>, width: nat, height: nat, i: nat, j: nat)
    requires Scored(labels, height * width) && i < height && j < width
    ensures i * width + j < height * width
    ensures MaskFromPrediction(labels, width, height)[i][j] == MaskValue(labels[i * width + j])
  {
    RowMajor(i, j, height, width);
  }

  /** The one-hot row mask_to_prediction writes for a mask value: road for 1, non-road for
      anything else. */
  function OneHotOf(v: int): Label {
    if v == 1 then Road else NonRoad
  }

  /** The height*width prediction rows of a mask, row k describing cell (k / width, k % width). */
  function PredictionFromMask(m: Grid<int>, height: nat, width: nat): (p: seq<Label>)
    requires HasShape(m, height, width)
    ensures |p| == height * width
  {
    seq(height * width, k requires 0 <= k < height * width =>
      RowMajorInverse(k, height, width);
      OneHotOf(m[k / width][k % width]))
  }

  /** Every cell of the mask is 0 or 1. */
  predicate Binary(m: Grid<int>) {
    forall i, j :: 0 <= i < |m| && 0 <= j < |m[i]| ==> m[i][j] == 0 || m[i][j] == 1
  }

  /** A prediction matrix with `rows` rows of `cols` scores has a class-0 score in each of
      its first n rows. */
  predicate RowsCover(rows: nat, cols: nat, n: nat) {
    n <= rows && (n > 0 ==> cols > 0)
  }

  /** prediction_to_mask: a zeroed height-by-width mask filled row by row, a running index
      walking the prediction rows. `labels[idx][0]` raises IndexError when the matrix has fewer
      than height*width rows or no class-0 score; the half-filled mask is then never seen. */
  method PredictionToMask(labels: array2<real>, width: nat, height: nat) returns (r: Result<array2<int>>)
    ensures r.Failure? <==> !RowsCover(labels.Length0, labels.Length1, height * width)
    ensures r.Failure? ==> r.error == "IndexError"
    ensures r.Success? ==> fresh(r.value) && r.value.Length0 == height && r.value.Length1 == width
    ensures r.Success? ==> Cells(r.value) == MaskFromPrediction(Cells(labels), width, height)
  {
    if !RowsCover(labels.Length0, labels.Length1, height * width) {
      return Failure("IndexError");
    }
    var mask := new int[height, width]((_, _) => 0);
    ghost var expected := MaskFromPrediction(Cells(labels), width, height);
    var idx := 0;
    for i := 0 to height
      invariant idx == i * width
      invariant forall r, c :: 0 <= r < i && 0 <= c < width ==> mask[r, c] == expected[r][c]
    {
      for j := 0 to width
        invariant idx == i * width + j
        invariant forall r, c :: 0 <= r < i && 0 <= c < width ==> mask[r, c] == expected[r][c]
        invariant forall c :: 0 <= c < j ==> mask[i, c] == expected[i][c]
      {
        MaskFromPredictionAt(Cells(labels), width, height, i, j);
        CellAt(labels, idx, 0);
        var v := if labels[idx, 0] > 0.5 then 0 else 1;
        mask[i, j] := v;
        idx := idx + 1;
      }
      LastBlock(i + 1, width);
    }
    CellsAre(mask, expected);
    return Success(mask);
  }

  /** mask_to_prediction: a zeroed (height*width)-by-2 matrix in which the running index sets
      entry 1 of the row of every cell equal to 1 and entry 0 of every other row. */
  method MaskToPrediction(mask: array2<int>) returns (prediction: array2<real>)
    ensures fresh(prediction)
    ensures prediction.Length0 == mask.Length0 * mask.Length1 && prediction.Length1 == 2
    ensures Cells(prediction) == PredictionFromMask(Cells(mask), mask.Length0, mask.Length1)
  {
    var height, width := mask.Length0, mask.Length1;
    prediction := new real[height * width, 2]((_, _) => 0.0);
    ghost var expected := PredictionFromMask(Cells(mask), height, width);
    var idx := 0;
    for i := 0 to height
      invariant idx == i * width
      invariant forall k, c :: 0 <= k < height * width && 0 <= c < 2 ==>
                  prediction[k, c] == if k < idx then expected[k][c] else 0.0
    {
      for j := 0 to width
        invariant idx == i * width + j
        invariant forall k, c :: 0 <= k < height * width && 0 <= c < 2 ==>
                    prediction[k, c] == if k < idx then expected[k][c] else 0.0
      {
        PredictionFromMaskAt(Cells(mask), height, width, i, j);
        CellAt(mask, i, j);
        if mask[i, j] == 1 {
          prediction[idx, 1] := 1.0;
        } else {
          prediction[idx, 0] := 1.0;
        }
        idx := idx + 1;
      }
      LastBlock(i + 1, width);
    }
    CellsAre(prediction, expected);
  }

  /** mask_to_prediction yields height*width rows, each one-hot, and row i*width + j is road
      exactly when cell (i, j) is 1. */
  lemma PredictionFromMaskAt(m: Grid<int>, height: nat, width: nat, i: nat, j: nat)
    requires HasShape(m, height, width) && i < height && j < width
    ensures i * width + j < height * width
    ensures IsOneHot(PredictionFromMask(m, height, width)[i * width + j])
    ensures PredictionFromMask(m, height, width)[i * width + j] == if m[i][j] == 1 then Road else NonRoad
  {
    RowMajor(i, j, height, width);
  }

  /** Mask to prediction and back reproduces any {0,1} mask. */
  lemma MaskRoundTrip(m: Grid<int>, height: nat, width: nat)
    requires HasShape(m, height, width) && Binary(m)
    ensures MaskFromPrediction(PredictionFromMask(m, height, width), width, height) == m
  {
    var p := PredictionFromMask(m, height, width);
    var back := MaskFromPrediction(p, width, height);
    forall i | 0 <= i < height
      ensures back[i] == m[i]
    {
      forall j | 0 <= j < width
        ensures back[i][j] == m[i][j]
      {
        PredictionFromMaskAt(m, height, width, i, j);
      }
    }
  }

  /** Prediction to mask and back reproduces one-hot prediction rows. */
  lemma PredictionRoundTrip(labels: seq<Label>, width: nat, height: nat)
    requires |labels| == height * width
    requires forall k :: 0 <= k < |labels| ==> IsOneHot(labels[k])
    ensures Scored(labels, height * width)
    ensures PredictionFromMask(MaskFromPrediction(labels, width, height), height, width) == labels
  {
    var m := MaskFromPrediction(labels, width, height);
    var back := PredictionFromMask(m, height, width);
    forall k | 0 <= k < height * width
      ensures back[k] == labels[k]
    {
      RowMajorInverse(k, height, width);
      var i, j := k / width, k % width;
      RowMajor(i, j, height, width);
      assert m[i][j] == MaskValue(labels[k]);
    }
  }

  /** label_to_img's image: cell (r, c) of the imgwidth-by-imgheight array takes the mask value
      of the prediction row of its block; blocks are numbered along axis 1 first (outer
      loop), then along axis 0. */
  function LabelImage(imgwidth: nat, imgheight: nat, w: nat, h: nat, labels: seq<Label>): (img: Grid<int>)
    requires w > 0 && h > 0 && Scored(labels, NumBlocks(imgheight, h) * NumBlocks(imgwidth, w))
    ensures HasShape(img, imgwidth, imgheight)
  {
    seq(imgwidth, r requires 0 <= r < imgwidth =>
      seq(imgheight, c requires 0 <= c < imgheight =>
        BlockIndexBound(r, c, w, h, imgwidth, imgheight);
        MaskValue(labels[(c / h) * NumBlocks(imgwidth, w) + r / w])))
  }

  /** Pixel (r, c) lies in block (c / h, r / w), whose row-major number is a prediction row. */
  lemma BlockIndexBound(r: nat, c: nat, w: nat, h: nat, imgwidth: nat, imgheight: nat)
    requires w > 0 && h > 0 && r < imgwidth && c < imgheight
    ensures 0 <= (c / h) * NumBlocks(imgwidth, w) + r / w < NumBlocks(imgheight, h) * NumBlocks(imgwidth, w)
  {
    BlockOf(r, w, imgwidth);
    BlockOf(c, h, imgheight);
    DivMono(0, r, w);
    DivMono(0, c, h);
    RowMajorBound(c / h, r / w, NumBlocks(imgheight, h), NumBlocks(imgwidth, w));
  }

  /** range(0, n, s) enumerates the NumBlocks(n, s) block origins k*s. */
  lemma BlockOrigins(n: nat, s: nat)
    requires s > 0
    ensures |Range(0, n, s)| == NumBlocks(n, s)
    ensures forall k :: 0 <= k < |Range(0, n, s)| ==> Range(0, n, s)[k] == k * s < n
  {
    RangeShape(0, n, s);
    if n > 0 {
      DivStep(n - 1, s);
    } else {
      DivModUnique(s - 1, s, 0, s - 1);
    }
  }

  /** g agrees with the label image on blocks (a', b') before (a, b) in the order label_to_img
      fills them, and is still 0 elsewhere. */
  predicate FilledUpTo(g: Grid<int>, expected: Grid<int>, imgwidth: nat, imgheight: nat, w: nat, h: nat,
                       a: nat, b: nat)
    requires w > 0 && h > 0 && HasShape(g, imgwidth, imgheight) && HasShape(expected, imgwidth, imgheight)
  {
    forall r, c :: 0 <= r < imgwidth && 0 <= c < imgheight ==>
      g[r][c] == if c / h < a || (c / h == a && r / w < b) then expected[r][c] else 0
  }

  /** Writing the mask value of prediction row a * blocksPerColumn + b into block (a, b)
      extends the filled part by that block. */
  lemma FillBlockStep(imgwidth: nat, imgheight: nat, w: nat, h: nat, labels: seq<Label>,
                      before: Grid<int>, after: Grid<int>, a: nat, b: nat, i: nat, j: nat, idx: nat, l: int)
    requires w > 0 && h > 0 && Scored(labels, NumBlocks(imgheight, h) * NumBlocks(imgwidth, w))
    requires a < |Range(0, imgheight, h)| && b < |Range(0, imgwidth, w)|
    requires idx == a * |Range(0, imgwidth, w)| + b
    requires HasShape(before, imgwidth, imgheight) && HasShape(after, imgwidth, imgheight)
    requires FilledUpTo(before, LabelImage(imgwidth, imgheight, w, h, labels), imgwidth, imgheight, w, h, a, b)
    requires i == Range(0, imgheight, h)[a] && j == Range(0, imgwidth, w)[b]
    requires idx < |labels| && |labels[idx]| > 0 && l == MaskValue(labels[idx])
    requires after == FillRect(before, j, j + w, i, i + h, l)
    ensures FilledUpTo(after, LabelImage(imgwidth, imgheight, w, h, labels), imgwidth, imgheight, w, h, a, b + 1)
  {
    var expected := LabelImage(imgwidth, imgheight, w, h, labels);
    BlockOrigins(imgheight, h);
    BlockOrigins(imgwidth, w);
    assert i == a * h && j == b * w;
    forall r, c | 0 <= r < imgwidth && 0 <= c < imgheight
      ensures after[r][c] == if c / h < a || (c / h == a && r / w < b + 1) then expected[r][c] else 0
    {
      DivBlock(r, w, b);
      DivBlock(c, h, a);
      if b * w <= r < b * w + w && a * h <= c < a * h + h {
        LabelImageBlock(imgwidth, imgheight, w, h, labels, a, b, r, c);
      }
    }
  }

  /** A finished row of blocks is the start of the next one. */
  lemma FillRowDone(g: Grid<int>, expected: Grid<int>, imgwidth: nat, imgheight: nat, w: nat, h: nat, a: nat)
    requires w > 0 && h > 0 && HasShape(g, imgwidth, imgheight) && HasShape(expected, imgwidth, imgheight)
    requires FilledUpTo(g, expected, imgwidth, imgheight, w, h, a, NumBlocks(imgwidth, w))
    ensures FilledUpTo(g, expected, imgwidth, imgheight, w, h, a + 1, 0)
  {
    forall r, c | 0 <= r < imgwidth && 0 <= c < imgheight
      ensures g[r][c] == if c / h < a + 1 then expected[r][c] else 0
    {
      BlockOf(r, w, imgwidth);
      DivMono(0, r, w);
    }
  }

  /** Nothing is filled in the zeroed array. */
  lemma FillStart(g: Grid<int>, expected: Grid<int>, imgwidth: nat, imgheight: nat, w: nat, h: nat)
    requires w > 0 && h > 0 && HasShape(expected, imgwidth, imgheight)
    requires g == Constant(imgwidth, imgheight, 0)
    ensures FilledUpTo(g, expected, imgwidth, imgheight, w, h, 0, 0)
  {
    forall r, c | 0 <= r < imgwidth && 0 <= c < imgheight
      ensures g[r][c] == 0 && 0 <= c / h && 0 <= r / w
    {
      DivMono(0, c, h);
      DivMono(0, r, w);
    }
  }

  /** Once every row of blocks is done the array is the label image. */
  lemma FillEnd(g: Grid<int>, expected: Grid<int>, imgwidth: nat, imgheight: nat, w: nat, h: nat)
    requires w > 0 && h > 0 && HasShape(g, imgwidth, imgheight) && HasShape(expected, imgwidth, imgheight)
    requires FilledUpTo(g, expected, imgwidth, imgheight, w, h, NumBlocks(imgheight, h), 0)
    ensures g == expected
  {
    forall r | 0 <= r < imgwidth
      ensures g[r] == expected[r]
    {
      forall c | 0 <= c < imgheight
        ensures g[r][c] == expected[r][c]
      {
        BlockOf(c, h, imgheight);
      }
    }
  }

  /** range(0, n, s) has NumBlocks(n, s) elements. */
  lemma BlockCount(n: nat, s: nat)
    requires s > 0
    ensures |Range(0, n, s)| == NumBlocks(n, s)
  {
    BlockOrigins(n, s);
  }

  /** One pass of label_to_img's inner loop: the blocks of row a, left to right, each set to
      the mask value of the next prediction row. */
  method FillBlockRow(arrayLabels: array2<int>, labels: array2<real>, w: nat, h: nat, a: nat)
    requires w > 0 && h > 0
    requires a < NumBlocks(arrayLabels.Length1, h)
    requires labels.Length0 >= NumBlocks(arrayLabels.Length1, h) * NumBlocks(arrayLabels.Length0, w)
    requires NumBlocks(arrayLabels.Length1, h) * NumBlocks(arrayLabels.Length0, w) > 0 ==> labels.Length1 > 0
    requires FilledUpTo(Cells(arrayLabels),
                        LabelImage(arrayLabels.Length0, arrayLabels.Length1, w, h, Cells(labels)),
                        arrayLabels.Length0, arrayLabels.Length1, w, h, a, 0)
    modifies arrayLabels
    ensures FilledUpTo(Cells(arrayLabels),
                       LabelImage(arrayLabels.Length0, arrayLabels.Length1, w, h, Cells(labels)),
                       arrayLabels.Length0, arrayLabels.Length1, w, h, a + 1, 0)
  {
    var jStarts := Range(0, arrayLabels.Length0, w);
    BlockCount(arrayLabels.Length0, w);
    for b := 0 to |jStarts|
      invariant FilledUpTo(Cells(arrayLabels),
                           LabelImage(arrayLabels.Length0, arrayLabels.Length1, w, h, Cells(labels)),
                           arrayLabels.Length0, arrayLabels.Length1, w, h, a, b)
    {
      FillBlock(arrayLabels, labels, w, h, a, b);
    }
    FillRowDone(Cells(arrayLabels), LabelImage(arrayLabels.Length0, arrayLabels.Length1, w, h, Cells(labels)),
                arrayLabels.Length0, arrayLabels.Length1, w, h, a);
  }

  /** The body of label_to_img's inner loop: block (a, b), at rows [j, j + w) and columns
      [i, i + h), takes the mask value of prediction row a * blocksPerColumn + b. */
  method FillBlock(arrayLabels: array2<int>, labels: array2<real>, w: nat, h: nat, a: nat, b: nat)
    requires w > 0 && h > 0
    requires a < NumBlocks(arrayLabels.Length1, h) && b < NumBlocks(arrayLabels.Length0, w)
    requires labels.Length0 >= NumBlocks(arrayLabels.Length1, h) * NumBlocks(arrayLabels.Length0, w)
    requires labels.Length1 > 0
    requires FilledUpTo(Cells(arrayLabels),
                        LabelImage(arrayLabels.Length0, arrayLabels.Length1, w, h, Cells(labels)),
                        arrayLabels.Length0, arrayLabels.Length1, w, h, a, b)
    modifies arrayLabels
    ensures FilledUpTo(Cells(arrayLabels),
                       LabelImage(arrayLabels.Length0, arrayLabels.Length1, w, h, Cells(labels)),
                       arrayLabels.Length0, arrayLabels.Length1, w, h, a, b + 1)
  {
    var imgwidth, imgheight := arrayLabels.Length0, arrayLabels.Length1;
    var iStarts := Range(0, imgheight, h);
    var jStarts := Range(0, imgwidth, w);
    BlockCount(imgheight, h);
    BlockCount(imgwidth, w);
    var i, j := iStarts[a], jStarts[b];
    var idx := a * |jStarts| + b;
    RowMajorBound(a, b, |iStarts|, |jStarts|);
    var l := if labels[idx, 0] > 0.5 then 0 else 1;
    CellAt(labels, idx, 0);
    ghost var before := Cells(arrayLabels);
    AssignRect(arrayLabels, j, j + w, i, i + h, l);
    FillBlockStep(imgwidth, imgheight, w, h, Cells(labels), before, Cells(arrayLabels), a, b, i, j, idx, l);
  }

  /** label_to_img: a zeroed imgwidth-by-imgheight array whose block [j:j+w, i:i+h] (cut at
      the border) is set, block by block, to the mask value of the next prediction row.
      range() raises ValueError on a zero step; the inner range is only built once the outer
      one has an element. `labels[idx][0]` raises IndexError when a block has no prediction
      row or the rows have no class-0 score. */
  method LabelToImg(imgwidth: nat, imgheight: nat, w: nat, h: nat, labels: array2<real>)
    returns (r: Result<array2<int>>)
    ensures r.Failure? <==> h == 0 || (w == 0 && imgheight > 0)
                            || (w > 0 && h > 0 && !RowsCover(labels.Length0, labels.Length1,
                                                             NumBlocks(imgheight, h) * NumBlocks(imgwidth, w)))
    ensures r.Failure? ==> r.error == if h == 0 || w == 0 then "ValueError" else "IndexError"
    ensures r.Success? ==> fresh(r.value) && r.value.Length0 == imgwidth && r.value.Length1 == imgheight
    ensures r.Success? && w > 0 ==> Cells(r.value) == LabelImage(imgwidth, imgheight, w, h, Cells(labels))
  {
    if h == 0 || (w == 0 && imgheight > 0) {
      return Failure("ValueError");
    }
    if w == 0 {
      // imgheight == 0: the outer loop has no iteration.
      var untouched := new int[imgwidth, imgheight]((_, _) => 0);
      return Success(untouched);
    }
    if !RowsCover(labels.Length0, labels.Length1, NumBlocks(imgheight, h) * NumBlocks(imgwidth, w)) {
      return Failure("IndexError");
    }
    var arrayLabels := new int[imgwidth, imgheight]((_, _) => 0);
    ghost var expected := LabelImage(imgwidth, imgheight, w, h, Cells(labels));
    CellsAre(arrayLabels, Constant(imgwidth, imgheight, 0));
    FillStart(Cells(arrayLabels), expected, imgwidth, imgheight, w, h);
    var blockRows := NumBlocks(imgheight, h);
    for a := 0 to blockRows
      invariant FilledUpTo(Cells(arrayLabels), expected, imgwidth, imgheight, w, h, a, 0)
    {
      FillBlockRow(arrayLabels, labels, w, h, a);
    }
    FillEnd(Cells(arrayLabels), expected, imgwidth, imgheight, w, h);
    return Success(arrayLabels);
  }

  /** Every pixel of block (a, b) of label_to_img's image, that is of rows [b*w, b*w + w) and
      columns [a*h, a*h + h), carries the mask value of prediction row a * blocksPerColumn + b,
      so the image is a {0,1} mask made of constant blocks. */
  lemma LabelImageBlock(imgwidth: nat, imgheight: nat, w: nat, h: nat, labels: seq<Label>,
                        a: nat, b: nat, r: nat, c: nat)
    requires w > 0 && h > 0 && Scored(labels, NumBlocks(imgheight, h) * NumBlocks(imgwidth, w))
    requires r < imgwidth && c < imgheight && b * w <= r < b * w + w && a * h <= c < a * h + h
    ensures a < NumBlocks(imgheight, h) && b < NumBlocks(imgwidth, w)
    ensures a * NumBlocks(imgwidth, w) + b < NumBlocks(imgheight, h) * NumBlocks(imgwidth, w)
    ensures LabelImage(imgwidth, imgheight, w, h, labels)[r][c]
            == MaskValue(labels[a * NumBlocks(imgwidth, w) + b])
    ensures LabelImage(imgwidth, imgheight, w, h, labels)[r][c] in {0, 1}
  {
    DivBlock(r, w, b);
    DivBlock(c, h, a);
    BlockOf(r, w, imgwidth);
    BlockOf(c, h, imgheight);
    RowMajorBound(a, b, NumBlocks(imgheight, h), NumBlocks(imgwidth, w));
  }
}
