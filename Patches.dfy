/** Patch extraction and augmentation: img_crop walks a regular grid of window origins and
    augment_image appends a fixed, ordered prefix of flips and rotations of each window. */
module Patches {
  import opened Arith
  import opened Grids
  import opened Wrappers

  /** Python's range(start, stop, step) for a positive step. */
  function Range(start: nat, stop: int, step: nat): seq<nat>
    requires step > 0
    decreases stop - start
  {
    if start >= stop then [] else [start] + Range(start + step, stop, step)
  }

  /** range(start, stop, step) holds ceil((stop - start) / step) values, the k-th being
      start + k*step, all of them below stop. */
  lemma {:induction false} RangeShape(start: nat, stop: int, step: nat)
    requires step > 0
    ensures |Range(start, stop, step)| == if start >= stop then 0 else (stop - start - 1) / step + 1
    ensures forall k :: 0 <= k < |Range(start, stop, step)| ==>
              Range(start, stop, step)[k] == start + k * step < stop
    decreases stop - start
  {
    if start < stop {
      var rest := Range(start + step, stop, step);
      RangeShape(start + step, stop, step);
      if start + step < stop {
        DivStep(stop - start - step - 1, step);
      } else {
        DivModUnique(stop - start - 1, step, 0, stop - start - 1);
      }
      forall k | 1 <= k < |Range(start, stop, step)|
        ensures Range(start, stop, step)[k] == start + k * step < stop
      {
        assert Range(start, stop, step)[k] == rest[k - 1];
      }
    }
  }

  /** The number of window origins along an axis of length n: floor((n - size) / stride) + 1
      when a window fits at all, trailing partial windows being dropped. */
  function NumOrigins(n: nat, size: nat, stride: nat): nat
    requires stride > 0
  {
    if n >= size then (n - size) / stride + 1 else 0
  }

  /** The origins range(0, n - size + 1, stride) img_crop visits along an axis of length n. */
  function Origins(n: nat, size: nat, stride: nat): (os: seq<nat>)
    requires stride > 0
    ensures |os| == NumOrigins(n, size, stride)
    ensures forall k :: 0 <= k < |os| ==> os[k] == k * stride && os[k] + size <= n
  {
    RangeShape(0, n - size + 1, stride);
    Range(0, n - size + 1, stride)
  }

  /** Every origin leaves room for a whole window on an axis of length n. */
  predicate Fit(origins: seq<nat>, size: nat, n: nat) {
    forall a :: 0 <= a < |origins| ==> origins[a] + size <= n
  }

  /** The slice im[j:j+size, i:i+size] of a rectangular grid. */
  function Crop<T>(im: Grid<T>, j: nat, i: nat, size: nat): (p: Grid<T>)
    requires Rectangular(im) && j + size <= |im| && i + size <= Width(im)
    ensures HasShape(p, size, size) && Rectangular(p)
    ensures forall r, c :: 0 <= r < size && 0 <= c < size ==> p[r][c] == im[j + r][i + c]
  {
    seq(size, r requires 0 <= r < size => im[j + r][i .. i + size])
  }

  /** How many patches augment_image appends for num_of_transformations = k. */
  function NumVariants(k: int): nat {
    if k <= 0 then 1 else if k >= 4 then 5 else k + 1
  }

  /** The t-th augmentation: identity, fliplr, flipud, rot90, rot90 applied twice. */
  function Augmentation<T>(t: nat, p: Grid<T>): Grid<T>
    requires t < 5 && Rectangular(p)
  {
    if t == 0 then p
    else if t == 1 then FlipLR(p)
    else if t == 2 then FlipUD(p)
    else if t == 3 then Rot90(p)
    else Rot90(Rot90(p))
  }

  /** The patches augment_image appends for p, in order. */
  function Variants<T>(p: Grid<T>, k: int): seq<Grid<T>>
    requires Rectangular(p)
  {
    seq(NumVariants(k), t requires 0 <= t < NumVariants(k) => Augmentation(t, p))
  }

  /** A patch former, turning a window into the stored patch, keeps a rectangular grid
      rectangular. For two-dimensional images it is wrapping in a one-element list
      (WrapTwoDimensional). For colour images the source subtracts the mean in place on a view
      of the image, so overlapping windows see earlier subtractions; a patch former applied to
      windows of the original image matches that only when windows do not overlap. */
  ghost predicate KeepsRectangular<T(!new), U>(asPatch: Grid<T> -> Grid<U>) {
    forall g: Grid<T> {:trigger asPatch(g)} :: Rectangular(g) ==> Rectangular(asPatch(g))
  }

  /** The two-dimensional branch stores [window], of numpy shape (1, P, P). Wrapping keeps
      grids rectangular, and the flips and the rotation act on the first two axes: fliplr
      reverses the rows of the window, flipud leaves the one-element list as it is, and rot90
      has shape (P, 1, P), its i-th entry holding row P-1-i of the window. */
  lemma WrapTwoDimensional<T(!new)>(g: Grid<T>)
    ensures KeepsRectangular((h: Grid<T>) => [h])
    ensures Rectangular([g])
    ensures FlipLR([g]) == [FlipUD(g)]
    ensures FlipUD([g]) == [g]
    ensures Rot90([g]) == seq(|g|, i requires 0 <= i < |g| => [g[|g| - 1 - i]])
  {
    var wrap := (h: Grid<T>) => [h];
    forall h: Grid<T> | Rectangular(h)
      ensures Rectangular(wrap(h))
    {
    }
    assert FlipUD([g]) == [g];
    assert Width([g]) == |g|;
    forall i | 0 <= i < |g|
      ensures Rot90([g])[i] == [g[|g| - 1 - i]]
    {
      assert Rot90([g])[i][0] == [g][0][|g| - 1 - i];
    }
  }

  /** The Python list that img_crop fills and augment_image appends to. */
  class PatchList<T> {
    var items: seq<Grid<T>>

    constructor ()
      ensures items == []
    {
      items := [];
    }
  }

  /** Appends img and then its first k transformations to outLs. */
  method AugmentImage<T>(img: Grid<T>, outLs: PatchList<T>, k: int)
    requires Rectangular(img)
    modifies outLs
    ensures outLs.items == old(outLs.items) + Variants(img, k)
    ensures |outLs.items| == |old(outLs.items)| + NumVariants(k)
    ensures outLs.items[|old(outLs.items)|] == img
  {
    ghost var before := outLs.items;
    outLs.items := outLs.items + [img];
    if k > 0 {
      outLs.items := outLs.items + [FlipLR(img)];
    }
    if k > 1 {
      outLs.items := outLs.items + [FlipUD(img)];
    }
    if k > 2 {
      outLs.items := outLs.items + [Rot90(img)];
    }
    if k > 3 {
      outLs.items := outLs.items + [Rot90(Rot90(img))];
    }
    assert outLs.items == before + Variants(img, k);
  }

  /** The patches of one column origin i: for each row origin j of jOrigins in order, the
      variants of the window at (j, i). */
  function ColumnPatches<T(!new), U>(im: Grid<T>, i: nat, jOrigins: seq<nat>, size: nat, k: int,
                               asPatch: Grid<T> -> Grid<U>): seq<Grid<U>>
    requires Rectangular(im) && i + size <= Width(im) && Fit(jOrigins, size, |im|)
    requires KeepsRectangular(asPatch)
  {
    if |jOrigins| == 0 then []
    else
      ColumnPatches(im, i, jOrigins[..|jOrigins| - 1], size, k, asPatch)
      + Variants(asPatch(Crop(im, jOrigins[|jOrigins| - 1], i, size)), k)
  }

  /** The patches of the column origins iOrigins, outer loop over iOrigins, inner loop over jOrigins. */
  function GridPatches<T(!new), U>(im: Grid<T>, iOrigins: seq<nat>, jOrigins: seq<nat>, size: nat, k: int,
                             asPatch: Grid<T> -> Grid<U>): seq<Grid<U>>
    requires Rectangular(im) && Fit(iOrigins, size, Width(im)) && Fit(jOrigins, size, |im|)
    requires KeepsRectangular(asPatch)
  {
    if |iOrigins| == 0 then []
    else
      GridPatches(im, iOrigins[..|iOrigins| - 1], jOrigins, size, k, asPatch)
      + ColumnPatches(im, iOrigins[|iOrigins| - 1], jOrigins, size, k, asPatch)
  }

  /** Everything img_crop returns: column origins (axis 1) outside, row origins (axis 0)
      inside, each window followed by its augmentations. */
  function AllPatches<T(!new), U>(im: Grid<T>, size: nat, stride: nat, k: int,
                            asPatch: Grid<T> -> Grid<U>): seq<Grid<U>>
    requires stride > 0 && Rectangular(im) && KeepsRectangular(asPatch)
  {
    GridPatches(im, Origins(Width(im), size, stride), Origins(|im|, size, stride), size, k, asPatch)
  }

  /** img_crop: collects, column origin by column origin and row origin by row origin, the
      augmented windows of im. asPatch turns a window into the stored patch. A zero stride
      makes range() raise ValueError before anything is collected. */
  method ImgCrop<T(!new), U>(im: Grid<T>, patchSize: nat, stride: nat, k: int,
                       asPatch: Grid<T> -> Grid<U>) returns (r: Result<seq<Grid<U>>>)
    requires Rectangular(im) && KeepsRectangular(asPatch)
    ensures r.Failure? <==> stride == 0
    ensures r.Failure? ==> r.error == "ValueError"
    ensures r.Success? ==> r.value == AllPatches(im, patchSize, stride, k, asPatch)
  {
    if stride == 0 {
      return Failure("ValueError");
    }
    var listPatches := new PatchList<U>();
    var imgWidth := |im|;
    var imgHeight := Width(im);
    var iOrigins := Origins(imgHeight, patchSize, stride);
    var jOrigins := Origins(imgWidth, patchSize, stride);
    for a := 0 to |iOrigins|
      invariant listPatches.items == GridPatches(im, iOrigins[..a], jOrigins, patchSize, k, asPatch)
    {
      CropColumn(im, listPatches, iOrigins[a], jOrigins, patchSize, k, asPatch);
      assert iOrigins[..a + 1][..a] == iOrigins[..a];
    }
    assert iOrigins[..|iOrigins|] == iOrigins;
    return Success(listPatches.items);
  }

  /** The inner loop of img_crop for column origin i: the augmented windows at (j, i) for each
      row origin j in order, appended to listPatches. */
  method CropColumn<T(!new), U>(im: Grid<T>, listPatches: PatchList<U>, i: nat, jOrigins: seq<nat>,
                                patchSize: nat, k: int, asPatch: Grid<T> -> Grid<U>)
    requires Rectangular(im) && i + patchSize <= Width(im) && Fit(jOrigins, patchSize, |im|)
    requires KeepsRectangular(asPatch)
    modifies listPatches
    ensures listPatches.items == old(listPatches.items) + ColumnPatches(im, i, jOrigins, patchSize, k, asPatch)
  {
    ghost var before := listPatches.items;
    for b := 0 to |jOrigins|
      invariant listPatches.items == before + ColumnPatches(im, i, jOrigins[..b], patchSize, k, asPatch)
    {
      var j := jOrigins[b];
      var imPatch := asPatch(Crop(im, j, i, patchSize));
      AugmentImage(imPatch, listPatches, k);
      assert jOrigins[..b + 1][..b] == jOrigins[..b];
    }
    assert jOrigins[..|jOrigins|] == jOrigins;
  }

  /** One column origin contributes |jOrigins| * NumVariants(k) patches. */
  lemma {:induction false} ColumnPatchesLength<T(!new), U>(im: Grid<T>, i: nat, jOrigins: seq<nat>, size: nat,
                                                          k: int, asPatch: Grid<T> -> Grid<U>)
    requires Rectangular(im) && i + size <= Width(im) && Fit(jOrigins, size, |im|)
    requires KeepsRectangular(asPatch)
    ensures |ColumnPatches(im, i, jOrigins, size, k, asPatch)| == |jOrigins| * NumVariants(k)
  {
    if |jOrigins| > 0 {
      ColumnPatchesLength(im, i, jOrigins[..|jOrigins| - 1], size, k, asPatch);
    }
  }

  /** Each column origin contributes the same number of patches. */
  lemma {:induction false} GridPatchesLength<T(!new), U>(im: Grid<T>, iOrigins: seq<nat>, jOrigins: seq<nat>,
                                                        size: nat, k: int, asPatch: Grid<T> -> Grid<U>)
    requires Rectangular(im) && Fit(iOrigins, size, Width(im)) && Fit(jOrigins, size, |im|)
    requires KeepsRectangular(asPatch)
    ensures |GridPatches(im, iOrigins, jOrigins, size, k, asPatch)|
            == |iOrigins| * (|jOrigins| * NumVariants(k))
  {
    if |iOrigins| > 0 {
      var n, m := |iOrigins|, |jOrigins| * NumVariants(k);
      var front := iOrigins[..n - 1];
      assert |GridPatches(im, front, jOrigins, size, k, asPatch)| == (n - 1) * m by {
        GridPatchesLength(im, front, jOrigins, size, k, asPatch);
      }
      assert |ColumnPatches(im, iOrigins[n - 1], jOrigins, size, k, asPatch)| == m by {
        ColumnPatchesLength(im, iOrigins[n - 1], jOrigins, size, k, asPatch);
      }
      LastBlock(n, m);
    }
  }

  /** img_crop returns floor((shape[1]-P)/S + 1) * floor((shape[0]-P)/S + 1) windows, each
      followed by its augmentations: NumVariants(k) entries per window. */
  lemma ImgCropCount<T(!new), U>(im: Grid<T>, size: nat, stride: nat, k: int, asPatch: Grid<T> -> Grid<U>)
    requires stride > 0 && Rectangular(im) && KeepsRectangular(asPatch)
    ensures |AllPatches(im, size, stride, k, asPatch)|
            == NumOrigins(Width(im), size, stride) * NumOrigins(|im|, size, stride) * NumVariants(k)
  {
    var iOrigins, jOrigins := Origins(Width(im), size, stride), Origins(|im|, size, stride);
    var v := NumVariants(k);
    assert |AllPatches(im, size, stride, k, asPatch)| == |iOrigins| * (|jOrigins| * v) by {
      GridPatchesLength(im, iOrigins, jOrigins, size, k, asPatch);
    }
    MulAssoc(|iOrigins|, |jOrigins|, v);
  }

  /** Within a column, the t-th augmentation of the b-th window sits at b * NumVariants(k) + t. */
  lemma {:induction false} ColumnPatchesAt<T(!new), U>(im: Grid<T>, i: nat, jOrigins: seq<nat>, size: nat,
                                                      k: int, asPatch: Grid<T> -> Grid<U>, b: nat, t: nat)
    requires Rectangular(im) && i + size <= Width(im) && Fit(jOrigins, size, |im|)
    requires KeepsRectangular(asPatch)
    requires b < |jOrigins| && t < NumVariants(k)
    ensures b * NumVariants(k) + t < |ColumnPatches(im, i, jOrigins, size, k, asPatch)|
    ensures ColumnPatches(im, i, jOrigins, size, k, asPatch)[b * NumVariants(k) + t]
            == Augmentation(t, asPatch(Crop(im, jOrigins[b], i, size)))
  {
    var n, v := |jOrigins|, NumVariants(k);
    var front := jOrigins[..n - 1];
    ColumnPatchesLength(im, i, front, size, k, asPatch);
    ColumnPatchesLength(im, i, jOrigins, size, k, asPatch);
    RowMajor(b, t, n, v);
    if b < n - 1 {
      RowMajor(b, t, n - 1, v);
      ColumnPatchesAt(im, i, front, size, k, asPatch, b, t);
    } else {
      assert b * v + t - (n - 1) * v == t;
    }
  }

  /** The list for iOrigins is the list for all but the last column origin, (n - 1) * m
      patches, followed by the m patches of that last origin. */
  lemma GridPatchesSplit<T(!new), U>(im: Grid<T>, iOrigins: seq<nat>, jOrigins: seq<nat>,
                                     size: nat, k: int, asPatch: Grid<T> -> Grid<U>)
    requires Rectangular(im) && Fit(iOrigins, size, Width(im)) && Fit(jOrigins, size, |im|)
    requires KeepsRectangular(asPatch)
    requires |iOrigins| > 0
    ensures Fit(iOrigins[..|iOrigins| - 1], size, Width(im))
    ensures GridPatches(im, iOrigins, jOrigins, size, k, asPatch)
            == GridPatches(im, iOrigins[..|iOrigins| - 1], jOrigins, size, k, asPatch)
               + ColumnPatches(im, iOrigins[|iOrigins| - 1], jOrigins, size, k, asPatch)
    ensures |GridPatches(im, iOrigins[..|iOrigins| - 1], jOrigins, size, k, asPatch)|
            == (|iOrigins| - 1) * (|jOrigins| * NumVariants(k))
    ensures |ColumnPatches(im, iOrigins[|iOrigins| - 1], jOrigins, size, k, asPatch)|
            == |jOrigins| * NumVariants(k)
  {
    var front := iOrigins[..|iOrigins| - 1];
    GridPatchesLength(im, front, jOrigins, size, k, asPatch);
    ColumnPatchesLength(im, iOrigins[|iOrigins| - 1], jOrigins, size, k, asPatch);
  }

  /** Entry a * (|jOrigins| * NumVariants(k)) + e of the list is entry e of column origin
      iOrigins[a]'s patches. */
  lemma {:induction false} GridPatchesAt<T(!new), U>(im: Grid<T>, iOrigins: seq<nat>, jOrigins: seq<nat>,
                                                    size: nat, k: int, asPatch: Grid<T> -> Grid<U>,
                                                    a: nat, e: nat)
    requires Rectangular(im) && Fit(iOrigins, size, Width(im)) && Fit(jOrigins, size, |im|)
    requires KeepsRectangular(asPatch)
    requires a < |iOrigins| && e < |jOrigins| * NumVariants(k)
    ensures |ColumnPatches(im, iOrigins[a], jOrigins, size, k, asPatch)| == |jOrigins| * NumVariants(k)
    ensures a * (|jOrigins| * NumVariants(k)) + e < |GridPatches(im, iOrigins, jOrigins, size, k, asPatch)|
    ensures GridPatches(im, iOrigins, jOrigins, size, k, asPatch)[a * (|jOrigins| * NumVariants(k)) + e]
            == ColumnPatches(im, iOrigins[a], jOrigins, size, k, asPatch)[e]
  {
    var n, m := |iOrigins|, |jOrigins| * NumVariants(k);
    var front := iOrigins[..n - 1];
    ColumnPatchesLength(im, iOrigins[a], jOrigins, size, k, asPatch);
    GridPatchesSplit(im, iOrigins, jOrigins, size, k, asPatch);
    var head := GridPatches(im, front, jOrigins, size, k, asPatch);
    var column := ColumnPatches(im, iOrigins[n - 1], jOrigins, size, k, asPatch);
    if a < n - 1 {
      RowMajorBound(a, e, n - 1, m);
      assert front[a] == iOrigins[a];
      GridPatchesAt(im, front, jOrigins, size, k, asPatch, a, e);
      ConcatAt(head, column, a * m + e);
    } else {
      assert a * m + e == |head| + e;
      ConcatAt(head, column, |head| + e);
    }
  }

  /** Entry (a * rowOrigins + b) * NumVariants(k) + t of img_crop's result is the t-th
      augmentation of the window whose top-left corner is (b * stride, a * stride). */
  lemma ImgCropPatchAt<T(!new), U>(im: Grid<T>, size: nat, stride: nat, k: int,
                                   asPatch: Grid<T> -> Grid<U>, a: nat, b: nat, t: nat)
    requires stride > 0 && Rectangular(im) && KeepsRectangular(asPatch)
    requires a < NumOrigins(Width(im), size, stride) && b < NumOrigins(|im|, size, stride)
    requires t < NumVariants(k)
    ensures var n := (a * NumOrigins(|im|, size, stride) + b) * NumVariants(k) + t;
            var i, j := Origins(Width(im), size, stride)[a], Origins(|im|, size, stride)[b];
            i == a * stride && j == b * stride &&
            n < |AllPatches(im, size, stride, k, asPatch)| &&
            AllPatches(im, size, stride, k, asPatch)[n] == Augmentation(t, asPatch(Crop(im, j, i, size)))
  {
    var iOrigins, jOrigins := Origins(Width(im), size, stride), Origins(|im|, size, stride);
    var rows, v := |jOrigins|, NumVariants(k);
    var e := b * v + t;
    var column := ColumnPatches(im, iOrigins[a], jOrigins, size, k, asPatch);
    assert e < |column| && column[e] == Augmentation(t, asPatch(Crop(im, jOrigins[b], iOrigins[a], size))) by {
      ColumnPatchesAt(im, iOrigins[a], jOrigins, size, k, asPatch, b, t);
    }
    assert e < rows * v by {
      ColumnPatchesLength(im, iOrigins[a], jOrigins, size, k, asPatch);
    }
    assert Fit(iOrigins, size, Width(im)) && Fit(jOrigins, size, |im|);
    GridPatchesAt(im, iOrigins, jOrigins, size, k, asPatch, a, e);
    BlockIndex(a, rows, b, v, t);
  }
}
