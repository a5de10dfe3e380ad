/** Two-dimensional grids as nested sequences, indexed g[axis 0][axis 1] like a numpy
    array, and the numpy flips and rotations that the patch augmentation applies. */
module Grids {

  /** A grid: a sequence of rows (axis 0), each a sequence of cells (axis 1).
      A cell may itself be a vector (a pixel, or a whole row of a wrapped patch). */
  type Grid<T> = seq<seq<T>>

  /** Size along axis 1 (0 for a grid without rows). */
  function Width<T>(g: Grid<T>): nat {
    if |g| == 0 then 0 else |g[0]|
  }

  /** Every row has the same length, as in a numpy array. */
  predicate Rectangular<T>(g: Grid<T>) {
    forall r :: 0 <= r < |g| ==> |g[r]| == Width(g)
  }

  /** The grid has numpy shape (rows, cols). */
  predicate HasShape<T>(g: Grid<T>, rows: nat, cols: nat) {
    |g| == rows && forall r :: 0 <= r < |g| ==> |g[r]| == cols
  }

  /** The contents of a two-dimensional array, row by row. */
  ghost function Cells<T>(a: array2<T>): (g: Grid<T>)
    reads a
    ensures HasShape(g, a.Length0, a.Length1)
  {
    seq(a.Length0, i requires 0 <= i < a.Length0 reads a =>
      seq(a.Length1, j requires 0 <= j < a.Length1 reads a => a[i, j]))
  }

  /** Cell (i, j) of the contents is the array element a[i, j]. */
  lemma CellAt<T>(a: array2<T>, i: nat, j: nat)
    requires i < a.Length0 && j < a.Length1
    ensures Cells(a)[i][j] == a[i, j]
  {
  }

  /** An array whose every element matches a grid of its shape has that grid as contents. */
  lemma CellsAre<T>(a: array2<T>, g: Grid<T>)
    requires HasShape(g, a.Length0, a.Length1)
    requires forall i, j :: 0 <= i < a.Length0 && 0 <= j < a.Length1 ==> a[i, j] == g[i][j]
    ensures Cells(a) == g
  {
    forall i | 0 <= i < a.Length0
      ensures Cells(a)[i] == g[i]
    {
    }
  }

  /** numpy's g[r0:r1, c0:c1] = v on a grid: cells in the rectangle, cut at the border, become v. */
  function FillRect<T>(g: Grid<T>, r0: int, r1: int, c0: int, c1: int, v: T): (f: Grid<T>)
    ensures |f| == |g| && forall r :: 0 <= r < |g| ==> |f[r]| == |g[r]|
    ensures forall r, c :: 0 <= r < |g| && 0 <= c < |g[r]| ==>
              f[r][c] == if r0 <= r < r1 && c0 <= c < c1 then v else g[r][c]
  {
    seq(|g|, r requires 0 <= r < |g| =>
      seq(|g[r]|, c requires 0 <= c < |g[r]| => if r0 <= r < r1 && c0 <= c < c1 then v else g[r][c]))
  }

  /** The slice assignment a[r0:r1, c0:c1] = v, in place. */
  method AssignRect<T>(a: array2<T>, r0: nat, r1: nat, c0: nat, c1: nat, v: T)
    modifies a
    ensures Cells(a) == FillRect(old(Cells(a)), r0, r1, c0, c1, v)
  {
    ghost var before := Cells(a);
    forall r, c | r0 <= r < r1 && r < a.Length0 && c0 <= c < c1 && c < a.Length1 {
      a[r, c] := v;
    }
    CellsAre(a, FillRect(before, r0, r1, c0, c1, v));
  }

  /** A grid of the given shape whose every cell is v (numpy's full). */
  function Constant<T>(rows: nat, cols: nat, v: T): (g: Grid<T>)
    ensures HasShape(g, rows, cols)
  {
    seq(rows, _ => seq(cols, _ => v))
  }

  /** Position k of a concatenation. */
  lemma ConcatAt<T>(u: seq<T>, v: seq<T>, k: nat)
    requires k < |u| + |v|
    ensures k < |u + v| && (u + v)[k] == if k < |u| then u[k] else v[k - |u|]
  {
  }

  function Reverse<T>(s: seq<T>): seq<T> {
    seq(|s|, k requires 0 <= k < |s| => s[|s| - 1 - k])
  }

  /** numpy.fliplr: reverse axis 1. */
  function FlipLR<T>(g: Grid<T>): Grid<T> {
    seq(|g|, r requires 0 <= r < |g| => Reverse(g[r]))
  }

  /** numpy.flipud: reverse axis 0. */
  function FlipUD<T>(g: Grid<T>): Grid<T> {
    Reverse(g)
  }

  /** numpy.rot90 (one quarter turn counter-clockwise in the plane of axes 0 and 1):
      flip axis 1, then transpose. */
  function Rot90<T>(g: Grid<T>): (r: Grid<T>)
    requires Rectangular(g)
    ensures HasShape(r, Width(g), |g|) && Rectangular(r)
  {
    seq(Width(g), i requires 0 <= i < Width(g) =>
      seq(|g|, j requires 0 <= j < |g| => g[j][Width(g) - 1 - i]))
  }

  /** Flipping left-right undoes itself. */
  lemma FlipLRInvolution<T>(g: Grid<T>)
    ensures FlipLR(FlipLR(g)) == g
  {
    forall r | 0 <= r < |g|
      ensures FlipLR(FlipLR(g))[r] == g[r]
    {
      assert Reverse(Reverse(g[r])) == g[r];
    }
  }

  /** Flipping up-down undoes itself. */
  lemma FlipUDInvolution<T>(g: Grid<T>)
    ensures FlipUD(FlipUD(g)) == g
  {
    assert Reverse(Reverse(g)) == g;
  }

  /** Two quarter turns (the fifth augmentation, rot90 applied twice) are the
      half turn: flipping both axes. */
  lemma HalfTurnIsBothFlips<T>(g: Grid<T>)
    requires Rectangular(g) && (|g| == 0 || Width(g) > 0)
    ensures Rot90(Rot90(g)) == FlipUD(FlipLR(g))
  {
    var h, w := |g|, Width(g);
    var once := Rot90(g);
    var twice := Rot90(once);
    if h > 0 {
      assert Width(once) == h;
      assert |twice| == h;
      forall a | 0 <= a < h
        ensures twice[a] == FlipUD(FlipLR(g))[a]
      {
        assert |twice[a]| == w;
        forall b | 0 <= b < w
          ensures twice[a][b] == g[h - 1 - a][w - 1 - b]
        {
          assert twice[a][b] == once[b][h - 1 - a];
        }
      }
    }
  }
}
