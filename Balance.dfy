/** Class balancing: count the two classes, then keep the first min(c0, c1) examples of each
    class, class 0 first, reordering patches and labels alike. */
module Balance {
  import opened Arith
  import opened Grids
  import opened Labels

  /** Every label has an entry at position c. */
  predicate HasEntry(labels: seq<Label>, c: nat) {
    forall i :: 0 <= i < |labels| ==> c < |labels[i]|
  }

  /** The comprehension [i for i, j in enumerate(labels) if j[c] == 1]: exactly the indices
      whose label has a 1 at position c, in increasing order. */
  function IndicesWhere(labels: seq<Label>, c: nat): (idx: seq<nat>)
    requires HasEntry(labels, c)
    ensures |idx| <= |labels|
    ensures forall k :: 0 <= k < |idx| ==> idx[k] < |labels| && labels[idx[k]][c] == 1.0
    ensures forall i :: 0 <= i < |labels| && labels[i][c] == 1.0 ==> i in idx
    ensures forall k, l :: 0 <= k < l < |idx| ==> idx[k] < idx[l]
  {
    if |labels| == 0 then []
    else
      var last := |labels| - 1;
      IndicesWhere(labels[..last], c) + (if labels[last][c] == 1.0 then [last] else [])
  }

  /** The counting loop: c0 counts labels whose entry 0 is 1, c1 counts all the others. */
  method CountClasses(labels: seq<Label>) returns (c0: nat, c1: nat)
    requires HasEntry(labels, 0)
    ensures c0 == |IndicesWhere(labels, 0)| && c0 + c1 == |labels|
  {
    c0, c1 := 0, 0;
    for i := 0 to |labels|
      invariant c0 == |IndicesWhere(labels[..i], 0)| && c0 + c1 == i
    {
      assert labels[..i + 1][..i] == labels[..i];
      if labels[i][0] == 1.0 {
        c0 := c0 + 1;
      } else {
        c1 := c1 + 1;
      }
    }
    assert labels[..|labels|] == labels;
  }

  /** The Python slice s[0:n], which stops early when s is shorter. */
  function Take<T>(s: seq<T>, n: nat): seq<T> {
    if n <= |s| then s[..n] else s
  }

  /** Fancy indexing s[idx]: the elements of s at the positions idx, in that order. */
  function Gather<T>(s: seq<T>, idx: seq<nat>): seq<T>
    requires forall k :: 0 <= k < |idx| ==> idx[k] < |s|
  {
    seq(|idx|, k requires 0 <= k < |idx| => s[idx[k]])
  }

  /** new_indices = idx0[0:min_c] + idx1[0:min_c] with min_c = min(c0, c1). */
  function BalancedIndices(labels: seq<Label>): (r: seq<nat>)
    requires HasEntry(labels, 1)
    ensures forall k :: 0 <= k < |r| ==> r[k] < |labels|
  {
    var idx0 := IndicesWhere(labels, 0);
    var minC := Min(|idx0|, |labels| - |idx0|);
    Take(idx0, minC) + Take(IndicesWhere(labels, 1), minC)
  }

  /** The balancing block: count, select the first min(c0, c1) indices of each class and
      reorder the patches and their labels by them. */
  method BalanceClasses<D>(data: seq<D>, labels: seq<Label>) returns (newData: seq<D>, newLabels: seq<Label>)
    requires |data| == |labels| && HasEntry(labels, 1)
    ensures newData == Gather(data, BalancedIndices(labels))
    ensures newLabels == Gather(labels, BalancedIndices(labels))
  {
    var c0, c1 := CountClasses(labels);
    var minC := if c0 < c1 then c0 else c1;
    var idx0 := IndicesWhere(labels, 0);
    var idx1 := IndicesWhere(labels, 1);
    var newIndices := Take(idx0, minC) + Take(idx1, minC);
    assert newIndices == BalancedIndices(labels);
    newData := Gather(data, newIndices);
    newLabels := Gather(labels, newIndices);
  }

  /** All labels one-hot. */
  predicate AllOneHot(labels: seq<Label>) {
    forall i :: 0 <= i < |labels| ==> IsOneHot(labels[i])
  }

  /** n copies of x. */
  function Repeat<T>(x: T, n: nat): seq<T> {
    seq(n, _ => x)
  }

  /** With one-hot labels every example is counted in exactly one class. */
  lemma {:induction false} ClassesPartition(labels: seq<Label>)
    requires AllOneHot(labels)
    ensures |IndicesWhere(labels, 0)| + |IndicesWhere(labels, 1)| == |labels|
    ensures forall i :: 0 <= i < |labels| ==> (i in IndicesWhere(labels, 0)) != (i in IndicesWhere(labels, 1))
  {
    if |labels| > 0 {
      ClassesPartition(labels[..|labels| - 1]);
    }
  }

  /** For one-hot labels the balanced index list has length 2m, m = min(c0, c1): its first
      half is the first m class-0 indices and its second half the first m class-1 indices,
      both in their original order. */
  lemma BalancedOrder(labels: seq<Label>)
    requires AllOneHot(labels)
    ensures var idx0, idx1 := IndicesWhere(labels, 0), IndicesWhere(labels, 1);
            var m := Min(|idx0|, |idx1|);
            var r := BalancedIndices(labels);
            |r| == 2 * m &&
            (forall k :: 0 <= k < m ==> r[k] == idx0[k] && r[m + k] == idx1[k]) &&
            (forall k, l :: 0 <= k < l < m ==> r[k] < r[l]) &&
            (forall k, l :: m <= k < l < 2 * m ==> r[k] < r[l])
  {
    var idx0, idx1 := IndicesWhere(labels, 0), IndicesWhere(labels, 1);
    var m := Min(|idx0|, |idx1|);
    var r := BalancedIndices(labels);
    BalancedSplit(labels, idx0, idx1, m, r);
    forall k, l | 0 <= k < l < m
      ensures r[k] < r[l]
    {
      assert r[k] == idx0[k] && r[l] == idx0[l];
    }
    forall k, l | m <= k < l < 2 * m
      ensures r[k] < r[l]
    {
      assert r[k] == idx1[k - m] && r[l] == idx1[l - m];
    }
  }

  /** For one-hot labels the reordered labels are m non-road labels followed by m road
      labels, m = min(c0, c1). */
  lemma BalancedLabels(labels: seq<Label>)
    requires AllOneHot(labels)
    ensures var m := Min(|IndicesWhere(labels, 0)|, |IndicesWhere(labels, 1)|);
            Gather(labels, BalancedIndices(labels)) == Repeat(NonRoad, m) + Repeat(Road, m)
  {
    var idx0, idx1 := IndicesWhere(labels, 0), IndicesWhere(labels, 1);
    var m := Min(|idx0|, |idx1|);
    BalancedSplit(labels, idx0, idx1, m, BalancedIndices(labels));
    GatherClasses(labels, idx0[..m], idx1[..m]);
  }

  /** For one-hot labels the two Take calls of BalancedIndices cut both index lists at m. */
  lemma BalancedSplit(labels: seq<Label>, idx0: seq<nat>, idx1: seq<nat>, m: nat, r: seq<nat>)
    requires AllOneHot(labels)
    requires idx0 == IndicesWhere(labels, 0) && idx1 == IndicesWhere(labels, 1)
    requires m == Min(|idx0|, |idx1|) && r == BalancedIndices(labels)
    ensures m <= |idx0| && m <= |idx1| && r == idx0[..m] + idx1[..m]
    ensures forall k :: 0 <= k < m ==> r[k] == idx0[k] && r[m + k] == idx1[k]
  {
    ClassesPartition(labels);
    assert |labels| - |idx0| == |idx1|;
    assert Take(idx0, m) == idx0[..m] && Take(idx1, m) == idx1[..m];
    TakeHalves(idx0, idx1, m);
  }

  /** The first m elements of u followed by the first m of v, position by position. */
  lemma TakeHalves<T>(u: seq<T>, v: seq<T>, m: nat)
    requires m <= |u| && m <= |v|
    ensures forall k :: 0 <= k < m ==> (u[..m] + v[..m])[k] == u[k] && (u[..m] + v[..m])[m + k] == v[k]
  {
    forall k | 0 <= k < m
      ensures (u[..m] + v[..m])[k] == u[k] && (u[..m] + v[..m])[m + k] == v[k]
    {
      ConcatAt(u[..m], v[..m], k);
      ConcatAt(u[..m], v[..m], m + k);
    }
  }

  /** Gathering class-0 positions and then as many class-1 positions of one-hot labels
      yields non-road labels followed by road labels. */
  lemma GatherClasses(labels: seq<Label>, first: seq<nat>, second: seq<nat>)
    requires AllOneHot(labels) && |first| == |second|
    requires forall k :: 0 <= k < |first| ==> first[k] < |labels| && labels[first[k]][0] == 1.0
    requires forall k :: 0 <= k < |second| ==> second[k] < |labels| && labels[second[k]][1] == 1.0
    ensures Gather(labels, first + second) == Repeat(NonRoad, |first|) + Repeat(Road, |first|)
  {
    var m := |first|;
    var idx := first + second;
    var g := Gather(labels, idx);
    var expected := Repeat(NonRoad, m) + Repeat(Road, m);
    forall k | 0 <= k < 2 * m
      ensures g[k] == expected[k]
    {
      if k < m {
        assert g[k] == labels[first[k]];
        OneHotClass(labels[first[k]]);
        assert expected[k] == NonRoad;
      } else {
        assert g[k] == labels[second[k - m]];
        OneHotClass(labels[second[k - m]]);
        assert expected[k] == Road;
      }
    }
    assert g == expected;
  }

  /** A one-hot label is determined by where its 1 is. */
  lemma OneHotClass(l: Label)
    requires IsOneHot(l)
    ensures l[0] == 1.0 <==> l == NonRoad
    ensures l[1] == 1.0 <==> l == Road
  {
  }

  /** Counting the balanced labels again finds m examples of each class. */
  lemma BalancedCounts(m: nat)
    ensures |IndicesWhere(Repeat(NonRoad, m) + Repeat(Road, m), 0)| == m
    ensures |IndicesWhere(Repeat(NonRoad, m) + Repeat(Road, m), 1)| == m
  {
    var s := Repeat(NonRoad, m) + Repeat(Road, m);
    assert forall k :: 0 <= k < |s| ==> s[k] == if k < m then NonRoad else Road;
    CountPrefix(s, m, 2 * m);
    assert s[..2 * m] == s;
    CountOfIndices(s, 0);
    CountOfIndices(s, 1);
  }

  /** The number of labels with a 1 at position c. */
  function CountOf(labels: seq<Label>, c: nat): nat
    requires HasEntry(labels, c)
  {
    if |labels| == 0 then 0
    else CountOf(labels[..|labels| - 1], c) + (if labels[|labels| - 1][c] == 1.0 then 1 else 0)
  }

  /** The index list of a class is as long as its count. */
  lemma {:induction false} CountOfIndices(labels: seq<Label>, c: nat)
    requires HasEntry(labels, c)
    ensures |IndicesWhere(labels, c)| == CountOf(labels, c)
  {
    if |labels| > 0 {
      CountOfIndices(labels[..|labels| - 1], c);
    }
  }

  /** In p class-0 labels followed by class-1 labels, prefixes count as expected. */
  lemma {:induction false} CountPrefix(s: seq<Label>, p: nat, n: nat)
    requires p <= |s| && n <= |s|
    requires forall k :: 0 <= k < |s| ==> s[k] == if k < p then NonRoad else Road
    ensures HasEntry(s[..n], 1)
    ensures CountOf(s[..n], 0) == Min(n, p) && CountOf(s[..n], 1) == n - Min(n, p)
  {
    if n > 0 {
      var t := s[..n];
      assert t[..n - 1] == s[..n - 1];
      CountPrefix(s, p, n - 1);
      assert t[n - 1] == s[n - 1];
    }
  }
}
