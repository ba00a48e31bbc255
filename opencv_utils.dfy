/**
 * The matrix helpers of common/opencv_utils.hpp over single-channel
 * matrices. A cv::Mat is a sequence of rows of equal length, read in
 * row-major order; the element type of median is int.
 */
module OpenCvUtils {

  /** `m` has `rows` rows of `cols` entries each. */
  predicate HasShape<T>(m: seq<seq<T>>, rows: nat, cols: nat) {
    |m| == rows && forall i :: 0 <= i < |m| ==> |m[i]| == cols
  }

  /** Row-major order: the rows one after another. */
  function Flatten<T>(m: seq<seq<T>>): seq<T> {
    if m == [] then [] else Flatten(m[..|m| - 1]) + m[|m| - 1]
  }

  /** Where row r starts in row-major order: r * cols, counted row by row. */
  function RowStart(r: nat, cols: nat): nat {
    if r == 0 then 0 else RowStart(r - 1, cols) + cols
  }

  lemma {:induction false} RowStartIsProduct(r: nat, cols: nat)
    ensures RowStart(r, cols) == r * cols
  {
    if r > 0 {
      RowStartIsProduct(r - 1, cols);
      assert (r - 1) * cols + cols == r * cols;
    }
  }

  /** Entry c of row r comes before the start of any later row. */
  lemma {:induction false} RowStartBound(r: nat, c: nat, rows: nat, cols: nat)
    requires r < rows && c < cols
    ensures RowStart(r, cols) + c < RowStart(rows, cols)
  {
    if r < rows - 1 {
      RowStartBound(r, c, rows - 1, cols);
    }
  }

  lemma {:induction false} FlattenLength<T>(m: seq<seq<T>>, cols: nat)
    requires HasShape(m, |m|, cols)
    ensures |Flatten(m)| == RowStart(|m|, cols)
  {
    if m != [] {
      FlattenLength(m[..|m| - 1], cols);
    }
  }

  /** Entry (r, c) sits at position r * cols + c of the flattening. */
  lemma {:induction false} FlattenAt<T>(m: seq<seq<T>>, cols: nat, r: nat, c: nat)
    requires HasShape(m, |m|, cols) && r < |m| && c < cols
    ensures RowStart(r, cols) + c < |Flatten(m)| && Flatten(m)[RowStart(r, cols) + c] == m[r][c]
  {
    FlattenLength(m, cols);
    RowStartBound(r, c, |m|, cols);
    var init := m[..|m| - 1];
    FlattenLength(init, cols);
    if r < |m| - 1 {
      FlattenAt(init, cols, r, c);
    }
  }

  lemma FlattenAppend<T>(m: seq<seq<T>>, row: seq<T>)
    ensures Flatten(m + [row]) == Flatten(m) + row
  {
    assert (m + [row])[..|m|] == m;
  }

  /** cv::Mat::reshape of a row of values into `rows` rows: the inverse of
      Flatten. */
  function Reshape<T>(values: seq<T>, rows: nat, cols: nat): (m: seq<seq<T>>)
    requires |values| == rows * cols
    ensures HasShape(m, rows, cols)
    ensures Flatten(m) == values
    decreases rows
  {
    if rows == 0 then []
    else
      var head := (rows - 1) * cols;
      RowStartIsProduct(rows, cols);
      RowStartIsProduct(rows - 1, cols);
      var init := Reshape(values[..head], rows - 1, cols);
      FlattenAppend(init, values[head..]);
      init + [values[head..]]
  }

  /** Reshaping a matrix's own flattening gives back the matrix. */
  lemma {:induction false} ReshapeFlatten<T>(m: seq<seq<T>>, cols: nat)
    requires HasShape(m, |m|, cols)
    ensures |Flatten(m)| == |m| * cols
    ensures Reshape(Flatten(m), |m|, cols) == m
  {
    FlattenLength(m, cols);
    RowStartIsProduct(|m|, cols);
    if m != [] {
      var init := m[..|m| - 1];
      FlattenLength(init, cols);
      RowStartIsProduct(|init|, cols);
      ReshapeFlatten(init, cols);
      var values := Flatten(m);
      var head := |init| * cols;
      assert values[..head] == Flatten(init);
      assert values[head..] == m[|m| - 1];
      assert m == init + [m[|m| - 1]];
    }
  }

  /** createMat with one channel: `size.area()` values laid out in
      `size.height` rows, read back in the same order. */
  function CreateMat<T>(height: nat, width: nat, values: seq<T>): (m: seq<seq<T>>)
    requires height * width == |values|
    ensures HasShape(m, height, width)
    ensures ToVector(m, width) == values
  {
    var m := Reshape(values, height, width);
    assert ToVector(m, width) == Flatten(m);
    m
  }

  /** toVector: rows x cols entries, laid out so that reshaping them to the
      matrix's shape gives the matrix back. */
  function ToVector<T>(m: seq<seq<T>>, cols: nat): (v: seq<T>)
    requires HasShape(m, |m|, cols)
    ensures |v| == |m| * cols
    ensures Reshape(v, |m|, cols) == m
  {
    ReshapeFlatten(m, cols);
    Flatten(m)
  }

  /** Row-major order: entry (r, c) is entry r * cols + c of toVector. */
  lemma ToVectorAt<T>(m: seq<seq<T>>, cols: nat, r: nat, c: nat)
    requires HasShape(m, |m|, cols) && r < |m| && c < cols
    ensures r * cols + c < |ToVector(m, cols)| && ToVector(m, cols)[r * cols + c] == m[r][c]
  {
    FlattenAt(m, cols, r, c);
    RowStartIsProduct(r, cols);
  }

  /** copy: the vector passed in is overwritten with the row-major entries
      (assign, not append), so its earlier contents are not a parameter;
      the entries it ends up holding reshape back into the matrix. */
  method Copy<T>(m: seq<seq<T>>, cols: nat) returns (out: seq<T>)
    requires HasShape(m, |m|, cols)
    ensures out == ToVector(m, cols)
    ensures |out| == |m| * cols && Reshape(out, |m|, cols) == m
  {
    out := ToVector(m, cols);
  }

  /** One call of iterate's callback: the entry and its row and column. */
  datatype Visit<T> = Visit(value: T, row: nat, col: nat)

  /** The calls iterate makes for each row, in column order. */
  function Visits<T>(m: seq<seq<T>>): seq<seq<Visit<T>>> {
    seq(|m|, r requires 0 <= r < |m| => seq(|m[r]|, c requires 0 <= c < |m[r]| => Visit(m[r][c], r, c)))
  }

  /** iterate: the nested row/column loop, recording each callback call. */
  method Iterate<T>(m: seq<seq<T>>, cols: nat) returns (calls: seq<Visit<T>>)
    requires HasShape(m, |m|, cols)
    ensures calls == Flatten(Visits(m))
  {
    calls := [];
    for row := 0 to |m|
      invariant calls == Flatten(Visits(m)[..row])
    {
      var line := Visits(m)[row];
      for col := 0 to cols
        invariant calls == Flatten(Visits(m)[..row]) + line[..col]
      {
        assert line[..col + 1] == line[..col] + [line[col]];
        calls := calls + [Visit(m[row][col], row, col)];
      }
      assert line[..cols] == line;
      assert Visits(m)[..row + 1] == Visits(m)[..row] + [line];
      FlattenAppend(Visits(m)[..row], line);
    }
    assert Visits(m)[..|m|] == Visits(m);
  }

  /** iterate calls the callback once per entry, in row-major order: call
      number r * cols + c is for row r, column c, with that entry. */
  lemma IterateOrder<T>(m: seq<seq<T>>, cols: nat, r: nat, c: nat)
    requires HasShape(m, |m|, cols) && r < |m| && c < cols
    ensures |Flatten(Visits(m))| == |m| * cols
    ensures r * cols + c < |Flatten(Visits(m))|
    ensures Flatten(Visits(m))[r * cols + c] == Visit(m[r][c], r, c)
  {
    FlattenLength(Visits(m), cols);
    RowStartIsProduct(|m|, cols);
    FlattenAt(Visits(m), cols, r, c);
    RowStartIsProduct(r, cols);
  }

  /** The values iterate hands to the callback are toVector's, in order. */
  lemma {:induction false} VisitedValues<T>(m: seq<seq<T>>)
    ensures |Flatten(Visits(m))| == |Flatten(m)|
    ensures forall k :: 0 <= k < |Flatten(m)| ==> Flatten(Visits(m))[k].value == Flatten(m)[k]
  {
    if m != [] {
      var init := m[..|m| - 1];
      assert Visits(m)[..|m| - 1] == Visits(init);
      VisitedValues(init);
      var calls, head := Flatten(Visits(m)), Flatten(Visits(init));
      assert calls == head + Visits(m)[|m| - 1];
      forall k | 0 <= k < |Flatten(m)|
        ensures calls[k].value == Flatten(m)[k]
      {
        if k >= |head| {
          assert calls[k] == Visits(m)[|m| - 1][k - |head|];
        }
      }
    }
  }

  /** cv::hconcat: the rows of `a` extended by the rows of `b`. */
  function HConcat<T>(a: seq<seq<T>>, b: seq<seq<T>>): (m: seq<seq<T>>)
    requires |a| == |b|
    ensures |m| == |a|
    ensures forall i :: 0 <= i < |m| ==> |m[i]| == |a[i]| + |b[i]| && m[i][..|a[i]|] == a[i] && m[i][|a[i]|..] == b[i]
  {
    seq(|a|, i requires 0 <= i < |a| => a[i] + b[i])
  }

  /** cv::vconcat: the rows of `a`, then the rows of `b`. */
  function VConcat<T>(a: seq<seq<T>>, b: seq<seq<T>>): (m: seq<seq<T>>)
    ensures |m| == |a| + |b|
    ensures m[..|a|] == a && m[|a|..] == b
  {
    a + b
  }

  /** How many entries of `s` satisfy `p`. */
  function CountIf<T>(s: seq<T>, p: T -> bool): nat {
    if s == [] then 0 else (if p(s[0]) then 1 else 0) + CountIf(s[1..], p)
  }

  lemma {:induction false} CountIfAppend<T>(a: seq<T>, b: seq<T>, p: T -> bool)
    ensures CountIf(a + b, p) == CountIf(a, p) + CountIf(b, p)
  {
    if a != [] {
      assert (a + b)[0] == a[0] && (a + b)[1..] == a[1..] + b;
      CountIfAppend(a[1..], b, p);
    } else {
      assert a + b == b;
    }
  }

  /** Taking entry j out of `s` takes it out of the multiset. */
  lemma RemoveAtMultiset<T>(s: seq<T>, j: nat)
    requires j < |s|
    ensures multiset(s[..j] + s[j + 1..]) == multiset(s) - multiset{s[j]}
  {
    var front, back := s[..j], s[j + 1..];
    assert s == front + [s[j]] + back;
    assert multiset(s) == multiset(front) + multiset{s[j]} + multiset(back);
  }

  /** Taking entry j out of `s` removes its contribution to the count. */
  lemma RemoveAtCount<T>(s: seq<T>, j: nat, p: T -> bool)
    requires j < |s|
    ensures CountIf(s, p) == CountIf(s[..j] + s[j + 1..], p) + (if p(s[j]) then 1 else 0)
  {
    var front, tail := s[..j], s[j..];
    assert s == front + tail;
    CountIfAppend(front, tail, p);
    assert tail[0] == s[j] && tail[1..] == s[j + 1..];
    CountIfAppend(front, s[j + 1..], p);
  }

  /** A count depends only on the multiset of entries. */
  lemma {:induction false} CountIfPermutation<T>(a: seq<T>, b: seq<T>, p: T -> bool)
    requires multiset(a) == multiset(b)
    ensures CountIf(a, p) == CountIf(b, p)
    decreases |a|
  {
    if a != [] {
      assert a == [a[0]] + a[1..];
      assert multiset(a[1..]) == multiset(a) - multiset{a[0]};
      assert a[0] in multiset(b);
      var j :| 0 <= j < |b| && b[j] == a[0];
      var rest := b[..j] + b[j + 1..];
      RemoveAtMultiset(b, j);
      RemoveAtCount(b, j, p);
      CountIfPermutation(a[1..], rest, p);
    } else {
      assert b == [];
    }
  }

  /** Every entry satisfying `p` makes the count grow: a count is at most
      the length, and at least the length when every entry qualifies. */
  lemma {:induction false} CountIfBounds<T>(s: seq<T>, p: T -> bool)
    ensures CountIf(s, p) <= |s|
    ensures (forall i :: 0 <= i < |s| ==> p(s[i])) ==> CountIf(s, p) == |s|
    ensures (forall i :: 0 <= i < |s| ==> !p(s[i])) ==> CountIf(s, p) == 0
  {
    if s != [] {
      CountIfBounds(s[1..], p);
    }
  }

  function Below(x: int): int -> bool {
    y => y < x
  }

  function AtMost(x: int): int -> bool {
    y => y <= x
  }

  /** `x` is the k-th smallest entry of `s` (from 0): fewer than k + 1
      entries lie strictly below it and more than k lie at or below it. */
  ghost predicate IsOrderStatistic(s: seq<int>, k: nat, x: int) {
    CountIf(s, Below(x)) <= k < CountIf(s, AtMost(x))
  }

  lemma {:induction false} CountMonotone(s: seq<int>, x: int, y: int)
    requires x < y
    ensures CountIf(s, AtMost(x)) <= CountIf(s, Below(y))
  {
    if s != [] {
      CountMonotone(s[1..], x, y);
    }
  }

  /** There is only one k-th smallest entry. */
  lemma OrderStatisticUnique(s: seq<int>, k: nat, x: int, y: int)
    requires IsOrderStatistic(s, k, x) && IsOrderStatistic(s, k, y)
    ensures x == y
  {
    if x < y {
      CountMonotone(s, x, y);
    } else if y < x {
      CountMonotone(s, y, x);
    }
  }

  predicate Sorted(s: seq<int>) {
    forall i, j :: 0 <= i < j < |s| ==> s[i] <= s[j]
  }

  /** What std::nth_element leaves at position k: everything before it is
      no greater, everything after it no smaller. */
  predicate PartitionedAt(s: seq<int>, k: nat)
    requires k < |s|
  {
    && (forall i :: 0 <= i < k ==> s[i] <= s[k])
    && (forall j :: k < j < |s| ==> s[k] <= s[j])
  }

  /** The entry at a partition point is the k-th smallest. */
  lemma PartitionedIsOrderStatistic(s: seq<int>, k: nat)
    requires k < |s| && PartitionedAt(s, k)
    ensures IsOrderStatistic(s, k, s[k])
  {
    var x := s[k];
    assert s == s[..k] + [x] + s[k + 1..];
    CountIfAppend(s[..k] + [x], s[k + 1..], Below(x));
    CountIfAppend(s[..k], [x], Below(x));
    CountIfAppend(s[..k] + [x], s[k + 1..], AtMost(x));
    CountIfAppend(s[..k], [x], AtMost(x));
    CountIfBounds(s[..k], Below(x));
    CountIfBounds(s[..k], AtMost(x));
    CountIfBounds(s[k + 1..], Below(x));
  }

  /** A sorted sequence is partitioned at every position, so its k-th entry
      is the k-th smallest. */
  lemma SortedIsOrderStatistic(s: seq<int>, k: nat)
    requires Sorted(s) && k < |s|
    ensures IsOrderStatistic(s, k, s[k])
  {
    PartitionedIsOrderStatistic(s, k);
  }

  /** The first i entries are in place: each is no greater than any entry
      after it. */
  ghost predicate SelectedUpTo(t: seq<int>, i: nat) {
    forall a, b :: 0 <= a < i && a < b < |t| ==> t[a] <= t[b]
  }

  /** Exchanging entry i with a smallest entry of t[i..] puts one more
      entry in place. */
  lemma SwapInMinimum(t: seq<int>, i: nat, m: nat)
    requires i <= m < |t| && SelectedUpTo(t, i)
    requires forall b :: i <= b < |t| ==> t[m] <= t[b]
    ensures var u := t[i := t[m]][m := t[i]];
      SelectedUpTo(u, i + 1) && multiset(u) == multiset(t) && |u| == |t|
  {
    var u := t[i := t[m]][m := t[i]];
    forall a, b | 0 <= a < i + 1 && a < b < |u|
      ensures u[a] <= u[b]
    {
      if a == i {
        assert u[b] == t[b] || u[b] == t[i];
      }
    }
  }

  /** std::nth_element(begin, begin + k, end): a permutation of the input
      partitioned at k (selection of the k + 1 smallest entries, one position
      at a time). */
  method NthElement(s: seq<int>, k: nat) returns (t: seq<int>)
    requires k < |s|
    ensures multiset(t) == multiset(s) && |t| == |s|
    ensures PartitionedAt(t, k)
  {
    t := s;
    var i := 0;
    while i <= k
      invariant i <= k + 1 && |t| == |s|
      invariant multiset(t) == multiset(s)
      invariant SelectedUpTo(t, i)
    {
      var m := i;
      for j := i + 1 to |t|
        invariant i <= m < |t|
        invariant forall b :: i <= b < j ==> t[m] <= t[b]
      {
        if t[j] < t[m] {
          m := j;
        }
      }
      SwapInMinimum(t, i, m);
      t := t[i := t[m]][m := t[i]];
      i := i + 1;
    }
  }

  /** median<int>: gather the rows into tmp, partition it at n / 2 and read
      that entry. The input must be non-empty. The result is an entry of the
      matrix and its (n / 2)-th smallest, which makes it the true median
      when n is odd. */
  method Median(m: seq<seq<int>>, cols: nat) returns (r: int)
    requires HasShape(m, |m|, cols) && |m| > 0 && cols > 0
    ensures r in Flatten(m)
    ensures IsOrderStatistic(Flatten(m), |Flatten(m)| / 2, r)
  {
    var tmp := [];
    for i := 0 to |m|
      invariant tmp == Flatten(m[..i])
    {
      assert m[..i + 1] == m[..i] + [m[i]];
      FlattenAppend(m[..i], m[i]);
      tmp := tmp + m[i];
    }
    assert m[..|m|] == m;
    FlattenLength(m, cols);
    RowStartIsProduct(|m|, cols);
    var k := |tmp| / 2;
    var t := NthElement(tmp, k);
    r := t[k];
    assert r in multiset(t);
    PartitionedIsOrderStatistic(t, k);
    CountIfPermutation(t, tmp, Below(r));
    CountIfPermutation(t, tmp, AtMost(r));
  }

  /** The median is the middle entry of the sorted entries, whichever way
      they were sorted. */
  lemma MedianIsSortedMiddle(m: seq<seq<int>>, sorted: seq<int>, r: int)
    requires multiset(sorted) == multiset(Flatten(m)) && Sorted(sorted)
    requires IsOrderStatistic(Flatten(m), |Flatten(m)| / 2, r)
    ensures |sorted| == |Flatten(m)|
    ensures |sorted| > 0 ==> sorted[|sorted| / 2] == r
  {
    assert |sorted| == |multiset(sorted)| == |Flatten(m)|;
    if |sorted| > 0 {
      var k := |sorted| / 2;
      SortedIsOrderStatistic(sorted, k);
      CountIfPermutation(sorted, Flatten(m), Below(sorted[k]));
      CountIfPermutation(sorted, Flatten(m), AtMost(sorted[k]));
      OrderStatisticUnique(Flatten(m), k, sorted[k], r);
    }
  }

  /** The fixture: the median of 5 6 1 2 3 4 6 777 8 is 5. */
  method MedianOfFixture() returns (r: int)
    ensures r == 5
  {
    var m := [[5, 6, 1, 2, 3, 4, 6, 777, 8]];
    r := Median(m, 9);
    var flat := Flatten(m);
    assert flat == m[0];
    assert CountIf(flat, Below(5)) == 4;
    assert CountIf(flat, AtMost(5)) == 5;
    OrderStatisticUnique(flat, 4, r, 5);
  }
}
