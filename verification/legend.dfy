/**
 * The legend (script.js, lines 105-121): the distinct leaf categories, in the order
 * in which they first appear, placed on a grid of 150-unit columns and 25-unit rows.
 */
module Legend {
  import opened Wrappers

  /** No element occurs twice. */
  predicate NoDuplicates<T(==)>(s: seq<T>) {
    forall i, j :: 0 <= i < j < |s| ==> s[i] != s[j]
  }

  /** The index of the first occurrence of `x` in `xs`. */
  function FirstIndex<T(==)>(xs: seq<T>, x: T): (k: nat)
    requires x in xs
    ensures k < |xs| && xs[k] == x && x !in xs[..k]
  {
    if xs[0] == x then 0 else 1 + FirstIndex(xs[1..], x)
  }

  /**
   * `[...new Set(xs)]`: the elements of `xs` without repeats, a Set keeping its
   * elements in insertion order and ignoring an element it already holds.
   */
  function Distinct<T(==)>(xs: seq<T>): (r: seq<T>)
    ensures NoDuplicates(r)
    ensures forall i :: 0 <= i < |r| ==> r[i] in xs
    ensures forall i :: 0 <= i < |xs| ==> xs[i] in r
    ensures |r| <= |xs|
  {
    if xs == [] then []
    else
      var r := Distinct(xs[..|xs| - 1]);
      var last := xs[|xs| - 1];
      assert forall i :: 0 <= i < |xs| - 1 ==> xs[i] == xs[..|xs| - 1][i];
      if last in r then r else r + [last]
  }

  /** The first occurrence of an element is the only index that satisfies FirstIndex's contract. */
  lemma FirstIndexUnique<T>(xs: seq<T>, x: T, k: nat)
    requires k < |xs| && xs[k] == x && x !in xs[..k]
    ensures FirstIndex(xs, x) == k
  {
  }

  /** An element of a prefix first occurs in the whole sequence where it first occurs in the prefix. */
  lemma FirstIndexInPrefix<T>(xs: seq<T>, n: nat, y: T)
    requires n <= |xs| && y in xs[..n]
    ensures FirstIndex(xs, y) == FirstIndex(xs[..n], y)
  {
    var k := FirstIndex(xs[..n], y);
    assert xs[..k] == xs[..n][..k];
    FirstIndexUnique(xs, y, k);
  }

  /** The distinct categories keep the order of their first occurrences among the leaves. */
  lemma {:induction false} DistinctKeepsFirstOccurrenceOrder<T>(xs: seq<T>)
    ensures forall i, j :: 0 <= i < j < |Distinct(xs)| ==>
      FirstIndex(xs, Distinct(xs)[i]) < FirstIndex(xs, Distinct(xs)[j])
  {
    if xs != [] {
      var n := |xs| - 1;
      var init := xs[..n];
      var last := xs[n];
      var r := Distinct(init);
      var d := Distinct(xs);
      DistinctKeepsFirstOccurrenceOrder(init);
      assert d == if last in r then r else r + [last];
      forall i, j | 0 <= i < j < |d|
        ensures FirstIndex(xs, d[i]) < FirstIndex(xs, d[j])
      {
        assert d[i] == r[i] && r[i] in init;
        FirstIndexInPrefix(xs, n, r[i]);
        if j < |r| {
          assert d[j] == r[j] && r[j] in init;
          FirstIndexInPrefix(xs, n, r[j]);
        } else {
          assert d[j] == last && last !in init;
          FirstIndexUnique(xs, last, n);
        }
      }
    }
  }

  /** One legend entry per distinct category: the entry count is the number of categories. */
  lemma {:induction false} DistinctCountsCategories<T>(xs: seq<T>)
    ensures |Distinct(xs)| == |set x | x in xs|
  {
    var r := Distinct(xs);
    assert (set x | x in xs) == (set x | x in r);
    NoDuplicatesCardinality(r);
  }

  lemma {:induction false} NoDuplicatesCardinality<T>(s: seq<T>)
    requires NoDuplicates(s)
    ensures |set x | x in s| == |s|
  {
    if s != [] {
      var t := s[1..];
      NoDuplicatesCardinality(t);
      assert (set x | x in s) == {s[0]} + (set x | x in t);
      assert s[0] !in t;
    }
  }

  /** Horizontal spacing between legend columns. */
  const ColumnWidth: int := 150
  /** Side of a legend swatch. */
  const SwatchSize: int := 15
  /** Vertical gap between legend rows. */
  const RowGap: int := 10
  /** Distance between the tops of two legend rows. */
  const RowHeight: int := SwatchSize + RowGap

  /** `Math.floor(a / b)` for integers, `b` non-zero. */
  function FloorDiv(a: int, b: int): (q: int)
    requires b != 0
    ensures b > 0 ==> b * q <= a < b * q + b
    ensures b < 0 ==> b * q >= a > b * q + b
  {
    if b > 0 || a % b == 0 then a / b else a / b - 1
  }

  /** `Math.floor(legendWidth / 150)`: how many entries fit side by side. */
  function PerRow(legendWidth: int): (k: int)
    ensures ColumnWidth * k <= legendWidth < ColumnWidth * (k + 1)
  {
    FloorDiv(legendWidth, ColumnWidth)
  }

  /** Where a legend entry is translated to, inside the legend group. */
  datatype Point = Point(x: int, y: int)

  /**
   * The translation of entry `i`: column `i % perRow`, row `Math.floor(i / perRow)`.
   * With no whole column in the width (`perRow` zero) JavaScript's x is NaN, and
   * its y is NaN for entry 0 and Infinity for the others; the translation is invalid
   * either way, and the model returns None. The `%` of a non-negative index
   * agrees between JavaScript and Dafny for either sign of `perRow`.
   */
  function ItemPosition(i: nat, legendWidth: int): (p: Option<Point>)
    ensures p.None? <==> 0 <= legendWidth < ColumnWidth
  {
    var k := PerRow(legendWidth);
    if k == 0 then None
    else Some(Point((i % k) * ColumnWidth, FloorDiv(i, k) * RowHeight))
  }

  /**
   * With room for at least one column, entry `i` sits in column `i % perRow` and row
   * `i / perRow`; its column starts inside the legend's width and leaves a whole
   * column's room before that width ends.
   */
  lemma ItemPositionInGrid(i: nat, legendWidth: int)
    requires legendWidth >= ColumnWidth
    ensures var k := PerRow(legendWidth);
      k >= 1 && ItemPosition(i, legendWidth) == Some(Point((i % k) * ColumnWidth, (i / k) * RowHeight))
    ensures var p := ItemPosition(i, legendWidth).value;
      0 <= p.x && p.x + ColumnWidth <= PerRow(legendWidth) * ColumnWidth <= legendWidth
    ensures var p := ItemPosition(i, legendWidth).value;
      p.y >= 0 && p.x % ColumnWidth == 0 && p.y % RowHeight == 0
  {
    var k := PerRow(legendWidth);
    assert k >= 1;
    var c := i % k;
    assert c + 1 <= k;
    assert (c + 1) * ColumnWidth <= k * ColumnWidth;
  }

  /** Grid position and index determine each other: entry `i` is row times perRow plus column. */
  lemma ItemPositionRecoversIndex(i: nat, legendWidth: int)
    requires legendWidth >= ColumnWidth
    ensures var p := ItemPosition(i, legendWidth).value;
      i == (p.y / RowHeight) * PerRow(legendWidth) + p.x / ColumnWidth
  {
    var k := PerRow(legendWidth);
    ItemPositionInGrid(i, legendWidth);
    var p := ItemPosition(i, legendWidth).value;
    assert p.x / ColumnWidth == i % k;
    assert p.y / RowHeight == i / k;
  }

  /** Two different entries never share a position. */
  lemma ItemPositionInjective(i: nat, j: nat, legendWidth: int)
    requires legendWidth >= ColumnWidth
    requires i != j
    ensures ItemPosition(i, legendWidth) != ItemPosition(j, legendWidth)
  {
    ItemPositionRecoversIndex(i, legendWidth);
    ItemPositionRecoversIndex(j, legendWidth);
  }
}
