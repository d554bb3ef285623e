/** Concrete columns run through the passes: the documented outlier cases and
    the dependence of the result on the order of the two passes. The columns
    are described element by element, for any column name. */
module Scenarios {
  import opened Primality
  import opened Quantiles
  import opened Cleaning

  /** A column's cells made of the given numbers. */
  function Nums(vs: seq<real>): (cells: seq<Cell>)
    ensures |cells| == |vs|
    ensures forall i :: 0 <= i < |vs| ==> cells[i] == Num(vs[i])
  {
    seq(|vs|, i requires 0 <= i < |vs| => Num(vs[i]))
  }

  lemma {:induction false} NumbersOfNums(vs: seq<real>)
    ensures Numbers(Nums(vs)) == vs
  {
    if vs != [] {
      NumbersOfNums(vs[1..]);
      assert Nums(vs)[1..] == Nums(vs[1..]);
    }
  }

  /** The values start 1, 2, ..., 9. */
  predicate StartsOneToNine(vs: seq<real>) {
    |vs| >= 9 && forall k :: 0 <= k < 9 ==> vs[k] == (k + 1) as real
  }

  /** The values are 1, 2, ..., 9, 100. */
  predicate IsSample(vs: seq<real>) {
    |vs| == 10 && StartsOneToNine(vs) && vs[9] == 100.0
  }

  /** The values are 1, 2, ..., 9, 100, 1000001. */
  predicate IsFilledSample(vs: seq<real>) {
    |vs| == 11 && StartsOneToNine(vs) && vs[9] == 100.0 && vs[10] == 1000001.0
  }

  /** A sequence whose neighbours are in order is sorted. */
  lemma {:induction false} SortedByNeighbours(s: seq<real>)
    requires forall i :: 0 < i < |s| ==> s[i - 1] <= s[i]
    ensures Sorted(s)
  {
    if |s| > 1 {
      SortedByNeighbours(s[1..]);
      forall j | 1 <= j < |s|
        ensures s[0] <= s[j]
      {
        assert s[1..][0] <= s[1..][j - 1];
      }
    }
  }

  lemma SampleSorted(vs: seq<real>)
    requires IsSample(vs) || IsFilledSample(vs)
    ensures Sorted(vs)
  {
    forall i | 0 < i < |vs|
      ensures vs[i - 1] <= vs[i]
    {
      if i < 9 {
        assert vs[i - 1] == i as real && vs[i] == (i + 1) as real;
      } else if i == 9 {
        assert vs[8] == 9.0;
      }
    }
    SortedByNeighbours(vs);
  }

  lemma SampleQuantiles(vs: seq<real>)
    requires IsSample(vs)
    ensures Sorted(vs) && Quantile(vs, 0.25) == 3.25 && Quantile(vs, 0.75) == 7.75
  {
    SampleSorted(vs);
    assert vs[2] == 3.0 && vs[3] == 4.0 && vs[6] == 7.0 && vs[7] == 8.0;
    QuantileFormula(vs, 0.25, 2.25, 2, 3.0, 4.0, 3.25);
    QuantileFormula(vs, 0.75, 6.75, 6, 7.0, 8.0, 7.75);
  }

  /** [1, ..., 9, 100]: Q1 = 3.25 and Q3 = 7.75. */
  lemma SampleQuartiles(vs: seq<real>)
    requires IsSample(vs)
    ensures LowerQuartile(vs) == 3.25 && UpperQuartile(vs) == 7.75
  {
    SampleQuantiles(vs);
    QuartilesOfSorted(vs);
  }

  lemma FilledQuantiles(vs: seq<real>)
    requires IsFilledSample(vs)
    ensures Sorted(vs) && Quantile(vs, 0.25) == 3.5 && Quantile(vs, 0.75) == 8.5
  {
    SampleSorted(vs);
    assert vs[2] == 3.0 && vs[3] == 4.0 && vs[7] == 8.0 && vs[8] == 9.0;
    QuantileFormula(vs, 0.25, 2.5, 2, 3.0, 4.0, 3.5);
    QuantileFormula(vs, 0.75, 7.5, 7, 8.0, 9.0, 8.5);
  }

  /** [1, ..., 9, 100, 1000001]: Q1 = 3.5 and Q3 = 8.5. */
  lemma FilledQuartiles(vs: seq<real>)
    requires IsFilledSample(vs)
    ensures LowerQuartile(vs) == 3.5 && UpperQuartile(vs) == 8.5
  {
    FilledQuantiles(vs);
    QuartilesOfSorted(vs);
  }

  lemma SampleFences(vs: seq<real>)
    requires IsSample(vs)
    ensures OutlierFences(vs) == Fences(-3.5, 14.5)
  {
    SampleQuartiles(vs);
  }

  lemma FilledFences(vs: seq<real>)
    requires IsFilledSample(vs)
    ensures OutlierFences(vs) == Fences(-4.0, 16.0)
  {
    FilledQuartiles(vs);
  }

  /** Under the fences -3.5 and 14.5 only the tenth value, 100, is replaced. */
  lemma SampleFlagCells(vs: seq<real>)
    requires IsSample(vs)
    ensures FlagCells(Nums(vs), Fences(-3.5, 14.5)) == Nums(vs[..9]) + [OutlierMark]
  {
    var f := Fences(-3.5, 14.5);
    var cells := FlagCells(Nums(vs), f);
    var expected := Nums(vs[..9]) + [OutlierMark];
    forall k | 0 <= k < 9
      ensures cells[k] == expected[k]
    {
      assert vs[k] == (k + 1) as real;
      assert cells[k] == FlagCell(Num(vs[k]), f);
    }
    assert cells[9] == FlagCell(Num(100.0), f) == expected[9];
  }

  /** A Numeric column whose cells change under its own fences becomes Text. */
  lemma FlagColumnChanged(c: Column, f: Fences, cells: seq<Cell>)
    requires c.kind == Numeric && OutlierFences(Numbers(c.cells)) == f
    requires FlagCells(c.cells, f) == cells && cells != c.cells
    ensures FlagColumn(c) == Column(c.name, Text, cells)
  {
  }

  /** [1, ..., 9, 100]: fences -3.5 and 14.5, so only 100 is replaced, and
      the column then holds text. */
  lemma OneToNineAndHundred(name: string, vs: seq<real>)
    requires IsSample(vs)
    ensures LowerQuartile(vs) == 3.25 && UpperQuartile(vs) == 7.75
    ensures OutlierFences(vs) == Fences(-3.5, 14.5)
    ensures FlagColumn(Column(name, Numeric, Nums(vs))) ==
      Column(name, Text, Nums(vs[..9]) + [Str("Valor Atípico")])
  {
    SampleQuartiles(vs);
    SampleFences(vs);
    NumbersOfNums(vs);
    SampleFlagCells(vs);
    var cells := Nums(vs[..9]) + [OutlierMark];
    assert cells[9] != Nums(vs)[9];
    FlagColumnChanged(Column(name, Numeric, Nums(vs)), Fences(-3.5, 14.5), cells);
  }

  /** [5, 5, 5, 5]: the IQR is 0 and nothing is replaced. */
  lemma ConstantFives(name: string, vs: seq<real>)
    requires |vs| == 4 && forall k :: 0 <= k < 4 ==> vs[k] == 5.0
    ensures var c := Column(name, Numeric, Nums(vs));
      OutlierFences(Numbers(c.cells)) == Fences(5.0, 5.0) && FlagColumn(c) == c
  {
    var c := Column(name, Numeric, Nums(vs));
    NumbersOfNums(vs);
    ConstantColumnUnchanged(c, 5.0);
  }

  /** The column of the order scenario: the given numbers and a null. */
  function WithNull(name: string, vs: seq<real>): (c: Column)
    ensures c.kind == Numeric && |c.cells| == |vs| + 1 && c.cells[|vs|] == Null
  {
    Column(name, Numeric, Nums(vs) + [Null])
  }

  /** Filling the one null of a column of numbers appends the fill value. */
  lemma FillTrailingNull(vs: seq<real>, x: real)
    ensures FillNa(Nums(vs) + [Null], Num(x)) == Nums(vs + [x])
  {
  }

  /** As the first column of its table, the null becomes 1000001. */
  lemma FilledWithNull(name: string, vs: seq<real>)
    ensures FilledColumns([WithNull(name, vs)])[0] == Column(name, Numeric, Nums(vs + [1000001.0]))
  {
    FirstPositions();
    assert NullSentinel(Numeric, 0) == Num(1000001.0);
    FillTrailingNull(vs, 1000001.0);
  }

  /** After filling, 1000001 lies above the fences -4 and 16 and is flagged. */
  lemma FlagFilledLast(name: string, ws: seq<real>)
    requires IsFilledSample(ws)
    ensures FlagColumn(Column(name, Numeric, Nums(ws))).cells[10] == OutlierMark
  {
    var c := Column(name, Numeric, Nums(ws));
    NumbersOfNums(ws);
    FilledFences(ws);
    assert c.cells[10] == Num(1000001.0);
    assert FlagColumn(c).cells[10] == FlagCell(c.cells[10], Fences(-4.0, 16.0));
  }

  /** Fill first: the null at position 0 becomes 1000001, which is then
      flagged. */
  lemma FillThenFlag(name: string, vs: seq<real>)
    requires IsSample(vs)
    ensures FlaggedColumns(FilledColumns([WithNull(name, vs)]))[0].cells[10] == OutlierMark
  {
    FilledWithNull(name, vs);
    var ws := vs + [1000001.0];
    assert IsFilledSample(ws) by {
      assert forall k :: 0 <= k < 10 ==> ws[k] == vs[k];
    }
    FlagFilledLast(name, ws);
  }

  lemma FlagCellsAppendNull(cells: seq<Cell>, f: Fences)
    ensures FlagCells(cells + [Null], f) == FlagCells(cells, f) + [Null]
  {
  }

  lemma {:induction false} NumbersAppendNull(cells: seq<Cell>)
    ensures Numbers(cells + [Null]) == Numbers(cells)
  {
    if cells != [] {
      NumbersAppendNull(cells[1..]);
      assert (cells + [Null])[1..] == cells[1..] + [Null];
    }
  }

  lemma FlagCellsWithNull(vs: seq<real>)
    requires IsSample(vs)
    ensures FlagCells(Nums(vs) + [Null], Fences(-3.5, 14.5)) == Nums(vs[..9]) + [OutlierMark, Null]
  {
    var f := Fences(-3.5, 14.5);
    SampleFlagCells(vs);
    FlagCellsAppendNull(Nums(vs), f);
    assert (Nums(vs[..9]) + [OutlierMark]) + [Null] == Nums(vs[..9]) + [OutlierMark, Null];
  }

  lemma FencesWithNull(vs: seq<real>)
    requires IsSample(vs)
    ensures OutlierFences(Numbers(Nums(vs) + [Null])) == Fences(-3.5, 14.5)
  {
    NumbersOfNums(vs);
    NumbersAppendNull(Nums(vs));
    SampleFences(vs);
  }

  /** Flag first: 100 is flagged and the column becomes Text. */
  lemma FlaggedWithNull(name: string, vs: seq<real>)
    requires IsSample(vs)
    ensures FlaggedColumns([WithNull(name, vs)]) == [Column(name, Text, Nums(vs[..9]) + [OutlierMark, Null])]
  {
    var c := WithNull(name, vs);
    assert c.cells == Nums(vs) + [Null];
    var cells := Nums(vs[..9]) + [OutlierMark, Null];
    FencesWithNull(vs);
    FlagCellsWithNull(vs);
    assert cells[9] != c.cells[9];
    FlagColumnChanged(c, Fences(-3.5, 14.5), cells);
  }

  /** Flag first: the column is Text by the time its null is filled, so the
      null becomes "Valor Nulo". */
  lemma FlagThenFill(name: string, vs: seq<real>)
    requires IsSample(vs)
    ensures FilledColumns(FlaggedColumns([WithNull(name, vs)]))[0].cells[10] == Str("Valor Nulo")
  {
    FlaggedWithNull(name, vs);
    FilledCell([Column(name, Text, Nums(vs[..9]) + [OutlierMark, Null])], 0, 10);
  }

  /** The two orders of the passes disagree on the same table. */
  lemma OrderOfPassesMatters(name: string, vs: seq<real>)
    requires IsSample(vs)
    ensures FlaggedColumns(FilledColumns([WithNull(name, vs)])) !=
      FilledColumns(FlaggedColumns([WithNull(name, vs)]))
  {
    FillThenFlag(name, vs);
    FlagThenFill(name, vs);
  }
}
