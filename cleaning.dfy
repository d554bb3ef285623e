/** The three passes of `DataProcessor` over a table: counting the null cells,
    filling them with a value chosen by the column's position and kind, and
    replacing numbers outside the interquartile fences by a text marker. */
module Cleaning {
  import opened Primality
  import opened Quantiles

  /** The pandas dtype test `dtype in ['int64', 'float64']`, fixed as a tag. */
  datatype Kind = Numeric | Text

  datatype Cell = Null | Num(value: real) | Str(text: string)

  datatype Column = Column(name: string, kind: Kind, cells: seq<Cell>)

  const PrimeFill: Cell := Num(1111111.0)
  const CompositeFill: Cell := Num(1000001.0)
  const TextFill: Cell := Str("Valor Nulo")
  const OutlierMark: Cell := Str("Valor Atípico")

  /** A numeric column holds numbers and nulls only. */
  predicate NumericCells(cells: seq<Cell>) {
    forall k :: 0 <= k < |cells| ==> !cells[k].Str?
  }

  /** Every column has `rows` cells, names are distinct, and a Numeric
      column holds no text. */
  predicate WellFormed(cols: seq<Column>, rows: nat) {
    (forall i :: 0 <= i < |cols| ==> |cols[i].cells| == rows) &&
    (forall i, j :: 0 <= i < j < |cols| ==> cols[i].name != cols[j].name) &&
    (forall i :: 0 <= i < |cols| && cols[i].kind == Numeric ==> NumericCells(cols[i].cells))
  }

  // ---------------------------------------------------------------------
  // identificar_valores_nulos

  /** `isnull().sum()` over one column. */
  function NullCount(cells: seq<Cell>): (n: nat)
    ensures n == multiset(cells)[Null]
    ensures n <= |cells|
    ensures n == 0 <==> Null !in cells
  {
    if cells == [] then 0
    else
      assert cells == [cells[0]] + cells[1..];
      (if cells[0] == Null then 1 else 0) + NullCount(cells[1..])
  }

  /** Per-column counts in column order, and their sum. */
  datatype NullReport = NullReport(perColumn: seq<(string, nat)>, total: nat)

  function Sum(counts: seq<(string, nat)>): (t: nat)
    ensures t == 0 <==> forall i :: 0 <= i < |counts| ==> counts[i].1 == 0
  {
    if counts == [] then 0 else counts[0].1 + Sum(counts[1..])
  }

  /** The sum of counts each at most `bound` is at most |counts| * bound. */
  lemma {:induction false} SumAtMost(counts: seq<(string, nat)>, bound: nat)
    requires forall i :: 0 <= i < |counts| ==> counts[i].1 <= bound
    ensures Sum(counts) <= |counts| * bound
  {
    if counts != [] {
      SumAtMost(counts[1..], bound);
      OneMore(|counts| - 1, bound);
    }
  }

  lemma OneMore(n: nat, b: nat)
    ensures (n + 1) * b == n * b + b
  {
  }

  function IdentifyNulls(cols: seq<Column>): (r: NullReport)
    ensures |r.perColumn| == |cols|
    ensures forall i :: 0 <= i < |cols| ==>
      r.perColumn[i].0 == cols[i].name &&
      r.perColumn[i].1 == multiset(cols[i].cells)[Null] &&
      r.perColumn[i].1 <= |cols[i].cells|
    ensures r.total == Sum(r.perColumn)
    ensures r.total == 0 <==> forall i :: 0 <= i < |cols| ==> Null !in cols[i].cells
  {
    var per := seq(|cols|, i requires 0 <= i < |cols| => (cols[i].name, NullCount(cols[i].cells)));
    NullReport(per, Sum(per))
  }

  /** The total is at most the number of cells of the table. */
  lemma TotalAtMostCells(cols: seq<Column>, rows: nat)
    requires WellFormed(cols, rows)
    ensures IdentifyNulls(cols).total <= |cols| * rows
  {
    SumAtMost(IdentifyNulls(cols).perColumn, rows);
  }

  /** Two columns with nulls in the same places have the same null count. */
  lemma {:induction false} SameNullsSameCount(a: seq<Cell>, b: seq<Cell>)
    requires |a| == |b|
    requires forall k :: 0 <= k < |a| ==> (a[k] == Null <==> b[k] == Null)
    ensures NullCount(a) == NullCount(b)
  {
    if a != [] {
      SameNullsSameCount(a[1..], b[1..]);
    }
  }

  // ---------------------------------------------------------------------
  // sustitucion_valores_nulos

  /** The value that replaces the nulls of a column of this kind at this
      position among all columns. */
  function NullSentinel(kind: Kind, position: nat): (v: Cell)
    ensures v != Null
  {
    match kind
    case Numeric => if Prime(position) then PrimeFill else CompositeFill
    case Text => TextFill
  }

  /** The choice made for each column of the fill loop, testing the
      position with the trial-division method. */
  method ChooseSentinel(kind: Kind, position: nat) returns (v: Cell)
    ensures v == NullSentinel(kind, position)
  {
    if kind == Numeric {
      var prime := IsPrime(position);
      v := if prime then PrimeFill else CompositeFill;
    } else {
      v := TextFill;
    }
  }

  /** `fillna(value)`: every null cell becomes value. */
  function FillNa(cells: seq<Cell>, value: Cell): (r: seq<Cell>)
    requires value != Null
    ensures |r| == |cells|
    ensures Null !in r
    ensures forall k :: 0 <= k < |cells| ==> r[k] == if cells[k] == Null then value else cells[k]
  {
    seq(|cells|, k requires 0 <= k < |cells| => if cells[k] == Null then value else cells[k])
  }

  function FillColumn(c: Column, position: nat): (r: Column)
    ensures r.name == c.name && r.kind == c.kind && |r.cells| == |c.cells|
    ensures NullCount(r.cells) == 0
  {
    Column(c.name, c.kind, FillNa(c.cells, NullSentinel(c.kind, position)))
  }

  /** The table after the fill pass, column i filled by its position i. */
  function FilledColumns(cols: seq<Column>): (r: seq<Column>)
    ensures |r| == |cols|
    ensures forall i :: 0 <= i < |cols| ==>
      r[i].name == cols[i].name && r[i].kind == cols[i].kind && |r[i].cells| == |cols[i].cells|
  {
    seq(|cols|, i requires 0 <= i < |cols| => FillColumn(cols[i], i))
  }

  /** What a cell becomes under the fill pass: a null in a Numeric column at
      a prime position becomes 1111111, at any other position 1000001; a null
      in a Text column becomes "Valor Nulo"; any other cell stays. */
  lemma FilledCell(cols: seq<Column>, i: nat, k: nat)
    requires i < |cols| && k < |cols[i].cells|
    ensures var was, now := cols[i].cells[k], FilledColumns(cols)[i].cells[k];
      (was != Null ==> now == was) &&
      (was == Null && cols[i].kind == Numeric && Prime(i) ==> now == Num(1111111.0)) &&
      (was == Null && cols[i].kind == Numeric && !Prime(i) ==> now == Num(1000001.0)) &&
      (was == Null && cols[i].kind == Text ==> now == Str("Valor Nulo"))
  {
  }

  /** Numeric columns at positions 0 to 9 get 1000001, 1000001, 1111111,
      1111111, 1000001, 1111111, 1000001, 1111111, 1000001, 1000001. */
  lemma SentinelsOfFirstPositions()
    ensures NullSentinel(Numeric, 0) == CompositeFill && NullSentinel(Numeric, 1) == CompositeFill
    ensures NullSentinel(Numeric, 2) == PrimeFill && NullSentinel(Numeric, 3) == PrimeFill
    ensures NullSentinel(Numeric, 4) == CompositeFill && NullSentinel(Numeric, 5) == PrimeFill
    ensures NullSentinel(Numeric, 6) == CompositeFill && NullSentinel(Numeric, 7) == PrimeFill
    ensures NullSentinel(Numeric, 8) == CompositeFill && NullSentinel(Numeric, 9) == CompositeFill
    ensures forall p: nat :: NullSentinel(Text, p) == TextFill
  {
    FirstPositions();
  }

  lemma FillKeepsWellFormed(cols: seq<Column>, rows: nat)
    requires WellFormed(cols, rows)
    ensures WellFormed(FilledColumns(cols), rows)
  {
    var r := FilledColumns(cols);
    forall i | 0 <= i < |r| && r[i].kind == Numeric
      ensures NumericCells(r[i].cells)
    {
      forall k | 0 <= k < |r[i].cells|
        ensures !r[i].cells[k].Str?
      {
        FilledCell(cols, i, k);
        assert cols[i].kind == Numeric && NumericCells(cols[i].cells);
      }
    }
  }

  /** After the fill pass the null report is all zeros. */
  lemma FillThenIdentify(cols: seq<Column>)
    ensures var r := IdentifyNulls(FilledColumns(cols));
      r.total == 0 && forall i :: 0 <= i < |cols| ==> r.perColumn[i].1 == 0
  {
    var f := FilledColumns(cols);
    forall i | 0 <= i < |f|
      ensures Null !in f[i].cells
    {
      assert NullCount(f[i].cells) == 0;
    }
  }

  /** Filling a second time changes nothing. */
  lemma FillIdempotent(cols: seq<Column>)
    ensures FilledColumns(FilledColumns(cols)) == FilledColumns(cols)
  {
    var f := FilledColumns(cols);
    forall i | 0 <= i < |f|
      ensures FilledColumns(f)[i] == f[i]
    {
      assert FilledColumns(f)[i].cells == f[i].cells;
    }
  }

  // ---------------------------------------------------------------------
  // sustitucion_valores_atipicos

  /** The numbers of a column in order; nulls and text are skipped. */
  function Numbers(cells: seq<Cell>): (xs: seq<real>)
    ensures |xs| <= |cells|
    ensures forall x :: x in xs <==> Num(x) in cells
  {
    if cells == [] then []
    else
      assert cells == [cells[0]] + cells[1..];
      (if cells[0].Num? then [cells[0].value] else []) + Numbers(cells[1..])
  }

  /** Every number is kept as often as it occurs. */
  lemma {:induction false} NumbersMultiplicity(cells: seq<Cell>)
    ensures forall x :: multiset(Numbers(cells))[x] == multiset(cells)[Num(x)]
  {
    if cells != [] {
      NumbersMultiplicity(cells[1..]);
      assert cells == [cells[0]] + cells[1..];
      var head := if cells[0].Num? then [cells[0].value] else [];
      assert Numbers(cells) == head + Numbers(cells[1..]);
      assert forall x :: multiset(head)[x] == multiset([cells[0]])[Num(x)];
      assert multiset(head + Numbers(cells[1..])) == multiset(head) + multiset(Numbers(cells[1..]));
    }
  }

  /** The bounds below and above which a value is atypical; Undefined when
      there is no number at all (the quantiles are then NaN and every
      comparison with them is false). */
  datatype Fences = Undefined | Fences(lower: real, upper: real)

  function OutlierFences(xs: seq<real>): (f: Fences)
    ensures f.Undefined? <==> xs == []
    ensures f.Fences? ==>
      f.lower <= LowerQuartile(xs) <= Median(xs) <= UpperQuartile(xs) <= f.upper
    ensures f.Fences? ==>
      f.upper - f.lower == 4.0 * (UpperQuartile(xs) - LowerQuartile(xs))
  {
    if xs == [] then Undefined
    else
      var q1, q3 := LowerQuartile(xs), UpperQuartile(xs);
      QuartilesOrdered(xs);
      var iqr := q3 - q1;
      Fences(q1 - 1.5 * iqr, q3 + 1.5 * iqr)
  }

  /** Strictly outside the fences; with undefined fences nothing is. */
  predicate IsOutlier(x: real, f: Fences)
    ensures IsOutlier(x, f) <==> f.Fences? && !(f.lower <= x <= f.upper)
  {
    f.Fences? && (x < f.lower || x > f.upper)
  }

  /** The replacement rule of the pass: an atypical number becomes the
      marker, and every other cell stays as it is. */
  function FlagCell(c: Cell, f: Fences): (r: Cell)
    ensures c.Num? && IsOutlier(c.value, f) ==> r == OutlierMark
    ensures !(c.Num? && IsOutlier(c.value, f)) ==> r == c
  {
    if c.Num? && IsOutlier(c.value, f) then OutlierMark else c
  }

  /** `apply` of the replacement rule to every cell of a column. */
  function FlagCells(cells: seq<Cell>, f: Fences): (r: seq<Cell>)
    ensures |r| == |cells|
    ensures forall k :: 0 <= k < |cells| ==> r[k] == FlagCell(cells[k], f)
  {
    seq(|cells|, k requires 0 <= k < |cells| => FlagCell(cells[k], f))
  }

  /** One column after the outlier pass. A Text column is left alone. In a
      Numeric column every number outside the fences becomes the marker;
      once a marker is in it the column holds text, so its kind becomes Text
      (what assigning a mixed result to the column does to its dtype). */
  function FlagColumn(c: Column): (r: Column)
    ensures r.name == c.name && |r.cells| == |c.cells|
    ensures c.kind == Text ==> r == c
    ensures c.kind == Numeric ==> forall k :: 0 <= k < |c.cells| ==>
      r.cells[k] == FlagCell(c.cells[k], OutlierFences(Numbers(c.cells)))
    ensures c.kind == Numeric && r.cells == c.cells ==> r.kind == Numeric
    ensures c.kind == Numeric && r.kind == Numeric ==> r.cells == c.cells
  {
    if c.kind == Text then c
    else
      var cells := FlagCells(c.cells, OutlierFences(Numbers(c.cells)));
      Column(c.name, if cells == c.cells then Numeric else Text, cells)
  }

  function FlaggedColumns(cols: seq<Column>): (r: seq<Column>)
    ensures |r| == |cols|
    ensures forall i :: 0 <= i < |cols| ==> r[i] == FlagColumn(cols[i])
  {
    seq(|cols|, i requires 0 <= i < |cols| => FlagColumn(cols[i]))
  }

  /** A number x of a Numeric column becomes "Valor Atípico" exactly when
      x < Q1 - 1.5 * IQR or x > Q3 + 1.5 * IQR, with Q1 and Q3 the quartiles
      of the column's numbers; otherwise it stays. */
  lemma FlaggedNumber(c: Column, k: nat)
    requires c.kind == Numeric && k < |c.cells| && c.cells[k].Num?
    ensures var xs, x := Numbers(c.cells), c.cells[k].value;
      |xs| > 0 &&
      var q1, q3 := LowerQuartile(xs), UpperQuartile(xs);
      (FlagColumn(c).cells[k] == Str("Valor Atípico") <==>
         x < q1 - 1.5 * (q3 - q1) || x > q3 + 1.5 * (q3 - q1)) &&
      (FlagColumn(c).cells[k] != Str("Valor Atípico") ==> FlagColumn(c).cells[k] == c.cells[k])
  {
    assert c.cells[k].value in Numbers(c.cells);
  }

  /** Nulls and text cells pass through the outlier pass unchanged. */
  lemma NonNumbersUnchanged(c: Column, k: nat)
    requires k < |c.cells| && !c.cells[k].Num?
    ensures FlagColumn(c).cells[k] == c.cells[k]
  {
  }

  /** A value between the quartiles is never atypical; in particular the median is not. */
  lemma InterquartileNotOutlier(xs: seq<real>, x: real)
    requires |xs| > 0 && LowerQuartile(xs) <= x <= UpperQuartile(xs)
    ensures !IsOutlier(x, OutlierFences(xs))
    ensures !IsOutlier(Median(xs), OutlierFences(xs))
  {
  }

  /** The fences of a list of equal values v are v and v. */
  lemma ConstantFences(xs: seq<real>, v: real)
    requires xs != [] && forall j :: 0 <= j < |xs| ==> xs[j] == v
    ensures OutlierFences(xs) == Fences(v, v)
  {
    var s := Sort(xs);
    forall i | 0 <= i < |s|
      ensures s[i] == v
    {
      assert s[i] in multiset(xs);
    }
    QuantileOfConstant(s, v, 0.25);
    QuantileOfConstant(s, v, 0.75);
  }

  /** All numbers of a column equal to v: the fences are v and v, and
      nothing is flagged. */
  lemma ConstantColumnUnchanged(c: Column, v: real)
    requires c.kind == Numeric
    requires forall k :: 0 <= k < |c.cells| ==> c.cells[k] == Null || c.cells[k] == Num(v)
    ensures Numbers(c.cells) != [] ==> OutlierFences(Numbers(c.cells)) == Fences(v, v)
    ensures FlagColumn(c) == c
  {
    var xs := Numbers(c.cells);
    if xs != [] {
      forall j | 0 <= j < |xs|
        ensures xs[j] == v
      {
        assert Num(xs[j]) in c.cells;
      }
      ConstantFences(xs, v);
    }
    var f := OutlierFences(xs);
    assert f.Undefined? || f == Fences(v, v);
    var cells := FlagCells(c.cells, f);
    forall k | 0 <= k < |c.cells|
      ensures cells[k] == c.cells[k]
    {
    }
    assert cells == c.cells;
  }

  /** Running the outlier pass twice gives what running it once gives. */
  lemma FlagColumnIdempotent(c: Column)
    ensures FlagColumn(FlagColumn(c)) == FlagColumn(c)
  {
    var r := FlagColumn(c);
    if r.kind == Numeric {
      assert r == c;
    }
  }

  lemma FlagIdempotent(cols: seq<Column>)
    ensures FlaggedColumns(FlaggedColumns(cols)) == FlaggedColumns(cols)
  {
    var f := FlaggedColumns(cols);
    forall i | 0 <= i < |f|
      ensures FlaggedColumns(f)[i] == f[i]
    {
      FlagColumnIdempotent(cols[i]);
    }
  }

  /** The outlier pass keeps the table well formed, and it neither creates
      nor removes a null, so the null report is the same before and after. */
  lemma FlagKeepsWellFormed(cols: seq<Column>, rows: nat)
    requires WellFormed(cols, rows)
    ensures WellFormed(FlaggedColumns(cols), rows)
  {
  }

  lemma FlagKeepsNullReport(cols: seq<Column>)
    ensures IdentifyNulls(FlaggedColumns(cols)) == IdentifyNulls(cols)
  {
    var f := FlaggedColumns(cols);
    forall i | 0 <= i < |cols|
      ensures f[i].name == cols[i].name && NullCount(f[i].cells) == NullCount(cols[i].cells)
    {
      FlagColumnKeepsNulls(cols[i]);
    }
    assert IdentifyNulls(f).perColumn == IdentifyNulls(cols).perColumn;
  }

  lemma FlagColumnKeepsNulls(c: Column)
    ensures FlagColumn(c).name == c.name && NullCount(FlagColumn(c).cells) == NullCount(c.cells)
  {
    var r := FlagColumn(c);
    assert forall k :: 0 <= k < |c.cells| ==> (r.cells[k] == Null <==> c.cells[k] == Null);
    SameNullsSameCount(r.cells, c.cells);
  }

  // ---------------------------------------------------------------------
  // The table shared by the passes, updated in place.

  /** One step of the outlier loop: column i is replaced by its flagged form. */
  lemma FlagStep(cols: seq<Column>, current: seq<Column>, i: nat, next: Column)
    requires i < |cols| && current == FlaggedColumns(cols[..i]) + cols[i..]
    requires next == FlagColumn(cols[i])
    ensures current[i := next] == FlaggedColumns(cols[..i + 1]) + cols[i + 1..]
  {
    FlaggedSnoc(cols, i);
    ReplaceAt(FlaggedColumns(cols[..i]), cols[i..], next);
  }

  /** Replacing the first element after a prefix. */
  lemma ReplaceAt(done: seq<Column>, rest: seq<Column>, x: Column)
    requires |rest| > 0
    ensures (done + rest)[|done| := x] == done + [x] + rest[1..]
    ensures (rest[0] == x) ==> done + rest == done + [x] + rest[1..]
  {
    assert rest == [rest[0]] + rest[1..];
  }

  /** The outlier pass over a longer prefix of the columns. */
  lemma FlaggedSnoc(cols: seq<Column>, i: nat)
    requires i < |cols|
    ensures FlaggedColumns(cols[..i + 1]) == FlaggedColumns(cols[..i]) + [FlagColumn(cols[i])]
    ensures cols[i..][1..] == cols[i + 1..]
  {
    assert cols[..i + 1][..i] == cols[..i];
  }

  class Table {
    var columns: seq<Column>
    var rows: nat

    ghost predicate Valid()
      reads this
    {
      WellFormed(columns, rows)
    }

    /** A table as the loader hands it over. */
    constructor (columns: seq<Column>, rows: nat)
      requires WellFormed(columns, rows)
      ensures Valid() && this.columns == columns && this.rows == rows
    {
      this.columns := columns;
      this.rows := rows;
    }

    /** `sustitucion_valores_nulos`: the columns in order, each filled by
        its position; the table itself is returned. */
    method FillNulls() returns (same: Table)
      requires Valid()
      modifies this
      ensures same == this && Valid()
      ensures rows == old(rows)
      ensures columns == FilledColumns(old(columns))
    {
      FillKeepsWellFormed(columns, rows);
      var i := 0;
      while i < |columns|
        invariant 0 <= i <= |columns| == |old(columns)|
        invariant rows == old(rows)
        invariant forall k :: 0 <= k < i ==> columns[k] == FillColumn(old(columns)[k], k)
        invariant forall k :: i <= k < |columns| ==> columns[k] == old(columns)[k]
      {
        var c := columns[i];
        var value := ChooseSentinel(c.kind, i);
        var next := Column(c.name, c.kind, FillNa(c.cells, value));
        assert next == FillColumn(old(columns)[i], i);
        columns := columns[i := next];
        i := i + 1;
      }
      assert columns == FilledColumns(old(columns));
      same := this;
    }

    /** `sustitucion_valores_atipicos`: every Numeric column in order gets
        its fences and its atypical numbers replaced; the table itself is
        returned. */
    method FlagOutliers() returns (same: Table)
      requires Valid()
      modifies this
      ensures same == this && Valid()
      ensures rows == old(rows)
      ensures columns == FlaggedColumns(old(columns))
    {
      FlagKeepsWellFormed(columns, rows);
      var i := 0;
      while i < |columns|
        invariant 0 <= i <= |columns| == |old(columns)|
        invariant rows == old(rows)
        invariant columns == FlaggedColumns(old(columns)[..i]) + old(columns)[i..]
      {
        var c := columns[i];
        assert c == old(columns)[i];
        var next := c;
        if c.kind == Numeric {
          var fences := OutlierFences(Numbers(c.cells));
          var cells := FlagCells(c.cells, fences);
          next := Column(c.name, if cells == c.cells then Numeric else Text, cells);
          FlagStep(old(columns), columns, i, next);
          columns := columns[i := next];
        } else {
          FlagStep(old(columns), columns, i, next);
          assert columns[i := next] == columns;
        }
        i := i + 1;
      }
      assert old(columns)[..i] == old(columns);
      assert columns == FlaggedColumns(old(columns));
      same := this;
    }
  }
}
