/**
 * The eager relational meaning of the data-frame operators the control-data
 * script chains together: select, vertical concat, filter on a comparison
 * with a string literal, drop, unique, left join on one key column, and
 * rename.
 *
 * A frame is an ordered list of column names and a sequence of rows; a row is
 * a sequence of cells aligned position by position with the column names,
 * and a cell is a string or null. Every frame the engine produces has
 * distinct column names and rows as wide as the column list (`WellFormed`).
 */
module Frames {
  import opened Wrappers
  import opened Columns

  type Name = Column
  type Cell = Option<string>
  type Row = seq<Cell>

  datatype Frame = Frame(columns: seq<Name>, rows: seq<Row>)

  /** The engine's errors that these operators can raise. */
  datatype Error =
    | ColumnNotFound(name: Name)
    | DuplicateColumn(name: Name)
    | SchemaMismatch
    | NothingToConcatenate

  predicate Distinct<T(==)>(s: seq<T>) {
    forall i, j :: 0 <= i < j < |s| ==> s[i] != s[j]
  }

  predicate RowsOfWidth(rows: seq<Row>, n: nat) {
    forall j :: 0 <= j < |rows| ==> |rows[j]| == n
  }

  predicate WellFormed(f: Frame) {
    Distinct(f.columns) && RowsOfWidth(f.rows, |f.columns|)
  }

  /** Each row of `a` is one of the rows of `b`, by position. */
  lemma {:induction false} SubRows(a: seq<Row>, b: seq<Row>)
    requires forall x :: x in a ==> x in b
    ensures forall j :: 0 <= j < |a| ==> a[j] in b
  {
    forall j | 0 <= j < |a| ensures a[j] in b {
      assert a[j] in a;
    }
  }

  /** Rows drawn from rows of width `n` have width `n`. */
  lemma {:induction false} RowsOfWidthSub(a: seq<Row>, b: seq<Row>, n: nat)
    requires RowsOfWidth(b, n) && forall x :: x in a ==> x in b
    ensures RowsOfWidth(a, n)
  {
    SubRows(a, b);
  }

  // ---------------------------------------------------------------------
  // Column lookup

  /** Position of the first column called `c`. */
  function IndexOf(s: seq<Name>, c: Name): (i: nat)
    requires c in s
    ensures i < |s| && s[i] == c
  {
    IndexFrom(s, c, 0)
  }

  function IndexFrom(s: seq<Name>, c: Name, k: nat): (i: nat)
    requires k <= |s| && c in s[k..]
    ensures k <= i < |s| && s[i] == c
    decreases |s| - k
  {
    if s[k] == c then k else
      assert c in s[k + 1..] by {
        var j :| 0 <= j < |s[k..]| && s[k..][j] == c;
        assert s[k + 1..][j - 1] == c;
      }
      IndexFrom(s, c, k + 1)
  }

  lemma {:induction false} IndexOfDistinct(s: seq<Name>, j: nat)
    requires Distinct(s) && j < |s|
    ensures IndexOf(s, s[j]) == j
  {

  }

  /** The cell of `row` in the column called `c`. */
  function Get(columns: seq<Name>, row: Row, c: Name): Cell
    requires c in columns && |row| == |columns|
  {
    row[IndexOf(columns, c)]
  }

  /** The first name of `wanted` that `present` lacks, if any. */
  function FirstMissing(wanted: seq<Name>, present: seq<Name>): (m: Option<Name>)
    ensures m.None? <==> forall c :: c in wanted ==> c in present
    ensures m.Some? ==> m.value in wanted && m.value !in present
  {
    if wanted == [] then None
    else if wanted[0] !in present then Some(wanted[0])
    else
      assert forall c :: c in wanted ==> c == wanted[0] || c in wanted[1..];
      FirstMissing(wanted[1..], present)
  }

  lemma {:induction false} DistinctCons<T>(s: seq<T>)
    requires s != []
    ensures Distinct(s) <==> s[0] !in s[1..] && Distinct(s[1..])
  {
    if s[0] !in s[1..] && Distinct(s[1..]) {
      forall i, j | 0 <= i < j < |s| ensures s[i] != s[j] {
        if i == 0 {
          assert s[j] == s[1..][j - 1];
        } else {
          assert s[i] == s[1..][i - 1] && s[j] == s[1..][j - 1];
        }
      }
    }
    assert forall j :: 0 <= j < |s[1..]| ==> s[1..][j] == s[j + 1];
  }

  /** The first name that occurs twice in `s`, if any. */
  function FirstDuplicate(s: seq<Name>): (d: Option<Name>)
    ensures d.None? <==> Distinct(s)
    ensures d.Some? ==> d.value in s
  {
    if s == [] then None
    else
      DistinctCons(s);
      if s[0] in s[1..] then Some(s[0]) else FirstDuplicate(s[1..])
  }

  // ---------------------------------------------------------------------
  // select

  function Positions(columns: seq<Name>, cols: seq<Name>): (idx: seq<nat>)
    requires forall c :: c in cols ==> c in columns
    ensures |idx| == |cols|
    ensures forall j :: 0 <= j < |cols| ==> idx[j] < |columns| && columns[idx[j]] == cols[j]
  {
    seq(|cols|, j requires 0 <= j < |cols| => IndexOf(columns, cols[j]))
  }

  function ProjectRow(row: Row, idx: seq<nat>): (p: Row)
    requires forall j :: 0 <= j < |idx| ==> idx[j] < |row|
    ensures |p| == |idx|
    ensures forall j :: 0 <= j < |idx| ==> p[j] == row[idx[j]]
  {
    seq(|idx|, j requires 0 <= j < |idx| => row[idx[j]])
  }

  function ProjectRows(rows: seq<Row>, n: nat, idx: seq<nat>): (r: seq<Row>)
    requires RowsOfWidth(rows, n)
    requires forall j :: 0 <= j < |idx| ==> idx[j] < n
    ensures |r| == |rows|
    ensures forall i :: 0 <= i < |rows| ==> r[i] == ProjectRow(rows[i], idx)
  {
    seq(|rows|, i requires 0 <= i < |rows| => ProjectRow(rows[i], idx))
  }

  /**
   * `select(cols)`: the columns `cols` in that order, every row kept.
   * Selecting a column the frame lacks, or the same name twice, fails.
   */
  function Select(f: Frame, cols: seq<Name>): (r: Result<Frame, Error>)
    requires WellFormed(f)
    ensures r.Success? <==> (forall c :: c in cols ==> c in f.columns) && Distinct(cols)
    ensures r.Success? ==> WellFormed(r.value) && r.value.columns == cols && |r.value.rows| == |f.rows|
  {
    match FirstMissing(cols, f.columns)
    case Some(c) => Failure(ColumnNotFound(c))
    case None =>
      match FirstDuplicate(cols)
      case Some(c) => Failure(DuplicateColumn(c))
      case None => Success(Frame(cols, ProjectRows(f.rows, |f.columns|, Positions(f.columns, cols))))
  }

  /** Row `i` of a selection holds, under every selected name, row `i`'s original cell. */
  lemma {:induction false} SelectGet(f: Frame, cols: seq<Name>, i: nat, c: Name)
    requires WellFormed(f) && Select(f, cols).Success?
    requires i < |f.rows| && c in cols
    ensures |Select(f, cols).value.rows[i]| == |cols|
    ensures Get(cols, Select(f, cols).value.rows[i], c) == Get(f.columns, f.rows[i], c)
  {
    var idx := Positions(f.columns, cols);
    var j := IndexOf(cols, c);
    assert f.rows[i] in f.rows;
    IndexOfDistinct(f.columns, idx[j]);
  }

  /** Every member of a sequence of rows of width `n` has width `n`. */
  lemma {:induction false} MembersWidth(rows: seq<Row>, n: nat)
    requires RowsOfWidth(rows, n)
    ensures forall x {:trigger x in rows} :: x in rows ==> |x| == n
  {
  }

  /** Cell `j` of a selected row is the original cell of the `j`-th selected name. */
  lemma {:induction false} SelectCells(f: Frame, cols: seq<Name>, i: nat)
    requires WellFormed(f) && Select(f, cols).Success? && i < |f.rows|
    ensures |Select(f, cols).value.rows[i]| == |cols|
    ensures forall j :: 0 <= j < |cols| ==>
      Select(f, cols).value.rows[i][j] == f.rows[i][IndexOf(f.columns, cols[j])]
  {
  }

  /** Selecting the columns from position `d` on keeps the cells from position `d` on. */
  lemma {:induction false} SelectSuffix(f: Frame, d: nat)
    requires WellFormed(f) && d <= |f.columns|
    ensures Select(f, f.columns[d..]).Success?
    ensures |Select(f, f.columns[d..]).value.rows| == |f.rows|
    ensures forall i :: 0 <= i < |f.rows| ==> Select(f, f.columns[d..]).value.rows[i] == f.rows[i][d..]
  {
    var cols := f.columns[d..];
    assert Distinct(cols) by {
      forall i, j | 0 <= i < j < |cols| ensures cols[i] != cols[j] {
        assert cols[i] == f.columns[d + i] && cols[j] == f.columns[d + j];
      }
    }
    forall i | 0 <= i < |f.rows| ensures Select(f, cols).value.rows[i] == f.rows[i][d..] {
      SelectCells(f, cols, i);
      SuffixCells(f.columns, f.rows[i], d, Select(f, cols).value.rows[i]);
    }
  }

  /** A row holding the cells of `row` under the names from position `d` on is `row[d..]`. */
  lemma {:induction false} SuffixCells(columns: seq<Name>, row: Row, d: nat, p: Row)
    requires Distinct(columns) && |row| == |columns| && d <= |columns|
    requires |p| == |columns| - d
    requires forall j :: 0 <= j < |p| ==> p[j] == row[IndexOf(columns, columns[d..][j])]
    ensures p == row[d..]
  {
    forall j | 0 <= j < |p| ensures p[j] == row[d..][j] {
      assert columns[d..][j] == columns[d + j];
      IndexOfDistinct(columns, d + j);
    }
  }

  /** `[f.select(cols) for f in fs]`; the first frame that cannot be selected from decides the error. */
  function SelectAll(fs: seq<Frame>, cols: seq<Name>): (r: Result<seq<Frame>, Error>)
    requires forall j :: 0 <= j < |fs| ==> WellFormed(fs[j])
    ensures r.Success? <==> forall j :: 0 <= j < |fs| ==> Select(fs[j], cols).Success?
    ensures r.Success? ==>
      |r.value| == |fs| && forall j :: 0 <= j < |fs| ==> r.value[j] == Select(fs[j], cols).value
  {
    if fs == [] then Success([])
    else
      var head :- Select(fs[0], cols);
      var tail :- SelectAll(fs[1..], cols);
      Success([head] + tail)
  }

  // ---------------------------------------------------------------------
  // concat

  /** The rows of every frame, one frame after another. */
  function AllRows(fs: seq<Frame>): (rows: seq<Row>)
    ensures forall x :: x in rows <==> exists f :: f in fs && x in f.rows
  {
    if fs == [] then []
    else
      assert forall f :: f in fs ==> f == fs[0] || f in fs[1..];
      fs[0].rows + AllRows(fs[1..])
  }

  function TotalRows(fs: seq<Frame>): nat {
    if fs == [] then 0 else |fs[0].rows| + TotalRows(fs[1..])
  }

  lemma {:induction false} AllRowsCount(fs: seq<Frame>)
    ensures |AllRows(fs)| == TotalRows(fs)
  {
    if fs != [] {
      AllRowsCount(fs[1..]);
    }
  }

  /** The rows of all the frames as a bag: each row as often as it occurs in them together. */
  function Bag(fs: seq<Frame>): multiset<Row> {
    if fs == [] then multiset{} else multiset(fs[0].rows) + Bag(fs[1..])
  }

  lemma {:induction false} AllRowsBag(fs: seq<Frame>)
    ensures multiset(AllRows(fs)) == Bag(fs)
  {
    if fs != [] {
      AllRowsBag(fs[1..]);
    }
  }

  /**
   * Vertical concatenation: the frames must share one schema; an empty list
   * of frames cannot be concatenated.
   */
  function Concat(fs: seq<Frame>): (r: Result<Frame, Error>)
    requires forall f :: f in fs ==> WellFormed(f)
    ensures r.Success? <==> |fs| > 0 && forall f :: f in fs ==> f.columns == fs[0].columns
    ensures r.Success? ==> WellFormed(r.value) && r.value.columns == fs[0].columns
    ensures r.Success? ==> forall x :: x in r.value.rows <==> exists f :: f in fs && x in f.rows
    ensures r.Success? ==> multiset(r.value.rows) == Bag(fs)
  {
    if |fs| == 0 then Failure(NothingToConcatenate)
    else if exists f :: f in fs && f.columns != fs[0].columns then Failure(SchemaMismatch)
    else
      assert forall x :: x in AllRows(fs) ==> |x| == |fs[0].columns| by {
        forall x | x in AllRows(fs) ensures |x| == |fs[0].columns| {
          var f :| f in fs && x in f.rows;
          assert WellFormed(f) && f.columns == fs[0].columns;
        }
      }
      assert fs[0] in fs;
      assert WellFormed(fs[0]);
      AllRowsBag(fs);
      Success(Frame(fs[0].columns, AllRows(fs)))
  }

  /** The concatenation has as many rows as all the frames together. */
  lemma {:induction false} ConcatCount(fs: seq<Frame>)
    requires forall f :: f in fs ==> WellFormed(f)
    requires Concat(fs).Success?
    ensures |Concat(fs).value.rows| == TotalRows(fs)
  {
    AllRowsCount(fs);
  }

  // ---------------------------------------------------------------------
  // filter

  /** `col == literal` and `col != literal`. */
  datatype Comparison = Equals(literal: string) | NotEquals(literal: string)

  /**
   * Whether filter keeps a row whose compared cell is `cell`. Comparing null
   * with a literal yields null, and filter drops such a row under either
   * comparison.
   */
  predicate Holds(cmp: Comparison, cell: Cell) {
    match cell
    case None => false
    case Some(v) =>
      match cmp
      case Equals(lit) => v == lit
      case NotEquals(lit) => v != lit
  }

  /** The two comparisons, spelled out. */
  lemma {:induction false} HoldsMeaning(v: string)
    ensures forall cell :: Holds(Equals(v), cell) <==> cell == Some(v)
    ensures forall cell :: Holds(NotEquals(v), cell) <==> cell.Some? && cell.value != v
  {
  }

  function FilterRows(rows: seq<Row>, i: nat, cmp: Comparison): (r: seq<Row>)
    requires forall j :: 0 <= j < |rows| ==> i < |rows[j]|
    ensures forall x {:trigger x in r} :: x in r <==> x in rows && Holds(cmp, x[i])
    ensures |r| <= |rows|
    ensures Distinct(rows) ==> Distinct(r)
  {
    if rows == [] then []
    else
      var rest := FilterRows(rows[1..], i, cmp);
      assert forall x :: x in rows <==> x == rows[0] || x in rows[1..];
      DistinctCons(rows);
      if Holds(cmp, rows[0][i]) then
        DistinctCons([rows[0]] + rest);
        assert ([rows[0]] + rest)[1..] == rest;
        [rows[0]] + rest
      else rest
  }

  /** Filtering keeps every copy of each row it keeps. */
  lemma {:induction false} FilterRowsCopies(rows: seq<Row>, i: nat, cmp: Comparison)
    requires forall j :: 0 <= j < |rows| ==> i < |rows[j]|
    ensures forall x ::
      multiset(FilterRows(rows, i, cmp))[x] == if x in rows && Holds(cmp, x[i]) then multiset(rows)[x] else 0
  {
    if rows != [] {
      var h, t := rows[0], rows[1..];
      FilterRowsCopies(t, i, cmp);
      assert rows == [h] + t;
      assert FilterRows(rows, i, cmp) == if Holds(cmp, h[i]) then [h] + FilterRows(t, i, cmp) else FilterRows(t, i, cmp);
      forall x ensures multiset(FilterRows(rows, i, cmp))[x] ==
        (if x in rows && Holds(cmp, x[i]) then multiset(rows)[x] else 0)
      {
        if x != h {
          assert x in rows <==> x in t;
        }
      }
    }
  }

  /** The cells of column position `i`, row by row. */
  function CellsAt(rows: seq<Row>, i: nat): (cells: seq<Cell>)
    requires forall j :: 0 <= j < |rows| ==> i < |rows[j]|
    ensures |cells| == |rows|
  {
    if rows == [] then [] else [rows[0][i]] + CellsAt(rows[1..], i)
  }

  /**
   * Filtering on `== v` and on `!= v` splits the rows with a non-null cell:
   * together with the null rows they account for every row, once.
   */
  lemma {:induction false} FilterSplitCount(rows: seq<Row>, i: nat, v: string)
    requires forall j :: 0 <= j < |rows| ==> i < |rows[j]|
    ensures |FilterRows(rows, i, Equals(v))| == multiset(CellsAt(rows, i))[Some(v)]
    ensures |FilterRows(rows, i, Equals(v))| + |FilterRows(rows, i, NotEquals(v))|
      + multiset(CellsAt(rows, i))[None] == |rows|
  {
    if rows != [] {
      var h, t := rows[0], rows[1..];
      HoldsMeaning(v);
      assert forall x :: x in t ==> x in rows;
      FilterSplitCount(t, i, v);
      var eq, ne := FilterRows(t, i, Equals(v)), FilterRows(t, i, NotEquals(v));
      assert FilterRows(rows, i, Equals(v)) == if h[i] == Some(v) then [h] + eq else eq;
      assert FilterRows(rows, i, NotEquals(v)) == if h[i].Some? && h[i] != Some(v) then [h] + ne else ne;
      assert CellsAt(rows, i) == [h[i]] + CellsAt(t, i);
      assert multiset(CellsAt(rows, i)) == multiset([h[i]]) + multiset(CellsAt(t, i));
    }
  }

  /** `filter(pl.col(c) == lit)` / `filter(pl.col(c) != lit)`. */
  function Filter(f: Frame, c: Name, cmp: Comparison): (r: Result<Frame, Error>)
    requires WellFormed(f)
    ensures r.Success? <==> c in f.columns
    ensures r.Success? ==> WellFormed(r.value) && r.value.columns == f.columns
    ensures r.Success? ==> forall x :: x in r.value.rows <==> x in f.rows && Holds(cmp, Get(f.columns, x, c))
    ensures r.Success? ==> forall x ::
      multiset(r.value.rows)[x] == if x in f.rows && Holds(cmp, Get(f.columns, x, c)) then multiset(f.rows)[x] else 0
    ensures r.Success? ==> |r.value.rows| <= |f.rows|
  {
    if c !in f.columns then Failure(ColumnNotFound(c))
    else
      var rows := FilterRows(f.rows, IndexOf(f.columns, c), cmp);
      RowsOfWidthSub(rows, f.rows, |f.columns|);
      FilterRowsCopies(f.rows, IndexOf(f.columns, c), cmp);
      Success(Frame(f.columns, rows))
  }

  // ---------------------------------------------------------------------
  // drop

  /** `cols` without the names in `dropped`, order kept. */
  function Without(cols: seq<Name>, dropped: seq<Name>): (r: seq<Name>)
    ensures forall c :: c in r <==> c in cols && c !in dropped
    ensures Distinct(cols) ==> Distinct(r)
  {
    if cols == [] then []
    else
      var rest := Without(cols[1..], dropped);
      assert forall c :: c in cols <==> c == cols[0] || c in cols[1..];
      DistinctCons(cols);
      if cols[0] in dropped then rest
      else
        DistinctCons([cols[0]] + rest);
        assert ([cols[0]] + rest)[1..] == rest;
        [cols[0]] + rest
  }

  /** Dropping none of the columns keeps them all, in order. */
  lemma {:induction false} WithoutNone(cols: seq<Name>, dropped: seq<Name>)
    requires forall j :: 0 <= j < |cols| ==> cols[j] !in dropped
    ensures Without(cols, dropped) == cols
  {
    if cols != [] {
      WithoutNone(cols[1..], dropped);
    }
  }

  /** Filtering on the column at position `i` compares the `i`-th cell of each row. */
  lemma {:induction false} FilterAt(f: Frame, c: Name, cmp: Comparison, i: nat)
    requires WellFormed(f) && i < |f.columns| && f.columns[i] == c
    ensures Filter(f, c, cmp).Success?
    ensures forall x :: x in Filter(f, c, cmp).value.rows <==> x in f.rows && Holds(cmp, x[i])
    ensures forall x ::
      multiset(Filter(f, c, cmp).value.rows)[x] == if x in f.rows && Holds(cmp, x[i]) then multiset(f.rows)[x] else 0
  {
    IndexOfDistinct(f.columns, i);
  }

  /**
   * Filtering one column on `== v` keeps as many rows as that column holds
   * `v`; together with the rows `!= v` and the null rows it accounts for
   * every row.
   */
  lemma {:induction false} FilterPartition(f: Frame, c: Name, v: string)
    requires WellFormed(f) && c in f.columns
    ensures var i := IndexOf(f.columns, c);
      |Filter(f, c, Equals(v)).value.rows| == multiset(CellsAt(f.rows, i))[Some(v)] &&
      |Filter(f, c, Equals(v)).value.rows| + |Filter(f, c, NotEquals(v)).value.rows|
        + multiset(CellsAt(f.rows, i))[None] == |f.rows|
  {
    FilterSplitCount(f.rows, IndexOf(f.columns, c), v);
  }

  /** `drop(cols)`: every other column, order kept; dropping an absent column fails. */
  function Drop(f: Frame, cols: seq<Name>): (r: Result<Frame, Error>)
    requires WellFormed(f)
    ensures r.Success? <==> forall c :: c in cols ==> c in f.columns
    ensures r.Success? ==> WellFormed(r.value) && |r.value.rows| == |f.rows|
    ensures r.Success? ==> forall c :: c in r.value.columns <==> c in f.columns && c !in cols
  {
    match FirstMissing(cols, f.columns)
    case Some(c) => Failure(ColumnNotFound(c))
    case None => Select(f, Without(f.columns, cols))
  }

  /** The kept columns hold the original cells, row by row. */
  lemma {:induction false} DropGet(f: Frame, cols: seq<Name>, i: nat, c: Name)
    requires WellFormed(f) && Drop(f, cols).Success?
    requires i < |f.rows| && c in f.columns && c !in cols
    ensures Drop(f, cols).value.columns == Without(f.columns, cols)
    ensures |Drop(f, cols).value.rows[i]| == |Drop(f, cols).value.columns|
    ensures Get(Drop(f, cols).value.columns, Drop(f, cols).value.rows[i], c) == Get(f.columns, f.rows[i], c)
  {
    SelectGet(f, Without(f.columns, cols), i, c);
  }

  // ---------------------------------------------------------------------
  // unique

  /**
   * The distinct elements of `s`. The engine does not promise an order for
   * `unique()`; this keeps first occurrences, and everything stated about it
   * elsewhere holds of any order (see `DistinctSameElements`).
   */
  function Dedup(s: seq<Row>): (r: seq<Row>)
    ensures Distinct(r)
    ensures forall x :: x in r <==> x in s
    ensures |r| <= |s|
    ensures r == s <==> Distinct(s)
    ensures |r| == |s| ==> r == s
  {
    if s == [] then []
    else
      var init := s[..|s| - 1];
      var last := s[|s| - 1];
      var d := Dedup(init);
      assert s == init + [last];
      assert forall j :: 0 <= j < |init| ==> init[j] == s[j];
      if last in d then d
      else
        assert Distinct(d + [last]) by {
          forall i, j | 0 <= i < j < |d + [last]| ensures (d + [last])[i] != (d + [last])[j] {
            if j == |d| {
              assert (d + [last])[i] == d[i];
            } else {
              assert (d + [last])[i] == d[i] && (d + [last])[j] == d[j];
            }
          }
        }
        d + [last]
  }

  lemma {:induction false} DistinctCount<T>(s: seq<T>, x: T)
    requires Distinct(s)
    ensures multiset(s)[x] == if x in s then 1 else 0
  {
    if s != [] {
      DistinctCons(s);
      DistinctCount(s[1..], x);
      assert s == [s[0]] + s[1..];
    }
  }

  /**
   * Any two duplicate-free sequences with the same elements are permutations
   * of each other: the order `Dedup` picks does not matter.
   */
  lemma {:induction false} DistinctSameElements(a: seq<Row>, b: seq<Row>)
    requires Distinct(a) && Distinct(b)
    requires forall x :: x in a <==> x in b
    ensures multiset(a) == multiset(b)
  {
    forall x ensures multiset(a)[x] == multiset(b)[x] {
      DistinctCount(a, x);
      DistinctCount(b, x);
    }
  }

  /** A duplicate-free sequence is as long as its set of elements is large. */
  lemma {:induction false} DistinctCardinality<T>(s: seq<T>)
    requires Distinct(s)
    ensures |set x | x in s| == |s|
  {
    if s != [] {
      DistinctCons(s);
      DistinctCardinality(s[1..]);
      assert (set x | x in s) == {s[0]} + (set x | x in s[1..]);
    }
  }

  /** `unique()`: the distinct rows, columns unchanged. */
  function Unique(f: Frame): (r: Frame)
    requires WellFormed(f)
    ensures WellFormed(r) && r.columns == f.columns
    ensures Distinct(r.rows)
    ensures forall x :: x in r.rows <==> x in f.rows
    ensures |r.rows| == |set x | x in f.rows| <= |f.rows|
    ensures |r.rows| == |f.rows| <==> Distinct(f.rows)
  {
    var rows := Dedup(f.rows);
    RowsOfWidthSub(rows, f.rows, |f.columns|);
    DistinctCardinality(rows);
    assert (set x | x in rows) == (set x | x in f.rows);
    Frame(f.columns, rows)
  }

  // ---------------------------------------------------------------------
  // left join

  function Nulls(w: nat): (r: Row)
    ensures |r| == w && forall j :: 0 <= j < w ==> r[j] == None
  {
    seq(w, _ => None)
  }

  /** `y` without its cell at position `k`. */
  function DropAt<T>(y: seq<T>, k: nat): (r: seq<T>)
    requires k < |y|
    ensures |r| == |y| - 1
  {
    y[..k] + y[k + 1..]
  }

  lemma {:induction false} DropAtInjective(y1: Row, y2: Row, k: nat)
    requires k < |y1| == |y2| && y1[k] == y2[k]
    requires DropAt(y1, k) == DropAt(y2, k)
    ensures y1 == y2
  {
    forall j | 0 <= j < |y1| ensures y1[j] == y2[j] {
      if j < k {
        assert y1[j] == DropAt(y1, k)[j];
        assert y2[j] == DropAt(y2, k)[j];
      } else if j > k {
        assert y1[j] == DropAt(y1, k)[j - 1];
        assert y2[j] == DropAt(y2, k)[j - 1];
      }
    }
  }

  /** How many rows of `rs` have the non-null key `key` at position `k`; a null key matches nothing. */
  function MatchCount(key: Cell, rs: seq<Row>, k: nat): nat
    requires forall j :: 0 <= j < |rs| ==> k < |rs[j]|
  {
    if key.None? then 0 else multiset(CellsAt(rs, k))[key]
  }

  function MatchRows(key: Cell, rs: seq<Row>, k: nat): (m: seq<Row>)
    requires forall j :: 0 <= j < |rs| ==> k < |rs[j]|
    ensures forall y {:trigger y in m} :: y in m <==> y in rs && key.Some? && y[k] == key
    ensures |m| == MatchCount(key, rs, k)
    ensures Distinct(rs) ==> Distinct(m)
  {
    if key.None? then []
    else
      HoldsMeaning(key.value);
      FilterSplitCount(rs, k, key.value);
      FilterRows(rs, k, Equals(key.value))
  }

  /**
   * A key matches nothing exactly when no right row holds it; over distinct
   * right rows, the number of matches is the number of distinct matching rows.
   */
  lemma {:induction false} MatchCountMeaning(key: Cell, rs: seq<Row>, k: nat)
    requires forall j :: 0 <= j < |rs| ==> k < |rs[j]|
    ensures MatchCount(key, rs, k) == 0 <==> !exists y :: y in rs && key.Some? && y[k] == key
    ensures Distinct(rs) ==> MatchCount(key, rs, k) == |set y | y in rs && key.Some? && y[k] == key|
  {
    var m := MatchRows(key, rs, k);
    if exists y :: y in rs && key.Some? && y[k] == key {
      var y :| y in rs && key.Some? && y[k] == key;
      assert y in m;
    }
    if m != [] {
      assert m[0] in m;
    }
    if Distinct(rs) {
      DistinctCardinality(m);
      assert (set y | y in m) == (set y | y in rs && key.Some? && y[k] == key);
    }
  }

  /** `l` followed by each of `ms` without its key cell. */
  function Extend(l: Row, ms: seq<Row>, k: nat): (r: seq<Row>)
    requires forall j :: 0 <= j < |ms| ==> k < |ms[j]|
    ensures |r| == |ms|
    ensures forall j :: 0 <= j < |ms| ==> r[j] == l + DropAt(ms[j], k)
  {
    seq(|ms|, j requires 0 <= j < |ms| => l + DropAt(ms[j], k))
  }

  /**
   * The output rows for left row `l` whose key sits at position `li`,
   * against right rows `rs` (width w + 1) keyed at position `k`.
   */
  function JoinRow(l: Row, li: nat, rs: seq<Row>, k: nat, w: nat): (out: seq<Row>)
    requires li < |l| && k <= w && RowsOfWidth(rs, w + 1)
    ensures |out| == FanOut(MatchCount(l[li], rs, k))
    ensures forall j :: 0 <= j < |out| ==> |out[j]| == |l| + w && l <= out[j]
    ensures MatchCount(l[li], rs, k) == 0 ==> out == [l + Nulls(w)]
  {
    var m := MatchRows(l[li], rs, k);
    SubRows(m, rs);
    if m == [] then [l + Nulls(w)] else Extend(l, m, k)
  }

  /** With matches, each output row pairs `l` with one matching right row, and every match is paired. */
  lemma {:induction false} JoinRowMatches(l: Row, li: nat, rs: seq<Row>, k: nat, w: nat)
    requires li < |l| && k <= w && RowsOfWidth(rs, w + 1)
    ensures forall x :: x in JoinRow(l, li, rs, k, w) && MatchCount(l[li], rs, k) > 0 ==>
      exists y :: y in rs && y[k] == l[li] && x == l + DropAt(y, k)
    ensures forall y :: y in rs && l[li].Some? && y[k] == l[li] ==> l + DropAt(y, k) in JoinRow(l, li, rs, k, w)
  {
    var m := MatchRows(l[li], rs, k);
    SubRows(m, rs);
    forall y | y in rs && l[li].Some? && y[k] == l[li] ensures l + DropAt(y, k) in JoinRow(l, li, rs, k, w) {
      assert y in m;
      assert Extend(l, m, k)[IndexIn(m, y)] == l + DropAt(y, k);
    }
    if m != [] {
      var out := Extend(l, m, k);
      forall x | x in out ensures exists y :: y in m && x == l + DropAt(y, k) {
        var j :| 0 <= j < |out| && out[j] == x;
        assert m[j] in m;
      }
    }
  }

  function IndexIn<T(==)>(s: seq<T>, y: T): (i: nat)
    requires y in s
    ensures i < |s| && s[i] == y
  {
    if s[0] == y then 0 else 1 + IndexIn(s[1..], y)
  }

  lemma {:induction false} JoinRowDistinct(l: Row, li: nat, rs: seq<Row>, k: nat, w: nat)
    requires li < |l| && k <= w && RowsOfWidth(rs, w + 1)
    requires Distinct(rs)
    ensures Distinct(JoinRow(l, li, rs, k, w))
  {
    var m := MatchRows(l[li], rs, k);
    SubRows(m, rs);
    if m != [] {
      var out := Extend(l, m, k);
      forall i, j | 0 <= i < j < |out| ensures out[i] != out[j] {
        assert m[i] in m && m[j] in m;
        if out[i] == out[j] {
          assert DropAt(m[i], k) == out[i][|l|..];
          assert DropAt(m[j], k) == out[j][|l|..];
          DropAtInjective(m[i], m[j], k);
        }
      }
    }
  }

  function JoinRows(ls: seq<Row>, li: nat, rs: seq<Row>, k: nat, w: nat): (out: seq<Row>)
    requires (forall j :: 0 <= j < |ls| ==> li < |ls[j]|) && k <= w && RowsOfWidth(rs, w + 1)
  {
    if ls == [] then []
    else
      assert forall l :: l in ls ==> l in ls[1..] || l == ls[0];
      JoinRow(ls[0], li, rs, k, w) + JoinRows(ls[1..], li, rs, k, w)
  }

  lemma {:induction false} JoinRowsWidth(ls: seq<Row>, n: nat, li: nat, rs: seq<Row>, k: nat, w: nat)
    requires RowsOfWidth(ls, n) && li < n && k <= w && RowsOfWidth(rs, w + 1)
    ensures RowsOfWidth(JoinRows(ls, li, rs, k, w), n + w)
  {
    if ls != [] {
      assert ls[0] in ls && forall l :: l in ls[1..] ==> l in ls;
      JoinRowsWidth(ls[1..], n, li, rs, k, w);
    }
  }

  /** The output rows are exactly the rows the left rows contribute. */
  lemma {:induction false} JoinRowsMembers(ls: seq<Row>, li: nat, rs: seq<Row>, k: nat, w: nat, x: Row)
    requires (forall j :: 0 <= j < |ls| ==> li < |ls[j]|) && k <= w && RowsOfWidth(rs, w + 1)
    ensures x in JoinRows(ls, li, rs, k, w) <==> exists l :: l in ls && x in JoinRow(l, li, rs, k, w)
  {
    if ls != [] {
      assert forall l :: l in ls <==> l in ls[1..] || l == ls[0];
      JoinRowsMembers(ls[1..], li, rs, k, w, x);
    }
  }

  /** A right-hand column name clashing with a left-hand one gets the suffix `_right`. */
  function RightNames(names: seq<Name>, taken: seq<Name>): (r: seq<Name>)
    ensures |r| == |names|
    ensures forall j :: 0 <= j < |names| ==> r[j] == if names[j] in taken then Suffixed(names[j]) else names[j]
  {
    seq(|names|, j requires 0 <= j < |names| => if names[j] in taken then Suffixed(names[j]) else names[j])
  }

  /** The left columns, then the right non-key columns (suffixed where they clash). */
  function JoinColumns(lc: seq<Name>, rc: seq<Name>, on: Name): (cols: seq<Name>)
    requires on in rc
    ensures |cols| == |lc| + |rc| - 1 && cols[..|lc|] == lc
  {
    lc + RightNames(DropAt(rc, IndexOf(rc, on)), lc)
  }

  /**
   * `left.join(right, on=..., how="left")`: every left row is kept, followed
   * by the non-key cells of every right row with the same non-null key, or
   * by nulls when there is none. The key column appears once, from the left.
   */
  function LeftJoin(left: Frame, right: Frame, on: Name): (r: Result<Frame, Error>)
    requires WellFormed(left) && WellFormed(right)
    ensures r.Success? <==>
      (on in left.columns && on in right.columns && Distinct(JoinColumns(left.columns, right.columns, on)))
    ensures r.Success? ==> WellFormed(r.value) && r.value.columns == JoinColumns(left.columns, right.columns, on)
    ensures r.Success? ==> r.value.rows == JoinRows(left.rows, IndexOf(left.columns, on), right.rows,
                                                    IndexOf(right.columns, on), |right.columns| - 1)
  {
    if on !in left.columns then Failure(ColumnNotFound(on))
    else if on !in right.columns then Failure(ColumnNotFound(on))
    else
      var cols := JoinColumns(left.columns, right.columns, on);
      match FirstDuplicate(cols)
      case Some(c) => Failure(DuplicateColumn(c))
      case None =>
        var li, k, w := IndexOf(left.columns, on), IndexOf(right.columns, on), |right.columns| - 1;
        var rows := JoinRows(left.rows, li, right.rows, k, w);
        JoinRowsWidth(left.rows, |left.columns|, li, right.rows, k, w);
        assert RowsOfWidth(rows, |cols|);
        Success(Frame(cols, rows))
  }

  /** How many rows of `s` start with `p`. */
  function CountWithPrefix(s: seq<Row>, p: Row): nat {
    if s == [] then 0 else (if p <= s[0] then 1 else 0) + CountWithPrefix(s[1..], p)
  }

  lemma {:induction false} CountWithPrefixAppend(a: seq<Row>, b: seq<Row>, p: Row)
    ensures CountWithPrefix(a + b, p) == CountWithPrefix(a, p) + CountWithPrefix(b, p)
  {
    if a != [] {
      assert (a + b)[0] == a[0] && (a + b)[1..] == a[1..] + b;
      CountWithPrefixAppend(a[1..], b, p);
    } else {
      assert a + b == b;
    }
  }

  lemma {:induction false} CountWithPrefixAll(s: seq<Row>, p: Row)
    requires forall x :: x in s ==> p <= x
    ensures CountWithPrefix(s, p) == |s|
  {
    if s != [] {
      assert s[0] in s;
      assert forall x :: x in s[1..] ==> x in s;
      CountWithPrefixAll(s[1..], p);
    }
  }

  lemma {:induction false} CountWithPrefixNone(s: seq<Row>, p: Row)
    requires forall x :: x in s ==> !(p <= x)
    ensures CountWithPrefix(s, p) == 0
  {
    if s != [] {
      assert s[0] in s;
      assert forall x :: x in s[1..] ==> x in s;
      CountWithPrefixNone(s[1..], p);
    }
  }

  lemma {:induction false} PrefixesOfSameLength(p: Row, q: Row, x: Row)
    requires |p| == |q| && p <= x && q <= x
    ensures p == q
  {
    assert p == x[..|p|] && q == x[..|q|];
  }

  /** The output rows of left row `l'` that start with a row `l` of the same width. */
  lemma {:induction false} JoinRowPrefixCount(l': Row, li: nat, rs: seq<Row>, k: nat, w: nat, l: Row)
    requires |l'| == |l| && li < |l| && k <= w && RowsOfWidth(rs, w + 1)
    ensures CountWithPrefix(JoinRow(l', li, rs, k, w), l)
      == if l' != l then 0 else FanOut(MatchCount(l[li], rs, k))
  {
    var a := JoinRow(l', li, rs, k, w);
    if l' == l {
      CountWithPrefixAll(a, l);
    } else {
      forall x | x in a ensures !(l <= x) {
        if l <= x {
          PrefixesOfSameLength(l, l', x);
        }
      }
      CountWithPrefixNone(a, l);
    }
  }

  /** max(m, 1): how many output rows a left row with m matches produces. */
  function FanOut(m: nat): nat {
    if m == 0 then 1 else m
  }

  /**
   * Fan-out on rows: a left row `l` that occurs `n` times on the left and
   * whose key matches `m` right rows starts exactly n * max(m, 1) output rows.
   */
  lemma {:induction false} JoinRowsFanOut(ls: seq<Row>, li: nat, rs: seq<Row>, k: nat, w: nat, l: Row)
    requires RowsOfWidth(ls, |l|) && li < |l| && k <= w && RowsOfWidth(rs, w + 1)
    ensures CountWithPrefix(JoinRows(ls, li, rs, k, w), l) == multiset(ls)[l] * FanOut(MatchCount(l[li], rs, k))
  {
    if ls != [] {
      var m := FanOut(MatchCount(l[li], rs, k));
      var n := multiset(ls[1..])[l];
      JoinRowsHead(ls, li, rs, k, w, l);
      JoinRowsFanOut(ls[1..], li, rs, k, w, l);
      MulSucc(n, m);
    }
  }

  /** One step of the fan-out count: the first left row's contribution, then the rest. */
  lemma {:induction false} JoinRowsHead(ls: seq<Row>, li: nat, rs: seq<Row>, k: nat, w: nat, l: Row)
    requires ls != [] && RowsOfWidth(ls, |l|) && li < |l| && k <= w && RowsOfWidth(rs, w + 1)
    ensures RowsOfWidth(ls[1..], |l|)
    ensures multiset(ls)[l] == (if ls[0] == l then 1 else 0) + multiset(ls[1..])[l]
    ensures CountWithPrefix(JoinRows(ls, li, rs, k, w), l)
      == (if ls[0] == l then FanOut(MatchCount(l[li], rs, k)) else 0) + CountWithPrefix(JoinRows(ls[1..], li, rs, k, w), l)
  {
    assert forall x :: x in ls[1..] ==> x in ls;
    assert ls[0] in ls;
    JoinRowPrefixCount(ls[0], li, rs, k, w, l);
    CountWithPrefixAppend(JoinRow(ls[0], li, rs, k, w), JoinRows(ls[1..], li, rs, k, w), l);
    MultisetCons(ls, l);
  }

  lemma {:induction false} MultisetCons(s: seq<Row>, x: Row)
    requires s != []
    ensures multiset(s)[x] == (if s[0] == x then 1 else 0) + multiset(s[1..])[x]
  {
    assert s == [s[0]] + s[1..];
  }

  lemma {:induction false} MulSucc(n: nat, m: nat)
    ensures (n + 1) * m == m + n * m
  {
  }

  lemma {:induction false} DistinctAppend<T>(a: seq<T>, b: seq<T>)
    requires Distinct(a) && Distinct(b)
    requires forall x :: x in a ==> x !in b
    ensures Distinct(a + b)
  {
    forall i, j | 0 <= i < j < |a + b| ensures (a + b)[i] != (a + b)[j] {
      if j < |a| {
        assert (a + b)[i] == a[i] && (a + b)[j] == a[j];
      } else if i >= |a| {
        assert (a + b)[i] == b[i - |a|] && (a + b)[j] == b[j - |a|];
      } else {
        assert (a + b)[i] == a[i] && (a + b)[j] == b[j - |a|];
        assert a[i] in a && b[j - |a|] in b;
      }
    }
  }

  /** Distinct left rows and distinct right rows give distinct output rows. */
  lemma {:induction false} JoinRowsDistinct(ls: seq<Row>, n: nat, li: nat, rs: seq<Row>, k: nat, w: nat)
    requires RowsOfWidth(ls, n) && li < n && k <= w && RowsOfWidth(rs, w + 1)
    requires Distinct(ls) && Distinct(rs)
    ensures Distinct(JoinRows(ls, li, rs, k, w))
  {
    if ls != [] {
      var a := JoinRow(ls[0], li, rs, k, w);
      var b := JoinRows(ls[1..], li, rs, k, w);
      assert forall x :: x in ls[1..] ==> x in ls;
      assert ls[0] in ls;
      DistinctCons(ls);
      JoinRowDistinct(ls[0], li, rs, k, w);
      JoinRowsDistinct(ls[1..], n, li, rs, k, w);
      forall x | x in a ensures x !in b {
        JoinRowsMembers(ls[1..], li, rs, k, w, x);
        if x in b {
          var l' :| l' in ls[1..] && x in JoinRow(l', li, rs, k, w);
          PrefixesOfSameLength(ls[0], l', x);
        }
      }
      DistinctAppend(a, b);
    }
  }

  /** Left-join fan-out on frames, keyed by name. */
  lemma {:induction false} LeftJoinFanOut(left: Frame, right: Frame, on: Name, l: Row)
    requires WellFormed(left) && WellFormed(right) && LeftJoin(left, right, on).Success?
    requires |l| == |left.columns|
    ensures CountWithPrefix(LeftJoin(left, right, on).value.rows, l)
      == multiset(left.rows)[l] * FanOut(MatchCount(Get(left.columns, l, on), right.rows, IndexOf(right.columns, on)))
  {
    JoinRowsFanOut(left.rows, IndexOf(left.columns, on), right.rows, IndexOf(right.columns, on), |right.columns| - 1, l);
  }

  /** The join of duplicate-free frames is duplicate-free. */
  lemma {:induction false} LeftJoinDistinct(left: Frame, right: Frame, on: Name)
    requires WellFormed(left) && WellFormed(right) && LeftJoin(left, right, on).Success?
    requires Distinct(left.rows) && Distinct(right.rows)
    ensures Distinct(LeftJoin(left, right, on).value.rows)
  {
    JoinRowsDistinct(left.rows, |left.columns|, IndexOf(left.columns, on), right.rows,
                     IndexOf(right.columns, on), |right.columns| - 1);
  }

  /**
   * What each output row holds: a left row followed either by the non-key
   * cells of a right row with the same non-null key, or by nulls when that
   * key matches nothing.
   */
  lemma {:induction false} LeftJoinRowShape(left: Frame, right: Frame, on: Name, x: Row)
    requires WellFormed(left) && WellFormed(right) && LeftJoin(left, right, on).Success?
    requires x in LeftJoin(left, right, on).value.rows
    ensures var li, k := IndexOf(left.columns, on), IndexOf(right.columns, on);
      exists l :: l in left.rows && l <= x && (if MatchCount(l[li], right.rows, k) == 0 then x == l + Nulls(|right.columns| - 1)
        else exists y :: y in right.rows && y[k] == l[li] && x == l + DropAt(y, k))
  {
    JoinRowsShape(left.rows, IndexOf(left.columns, on), right.rows, IndexOf(right.columns, on), |right.columns| - 1, x);
  }

  /** Every left row paired with every right row of the same non-null key appears in the output. */
  lemma {:induction false} LeftJoinPairs(left: Frame, right: Frame, on: Name, l: Row, y: Row)
    requires WellFormed(left) && WellFormed(right) && LeftJoin(left, right, on).Success?
    requires l in left.rows && y in right.rows
    requires Get(left.columns, l, on).Some? && Get(right.columns, y, on) == Get(left.columns, l, on)
    ensures l + DropAt(y, IndexOf(right.columns, on)) in LeftJoin(left, right, on).value.rows
  {
    var li, k, w := IndexOf(left.columns, on), IndexOf(right.columns, on), |right.columns| - 1;
    JoinRowMatches(l, li, right.rows, k, w);
    JoinRowsMembers(left.rows, li, right.rows, k, w, l + DropAt(y, k));
  }

  lemma {:induction false} JoinRowsShape(ls: seq<Row>, li: nat, rs: seq<Row>, k: nat, w: nat, x: Row)
    requires (forall j :: 0 <= j < |ls| ==> li < |ls[j]|) && k <= w && RowsOfWidth(rs, w + 1)
    requires x in JoinRows(ls, li, rs, k, w)
    ensures exists l :: l in ls && l <= x && (if MatchCount(l[li], rs, k) == 0 then x == l + Nulls(w)
      else exists y :: y in rs && y[k] == l[li] && x == l + DropAt(y, k))
  {
    JoinRowsMembers(ls, li, rs, k, w, x);
    var l :| l in ls && x in JoinRow(l, li, rs, k, w);
    JoinRowShape(l, li, rs, k, w, x);
  }

  lemma {:induction false} JoinRowShape(l: Row, li: nat, rs: seq<Row>, k: nat, w: nat, x: Row)
    requires li < |l| && k <= w && RowsOfWidth(rs, w + 1)
    requires x in JoinRow(l, li, rs, k, w)
    ensures l <= x
    ensures if MatchCount(l[li], rs, k) == 0 then x == l + Nulls(w)
      else exists y :: y in rs && y[k] == l[li] && x == l + DropAt(y, k)
  {
    JoinRowMatches(l, li, rs, k, w);
  }

  // ---------------------------------------------------------------------
  // rename

  /** The new name of `c` under the mapping (first matching pair), or `c` itself. */
  function NewName(mapping: seq<(Name, Name)>, c: Name): (n: Name)
    ensures (forall p :: p in mapping ==> p.0 != c) ==> n == c
    ensures (exists p :: p in mapping && p.0 == c) ==> (c, n) in mapping
  {
    if mapping == [] then c
    else if mapping[0].0 == c then mapping[0].1
    else NewName(mapping[1..], c)
  }

  function RenamedColumns(cols: seq<Name>, mapping: seq<(Name, Name)>): (r: seq<Name>)
    ensures |r| == |cols|
    ensures forall j :: 0 <= j < |cols| ==> r[j] == NewName(mapping, cols[j])
  {
    seq(|cols|, j requires 0 <= j < |cols| => NewName(mapping, cols[j]))
  }

  function Keys(mapping: seq<(Name, Name)>): (ks: seq<Name>)
    ensures forall c :: c in ks <==> exists p :: p in mapping && p.0 == c
  {
    if mapping == [] then []
    else
      assert forall p :: p in mapping <==> p == mapping[0] || p in mapping[1..];
      [mapping[0].0] + Keys(mapping[1..])
  }

  /**
   * `rename(mapping)`: every mapped column takes its new name in place; the
   * rows are untouched. Every old name must exist, and the new names must
   * not collide.
   */
  function Rename(f: Frame, mapping: seq<(Name, Name)>): (r: Result<Frame, Error>)
    requires WellFormed(f)
    ensures r.Success? <==>
      ((forall p :: p in mapping ==> p.0 in f.columns) && Distinct(RenamedColumns(f.columns, mapping)))
    ensures r.Success? ==>
      (WellFormed(r.value) && r.value.rows == f.rows && r.value.columns == RenamedColumns(f.columns, mapping))
  {
    match FirstMissing(Keys(mapping), f.columns)
    case Some(c) => Failure(ColumnNotFound(c))
    case None =>
      var cols := RenamedColumns(f.columns, mapping);
      match FirstDuplicate(cols)
      case Some(c) => Failure(DuplicateColumn(c))
      case None => Success(Frame(cols, f.rows))
  }

  /** Under its new name, every column holds what it held before. */
  lemma {:induction false} RenameGet(f: Frame, mapping: seq<(Name, Name)>, x: Row, c: Name)
    requires WellFormed(f) && Rename(f, mapping).Success?
    requires c in f.columns && |x| == |f.columns|
    ensures NewName(mapping, c) in Rename(f, mapping).value.columns
    ensures Get(Rename(f, mapping).value.columns, x, NewName(mapping, c)) == Get(f.columns, x, c)
  {
    var cols := Rename(f, mapping).value.columns;
    var j := IndexOf(f.columns, c);
    assert cols[j] == NewName(mapping, c);
    IndexOfDistinct(cols, j);
  }
}
