/** An in-memory table in the shape a pandas DataFrame has for the cleaners:
    an ordered header of distinct column names, and an ordered sequence of rows,
    each row a map from column name to cell.  The operations the cleaners apply
    (`dropna`, `drop_duplicates`, `drop(col, axis=1)`, a boolean-mask filter,
    `.loc[mask, col] = value`, a column overwrite, `df[cols]` and `rename`) are
    methods that build the new table row by row, each proved against a
    specification function or a per-row equation. */
module Frames {
  import opened Calendar
  import opened Wrappers
  import Strings

  /** A cell: missing (NaN/None), text, an integer or a calendar date. */
  datatype Cell = Null | Text(text: string) | Int(n: int) | Day(date: Date)

  type Row = map<string, Cell>

  datatype Frame = Frame(columns: seq<string>, rows: seq<Row>)

  /** The cell of r in column col; missing when r has no such column. */
  function Get(r: Row, col: string): Cell {
    if col in r then r[col] else Null
  }

  function ColumnSet(cols: seq<string>): set<string> {
    set c | c in cols
  }

  predicate Distinct<T(==)>(s: seq<T>) {
    forall i, j :: 0 <= i < j < |s| ==> s[i] != s[j]
  }

  /** Column names are distinct and every row has exactly the header's columns. */
  predicate WellFormed(f: Frame) {
    Distinct(f.columns) &&
    forall i :: 0 <= i < |f.rows| ==> f.rows[i].Keys == ColumnSet(f.columns)
  }

  /** The row tests behind the cleaners' boolean masks. */
  datatype RowTest =
    | NoMissing                                  // the rows `dropna()` keeps
    | Equals(col: string, value: Cell)           // df[col] == value
    | IsIn(col: string, values: seq<Cell>)       // df[col].isin(values)
    | Either(left: RowTest, right: RowTest)      // mask | mask
    | ContainsExpiry(col: string)                // df[col].str.contains(r"\d{2}/\d{2}")

  predicate Holds(t: RowTest, r: Row) {
    match t
    case NoMissing => forall k :: k in r ==> !r[k].Null?
    case Equals(c, v) => !v.Null? && Get(r, c) == v
    case IsIn(c, vs) => Get(r, c) in vs
    case Either(a, b) => Holds(a, r) || Holds(b, r)
    case ContainsExpiry(c) =>
      Get(r, c).Text? && Strings.ContainsExpiryPattern(Get(r, c).text)
  }

  // ---------------------------------------------------------------------------
  // Order-preserving selection of rows

  /** The rows of s that pass t, in their original order. */
  function Filter(s: seq<Row>, t: RowTest): (kept: seq<Row>)
    ensures |kept| <= |s|
    ensures forall k :: 0 <= k < |kept| ==> Holds(t, kept[k])
    decreases |s|
  {
    if s == [] then []
    else Filter(s[..|s| - 1], t) + (if Holds(t, s[|s| - 1]) then [s[|s| - 1]] else [])
  }

  /** a can be obtained from b by deleting elements. */
  predicate IsSubsequence<T(==)>(a: seq<T>, b: seq<T>)
    decreases |b|
  {
    |a| == 0 ||
    (|b| > 0 &&
     ((a[|a| - 1] == b[|b| - 1] && IsSubsequence(a[..|a| - 1], b[..|b| - 1])) ||
      IsSubsequence(a, b[..|b| - 1])))
  }

  lemma {:induction false} SubsequenceTransitive<T>(a: seq<T>, b: seq<T>, c: seq<T>)
    requires IsSubsequence(a, b) && IsSubsequence(b, c)
    ensures IsSubsequence(a, c)
    decreases |c|
  {
    if |a| > 0 {
      if |b| > 0 && b[|b| - 1] == c[|c| - 1] && IsSubsequence(b[..|b| - 1], c[..|c| - 1]) {
        if a[|a| - 1] == b[|b| - 1] && IsSubsequence(a[..|a| - 1], b[..|b| - 1]) {
          SubsequenceTransitive(a[..|a| - 1], b[..|b| - 1], c[..|c| - 1]);
        } else {
          SubsequenceTransitive(a, b[..|b| - 1], c[..|c| - 1]);
        }
      } else {
        SubsequenceTransitive(a, b, c[..|c| - 1]);
      }
    }
  }

  /** A row is kept by the filter exactly when it occurs in the input and passes the test. */
  lemma {:induction false} FilterMembers(s: seq<Row>, t: RowTest)
    ensures forall x :: x in Filter(s, t) <==> x in s && Holds(t, x)
    decreases |s|
  {
    if s != [] {
      FilterMembers(s[..|s| - 1], t);
      assert s == s[..|s| - 1] + [s[|s| - 1]];
    }
  }

  /** A property every passing row has holds of every kept row. */
  lemma {:induction false} FilterAll(s: seq<Row>, t: RowTest, p: Row -> bool)
    requires forall i :: 0 <= i < |s| && Holds(t, s[i]) ==> p(s[i])
    ensures forall k :: 0 <= k < |Filter(s, t)| ==> p(Filter(s, t)[k])
    decreases |s|
  {
    if s != [] {
      FilterAll(s[..|s| - 1], t, p);
    }
  }

  /** The filter only deletes rows: it never reorders or invents them. */
  lemma {:induction false} FilterSubsequence(s: seq<Row>, t: RowTest)
    ensures IsSubsequence(Filter(s, t), s)
    decreases |s|
  {
    if s != [] {
      var p := s[..|s| - 1];
      FilterSubsequence(p, t);
      if Holds(t, s[|s| - 1]) {
        var kept := Filter(s, t);
        assert kept == Filter(p, t) + [s[|s| - 1]];
        assert kept[..|kept| - 1] == Filter(p, t);
        assert s[..|s| - 1] == p;
        assert kept[|kept| - 1] == s[|s| - 1];
        assert IsSubsequence(kept[..|kept| - 1], s[..|s| - 1]);
      } else {
        assert Filter(s, t) == Filter(p, t);
        assert IsSubsequence(Filter(p, t), s[..|s| - 1]);
      }
    }
  }

  /** A filter every row passes keeps the table unchanged. */
  lemma {:induction false} FilterKeepsAll(s: seq<Row>, t: RowTest)
    requires forall i :: 0 <= i < |s| ==> Holds(t, s[i])
    ensures Filter(s, t) == s
    decreases |s|
  {
    if s != [] {
      FilterKeepsAll(s[..|s| - 1], t);
      assert s == s[..|s| - 1] + [s[|s| - 1]];
    }
  }

  /** Filtering commutes with a row-wise map that does not change the test's verdict. */
  lemma {:induction false} FilterPointwise(s: seq<Row>, m: seq<Row>, t: RowTest, g: Row -> Row)
    requires |m| == |s|
    requires forall i :: 0 <= i < |s| ==> m[i] == g(s[i])
    requires forall i :: 0 <= i < |s| ==> (Holds(t, m[i]) <==> Holds(t, s[i]))
    ensures |Filter(m, t)| == |Filter(s, t)|
    ensures forall k :: 0 <= k < |Filter(s, t)| ==> Filter(m, t)[k] == g(Filter(s, t)[k])
    decreases |s|
  {
    if s != [] {
      var n := |s| - 1;
      FilterPointwise(s[..n], m[..n], t, g);
      assert m[n] == g(s[n]);
    }
  }

  // ---------------------------------------------------------------------------
  // Duplicate removal

  /** The values of s, each at its first occurrence, in order. */
  function Unique<T(==,!new)>(s: seq<T>): (u: seq<T>)
    ensures Distinct(u)
    ensures forall x :: x in u <==> x in s
    ensures |u| <= |s|
    decreases |s|
  {
    if s == [] then []
    else
      var p := s[..|s| - 1];
      var x := s[|s| - 1];
      if x in p then Unique(p) else Unique(p) + [x]
  }

  /** The index of the first occurrence of x in s. */
  function FirstIndex<T(==)>(s: seq<T>, x: T): (i: nat)
    requires x in s
    ensures i < |s| && s[i] == x && x !in s[..i]
  {
    if s[0] == x then 0
    else
      var i := 1 + FirstIndex(s[1..], x);
      assert s[..i] == [s[0]] + s[1..][..i - 1];
      i
  }

  lemma FirstIndexUnique<T>(s: seq<T>, x: T, j: nat)
    requires j < |s| && s[j] == x && x !in s[..j]
    ensures FirstIndex(s, x) == j
  {
  }

  lemma {:induction false} UniqueSubsequence<T(!new)>(s: seq<T>)
    ensures IsSubsequence(Unique(s), s)
    decreases |s|
  {
    if s != [] {
      var p := s[..|s| - 1];
      UniqueSubsequence(p);
      if s[|s| - 1] !in p {
        var u := Unique(s);
        assert u[..|u| - 1] == Unique(p);
      }
    }
  }

  /** Every kept value is kept at its first occurrence: the kept values appear in
      the order of their first occurrences in s. */
  lemma {:induction false} UniqueFirstOccurrenceOrder<T(!new)>(s: seq<T>)
    ensures forall k :: 0 <= k < |Unique(s)| ==> Unique(s)[k] in s
    ensures forall k1, k2 :: 0 <= k1 < k2 < |Unique(s)| ==>
      FirstIndex(s, Unique(s)[k1]) < FirstIndex(s, Unique(s)[k2])
    decreases |s|
  {
    var u := Unique(s);
    assert forall k :: 0 <= k < |u| ==> u[k] in u;
    if s != [] {
      var p := s[..|s| - 1];
      var x := s[|s| - 1];
      UniqueFirstOccurrenceOrder(p);
      var up := Unique(p);
      assert forall k :: 0 <= k < |up| ==> up[k] in up;
      forall y | y in p
        ensures FirstIndex(s, y) == FirstIndex(p, y)
      {
        var j := FirstIndex(p, y);
        assert s[..j] == p[..j];
        FirstIndexUnique(s, y, j);
      }
      if x !in p {
        assert s[..|s| - 1] == p;
        FirstIndexUnique(s, x, |s| - 1);
        forall k1, k2 | 0 <= k1 < k2 < |u|
          ensures FirstIndex(s, u[k1]) < FirstIndex(s, u[k2])
        {
          if k2 < |up| {
            assert u[k1] == up[k1] && u[k2] == up[k2];
          } else {
            assert u[k1] == up[k1] && u[k2] == x;
          }
        }
      }
    }
  }

  /** When no two rows are equal, removing duplicates removes nothing. */
  lemma {:induction false} UniqueOfDistinct<T(!new)>(s: seq<T>)
    requires Distinct(s)
    ensures Unique(s) == s
    decreases |s|
  {
    if s != [] {
      var p := s[..|s| - 1];
      assert Distinct(p);
      UniqueOfDistinct(p);
      assert s[|s| - 1] !in p;
      assert s == p + [s[|s| - 1]];
    }
  }

  // ---------------------------------------------------------------------------
  // Header edits

  /** The header without column c. */
  function RemoveColumn(cols: seq<string>, c: string): (r: seq<string>)
    ensures forall x :: x in r <==> x in cols && x != c
    ensures Distinct(cols) ==> Distinct(r)
  {
    if cols == [] then []
    else
      var rest := RemoveColumn(cols[1..], c);
      assert Distinct(cols) ==> cols[0] !in cols[1..];
      if cols[0] == c then rest else [cols[0]] + rest
  }

  /** The header with column src renamed to dst. */
  function RenameIn(cols: seq<string>, src: string, dst: string): seq<string> {
    seq(|cols|, i requires 0 <= i < |cols| => if cols[i] == src then dst else cols[i])
  }

  /** As a set of names, renaming replaces src by dst; a header without dst
      stays free of repeats. */
  lemma RenameInHeader(cols: seq<string>, src: string, dst: string)
    ensures ColumnSet(RenameIn(cols, src, dst)) ==
      if src in cols then ColumnSet(cols) - {src} + {dst} else ColumnSet(cols)
    ensures Distinct(cols) && dst !in cols ==> Distinct(RenameIn(cols, src, dst))
  {
    var r := RenameIn(cols, src, dst);
    var after := if src in cols then ColumnSet(cols) - {src} + {dst} else ColumnSet(cols);
    forall x | x in after ensures x in ColumnSet(r) {
      if x == dst && src in cols {
        var j :| 0 <= j < |cols| && cols[j] == src;
        assert r[j] == dst;
      } else {
        var j :| 0 <= j < |cols| && cols[j] == x;
        assert r[j] == x;
      }
    }
    forall x | x in ColumnSet(r) ensures x in after {
      var j :| 0 <= j < |r| && r[j] == x;
      assert cols[j] in cols;
    }
  }

  function Project(r: Row, cols: set<string>): Row {
    map k | k in r && k in cols :: r[k]
  }

  function Renamed(r: Row, src: string, dst: string): Row {
    if src in r then (r - {src})[dst := r[src]] else r
  }

  /** One row of `.loc[mask, col] = v`: the masked row gets v in col; when col
      is a new column, every other row gets a missing cell there. */
  function SetWhere(r: Row, t: RowTest, col: string, v: Cell): Row {
    if Holds(t, r) then r[col := v]
    else if col in r then r
    else r[col := Null]
  }

  lemma SetWhereKeys(r: Row, t: RowTest, col: string, v: Cell)
    ensures SetWhere(r, t, col, v).Keys == r.Keys + {col}
  {
  }

  // ---------------------------------------------------------------------------
  // The table operations

  /** `df[mask]`, and `df.dropna()` as `Where(df, NoMissing)`. */
  method Where(f: Frame, t: RowTest) returns (g: Frame)
    ensures g.columns == f.columns && g.rows == Filter(f.rows, t)
    ensures WellFormed(f) ==> WellFormed(g)
  {
    var kept: seq<Row> := [];
    var i := 0;
    while i < |f.rows|
      invariant 0 <= i <= |f.rows|
      invariant kept == Filter(f.rows[..i], t)
    {
      assert f.rows[..i + 1][..i] == f.rows[..i];
      if Holds(t, f.rows[i]) {
        kept := kept + [f.rows[i]];
      }
      i := i + 1;
    }
    assert f.rows[..i] == f.rows;
    g := Frame(f.columns, kept);
    FilterMembers(f.rows, t);
    assert forall k :: 0 <= k < |kept| ==> kept[k] in f.rows;
  }

  /** `df.drop_duplicates()`: keeps the first of every group of equal rows. */
  method DropDuplicates(f: Frame) returns (g: Frame)
    ensures g.columns == f.columns && g.rows == Unique(f.rows)
    ensures WellFormed(f) ==> WellFormed(g)
  {
    var kept: seq<Row> := [];
    var i := 0;
    while i < |f.rows|
      invariant 0 <= i <= |f.rows|
      invariant kept == Unique(f.rows[..i])
    {
      assert f.rows[..i + 1][..i] == f.rows[..i];
      if f.rows[i] !in f.rows[..i] {
        kept := kept + [f.rows[i]];
      }
      i := i + 1;
    }
    assert f.rows[..i] == f.rows;
    g := Frame(f.columns, kept);
    assert forall k :: 0 <= k < |kept| ==> kept[k] in kept;
  }

  /** `df.drop(c, axis=1)`; pandas raises KeyError for an absent column. */
  method DropColumn(f: Frame, c: string) returns (g: Frame)
    requires c in f.columns
    ensures g.columns == RemoveColumn(f.columns, c)
    ensures |g.rows| == |f.rows|
    ensures forall i :: 0 <= i < |f.rows| ==> g.rows[i] == f.rows[i] - {c}
    ensures WellFormed(f) ==> WellFormed(g)
  {
    var rows: seq<Row> := [];
    var i := 0;
    while i < |f.rows|
      invariant 0 <= i <= |f.rows|
      invariant |rows| == i
      invariant forall k :: 0 <= k < i ==> rows[k] == f.rows[k] - {c}
    {
      rows := rows + [f.rows[i] - {c}];
      i := i + 1;
    }
    g := Frame(RemoveColumn(f.columns, c), rows);
    assert ColumnSet(g.columns) == ColumnSet(f.columns) - {c};
  }

  /** `df.loc[mask, col] = v`, creating col when it is new. */
  method LocSet(f: Frame, t: RowTest, col: string, v: Cell) returns (g: Frame)
    ensures g.columns == if col in f.columns then f.columns else f.columns + [col]
    ensures |g.rows| == |f.rows|
    ensures forall i :: 0 <= i < |f.rows| ==> g.rows[i] == SetWhere(f.rows[i], t, col, v)
    ensures WellFormed(f) ==> WellFormed(g)
  {
    var rows: seq<Row> := [];
    var i := 0;
    while i < |f.rows|
      invariant 0 <= i <= |f.rows|
      invariant |rows| == i
      invariant forall k :: 0 <= k < i ==> rows[k] == SetWhere(f.rows[k], t, col, v)
    {
      rows := rows + [SetWhere(f.rows[i], t, col, v)];
      i := i + 1;
    }
    g := Frame(if col in f.columns then f.columns else f.columns + [col], rows);
    if WellFormed(f) {
      assert ColumnSet(g.columns) == ColumnSet(f.columns) + {col};
      forall k | 0 <= k < |rows|
        ensures rows[k].Keys == ColumnSet(g.columns)
      {
        SetWhereKeys(f.rows[k], t, col, v);
      }
    }
  }

  /** `df[col] = h(df[col])` for a cell-wise h (`apply`, `astype`, `to_datetime`, ...). */
  method ApplyColumn(f: Frame, col: string, h: Cell -> Cell) returns (g: Frame)
    requires col in f.columns
    ensures g.columns == f.columns
    ensures |g.rows| == |f.rows|
    ensures forall i :: 0 <= i < |f.rows| ==> g.rows[i] == f.rows[i][col := h(Get(f.rows[i], col))]
    ensures WellFormed(f) ==> WellFormed(g)
  {
    var rows: seq<Row> := [];
    var i := 0;
    while i < |f.rows|
      invariant 0 <= i <= |f.rows|
      invariant |rows| == i
      invariant forall k :: 0 <= k < i ==> rows[k] == f.rows[k][col := h(Get(f.rows[k], col))]
    {
      rows := rows + [f.rows[i][col := h(Get(f.rows[i], col))]];
      i := i + 1;
    }
    g := Frame(f.columns, rows);
  }

  /** `df[col] = df[col].apply(h)` where h raises on some cells (None here):
      the first rejected cell is the error, otherwise every cell of col is
      replaced by h's value for it. */
  method TryApplyColumn(f: Frame, col: string, h: Cell -> Option<Cell>) returns (res: Result<Frame, Cell>)
    requires col in f.columns
    ensures res.Failure? <==> exists i :: 0 <= i < |f.rows| && h(Get(f.rows[i], col)).None?
    ensures res.Failure? ==>
      exists i :: 0 <= i < |f.rows| &&
        res.error == Get(f.rows[i], col) && h(res.error).None? &&
        forall j :: 0 <= j < i ==> h(Get(f.rows[j], col)).Some?
    ensures res.Success? ==>
      res.value.columns == f.columns && |res.value.rows| == |f.rows| &&
      forall i :: 0 <= i < |f.rows| ==>
        h(Get(f.rows[i], col)).Some? && res.value.rows[i] == f.rows[i][col := h(Get(f.rows[i], col)).value]
    ensures res.Success? ==> (WellFormed(f) ==> WellFormed(res.value))
  {
    var rows: seq<Row> := [];
    var i := 0;
    while i < |f.rows|
      invariant 0 <= i <= |f.rows|
      invariant |rows| == i
      invariant forall k :: 0 <= k < i ==>
        h(Get(f.rows[k], col)).Some? && rows[k] == f.rows[k][col := h(Get(f.rows[k], col)).value]
    {
      var c := h(Get(f.rows[i], col));
      if c.None? {
        return Failure(Get(f.rows[i], col));
      }
      rows := rows + [f.rows[i][col := c.value]];
      i := i + 1;
    }
    res := Success(Frame(f.columns, rows));
  }

  /** `df[cols]`: the listed columns, in the listed order; pandas raises
      KeyError for an absent one. */
  method Reindex(f: Frame, cols: seq<string>) returns (g: Frame)
    requires forall c :: c in cols ==> c in f.columns
    requires Distinct(cols)
    ensures g.columns == cols
    ensures |g.rows| == |f.rows|
    ensures forall i :: 0 <= i < |f.rows| ==> g.rows[i] == Project(f.rows[i], ColumnSet(cols))
    ensures WellFormed(f) ==> WellFormed(g)
  {
    var keep := ColumnSet(cols);
    var rows: seq<Row> := [];
    var i := 0;
    while i < |f.rows|
      invariant 0 <= i <= |f.rows|
      invariant |rows| == i
      invariant forall k :: 0 <= k < i ==> rows[k] == Project(f.rows[k], keep)
    {
      rows := rows + [Project(f.rows[i], keep)];
      i := i + 1;
    }
    g := Frame(cols, rows);
    if WellFormed(f) {
      forall k | 0 <= k < |rows|
        ensures rows[k].Keys == keep
      {
        assert forall c :: c in keep ==> c in f.rows[k];
      }
    }
  }

  /** `df.rename(columns={src: dst})`; an absent src column is ignored. */
  method RenameColumn(f: Frame, src: string, dst: string) returns (g: Frame)
    requires dst !in f.columns
    ensures g.columns == RenameIn(f.columns, src, dst)
    ensures |g.rows| == |f.rows|
    ensures forall i :: 0 <= i < |f.rows| ==> g.rows[i] == Renamed(f.rows[i], src, dst)
    ensures WellFormed(f) ==> WellFormed(g)
  {
    var rows: seq<Row> := [];
    var i := 0;
    while i < |f.rows|
      invariant 0 <= i <= |f.rows|
      invariant |rows| == i
      invariant forall k :: 0 <= k < i ==> rows[k] == Renamed(f.rows[k], src, dst)
    {
      rows := rows + [Renamed(f.rows[i], src, dst)];
      i := i + 1;
    }
    var cols := RenameIn(f.columns, src, dst);
    g := Frame(cols, rows);
    RenameInHeader(f.columns, src, dst);
    if WellFormed(f) {
      forall k | 0 <= k < |rows| ensures rows[k].Keys == ColumnSet(cols) {
        assert f.rows[k].Keys == ColumnSet(f.columns);
      }
    }
  }

}
