/** The data-frame model: a table is an ordered list of distinct column names and a
    list of rows, each row a map from every column name to a cell. */
module Frame {
  import opened Wrappers
  import opened Seqs

  /** A cell as pandas holds it: missing (None/NaN), text, or a number. */
  datatype Cell = Null | Str(s: string) | Num(v: real)

  type Row = map<string, Cell>

  datatype Table = Table(cols: seq<string>, rows: seq<Row>)

  function ColSet(cols: seq<string>): set<string> {
    set c | c in cols
  }

  ghost predicate WellFormed(t: Table) {
    Distinct(t.cols) && forall row :: row in t.rows ==> row.Keys == ColSet(t.cols)
  }

  function CellAt(row: Row, c: string): Cell {
    if c in row then row[c] else Null
  }

  function RealOf(c: Cell): real {
    if c.Num? then c.v else 0.0
  }

  // ---------------------------------------------------------------------------
  // Row provenance: `Trace(out, src, ch)` says that `out` is obtained from an
  // order-preserving subsequence of `src` whose rows changed only in columns `ch`.
  // ---------------------------------------------------------------------------

  ghost predicate AgreeExcept(o: Row, i: Row, ch: set<string>) {
    forall c :: c !in ch ==> (c in o <==> c in i) && (c in i ==> o[c] == i[c])
  }

  ghost predicate Trace(out: seq<Row>, src: seq<Row>, ch: set<string>)
    decreases |src|
  {
    if out == [] then true
    else if src == [] then false
    else (AgreeExcept(out[0], src[0], ch) && Trace(out[1..], src[1..], ch)) || Trace(out, src[1..], ch)
  }

  lemma {:induction false} TraceMember(out: seq<Row>, src: seq<Row>, ch: set<string>)
    requires Trace(out, src, ch)
    ensures forall o :: o in out ==> exists i :: i in src && AgreeExcept(o, i, ch)
    decreases |src|
  {
    if out != [] {
      if AgreeExcept(out[0], src[0], ch) && Trace(out[1..], src[1..], ch) {
        TraceMember(out[1..], src[1..], ch);
        forall o | o in out ensures exists i :: i in src && AgreeExcept(o, i, ch) {
          if o != out[0] {
            assert o in out[1..];
            var i :| i in src[1..] && AgreeExcept(o, i, ch);
            assert i in src;
          } else {
            assert src[0] in src;
          }
        }
      } else {
        TraceMember(out, src[1..], ch);
        forall o | o in out ensures exists i :: i in src && AgreeExcept(o, i, ch) {
          var i :| i in src[1..] && AgreeExcept(o, i, ch);
          assert i in src;
        }
      }
    }
  }

  /** Every row of `out` is a row of `src` changed at most in the columns `ch`; unlike
      `Trace`, the order of the rows is not constrained. */
  ghost predicate Derived(out: seq<Row>, src: seq<Row>, ch: set<string>) {
    forall o :: o in out ==> exists i :: i in src && AgreeExcept(o, i, ch)
  }

  lemma DerivedTrans(a: seq<Row>, b: seq<Row>, c: seq<Row>, x: set<string>, y: set<string>)
    requires Derived(a, b, x) && Derived(b, c, y)
    ensures Derived(a, c, x + y)
  {
    forall o | o in a ensures exists i :: i in c && AgreeExcept(o, i, x + y) {
      var j :| j in b && AgreeExcept(o, j, x);
      var i :| i in c && AgreeExcept(j, i, y);
      AgreeTrans(o, j, i, x, y);
    }
  }

  lemma AgreeTrans(o: Row, j: Row, i: Row, x: set<string>, y: set<string>)
    requires AgreeExcept(o, j, x) && AgreeExcept(j, i, y)
    ensures AgreeExcept(o, i, x + y)
  {
  }

  lemma TraceDerived(out: seq<Row>, src: seq<Row>, ch: set<string>)
    requires Trace(out, src, ch)
    ensures Derived(out, src, ch)
  {
    TraceMember(out, src, ch);
  }

  /** A reordering of the rows derives from them unchanged. */
  lemma PermutedDerived(out: seq<Row>, src: seq<Row>)
    requires multiset(out) == multiset(src)
    ensures Derived(out, src, {})
  {
    forall o | o in out ensures exists i :: i in src && AgreeExcept(o, i, {}) {
      assert o in multiset(src);
      assert AgreeExcept(o, o, {});
    }
  }

  lemma {:induction false} TraceSame(out: seq<Row>, src: seq<Row>, ch: set<string>)
    requires |out| == |src|
    requires forall k :: 0 <= k < |out| ==> AgreeExcept(out[k], src[k], ch)
    ensures Trace(out, src, ch)
    decreases |src|
  {
    if out != [] {
      TraceSame(out[1..], src[1..], ch);
    }
  }

  lemma {:induction false} TraceTrans(a: seq<Row>, b: seq<Row>, c: seq<Row>, x: set<string>, y: set<string>)
    requires Trace(a, b, x) && Trace(b, c, y)
    ensures Trace(a, c, x + y)
    decreases |c|
  {
    if a != [] {
      if AgreeExcept(b[0], c[0], y) && Trace(b[1..], c[1..], y) {
        if AgreeExcept(a[0], b[0], x) && Trace(a[1..], b[1..], x) {
          TraceTrans(a[1..], b[1..], c[1..], x, y);
          assert AgreeExcept(a[0], c[0], x + y);
        } else {
          TraceTrans(a, b[1..], c[1..], x, y);
        }
      } else {
        TraceTrans(a, b, c[1..], x, y);
      }
    }
  }

  /** A property of one column that no step changed holds of every traced row. */
  lemma {:induction false} TraceWider(out: seq<Row>, src: seq<Row>, x: set<string>, y: set<string>)
    requires Trace(out, src, x) && x <= y
    ensures Trace(out, src, y)
    decreases |src|
  {
    if out != [] && src != [] {
      if AgreeExcept(out[0], src[0], x) && Trace(out[1..], src[1..], x) {
        TraceWider(out[1..], src[1..], x, y);
      } else {
        TraceWider(out, src[1..], x, y);
      }
    }
  }

  lemma TraceKeeps(out: seq<Row>, src: seq<Row>, ch: set<string>, col: string, ok: Cell -> bool)
    requires Trace(out, src, ch) && col !in ch
    requires forall i :: i in src ==> col in i && ok(i[col])
    ensures forall o :: o in out ==> col in o && ok(o[col])
  {
    TraceMember(out, src, ch);
  }

  /** Rows that all hold the same columns still do after a trace that keeps them. */
  lemma TraceKeys(out: seq<Row>, src: seq<Row>, ch: set<string>, keys: set<string>)
    requires Trace(out, src, ch) && ch <= keys
    requires forall i :: i in src ==> i.Keys == keys
    requires forall o :: o in out ==> ch <= o.Keys
    ensures forall o :: o in out ==> o.Keys == keys
  {
    TraceMember(out, src, ch);
    forall o | o in out ensures o.Keys == keys {
      var i :| i in src && AgreeExcept(o, i, ch);
    }
  }

  /** A trace keeps values of an unchanged column that the source rows hold apart. */
  lemma {:induction false} TraceDistinct(out: seq<Row>, src: seq<Row>, ch: set<string>, col: string)
    requires Trace(out, src, ch) && col !in ch
    requires DistinctOn(src, col)
    ensures DistinctOn(out, col)
    decreases |src|
  {
    if out != [] {
      var rest := src[1..];
      assert DistinctOn(rest, col) by {
        forall i, j | 0 <= i < j < |rest| ensures CellAt(rest[i], col) != CellAt(rest[j], col) {
          assert rest[i] == src[i + 1] && rest[j] == src[j + 1];
        }
      }
      if AgreeExcept(out[0], src[0], ch) && Trace(out[1..], rest, ch) {
        TraceDistinct(out[1..], rest, ch, col);
        TraceMember(out[1..], rest, ch);
        forall k | 1 <= k < |out| ensures CellAt(out[0], col) != CellAt(out[k], col) {
          assert out[k] in out[1..];
          var i :| i in rest && AgreeExcept(out[k], i, ch);
          var j :| 0 <= j < |rest| && rest[j] == i;
          assert src[j + 1] == i;
        }
      } else {
        TraceDistinct(out, rest, ch, col);
      }
    }
  }

  /** A trace keeps an order on two columns it did not change. */
  lemma {:induction false} TraceSorted(out: seq<Row>, src: seq<Row>, ch: set<string>, c1: string, c2: string)
    requires Trace(out, src, ch) && c1 !in ch && c2 !in ch
    requires SortedBy(src, c1, c2)
    ensures SortedBy(out, c1, c2)
    decreases |src|
  {
    if out != [] {
      var rest := src[1..];
      assert SortedBy(rest, c1, c2) by {
        forall i, j | 0 <= i < j < |rest| ensures PairLe(ColsKey(rest[i], c1, c2), ColsKey(rest[j], c1, c2)) {
          assert rest[i] == src[i + 1] && rest[j] == src[j + 1];
        }
      }
      if AgreeExcept(out[0], src[0], ch) && Trace(out[1..], rest, ch) {
        TraceSorted(out[1..], rest, ch, c1, c2);
        TraceMember(out[1..], rest, ch);
        forall k | 1 <= k < |out| ensures PairLe(ColsKey(out[0], c1, c2), ColsKey(out[k], c1, c2)) {
          assert out[k] in out[1..];
          var i :| i in rest && AgreeExcept(out[k], i, ch);
          var j :| 0 <= j < |rest| && rest[j] == i;
          assert src[j + 1] == i;
        }
      } else {
        TraceSorted(out, rest, ch, c1, c2);
      }
    }
  }

  // ---------------------------------------------------------------------------
  // Column operations
  // ---------------------------------------------------------------------------

  /** The rows whose `col` cell `check` accepts, in order, with that cell replaced by
      the normalised value `check` returns. */
  function FilterRows(rows: seq<Row>, col: string, check: Cell -> Option<Cell>): (r: seq<Row>)
    ensures forall o :: o in r ==> Accepted(o, rows, col, check)
    ensures Trace(r, rows, {col})
  {
    if rows == [] then []
    else
      var rest := FilterRows(rows[1..], col, check);
      var i := rows[0];
      assert forall o :: o in rest ==> Accepted(o, rows, col, check) by {
        forall o | o in rest ensures Accepted(o, rows, col, check) {
          var i :| i in rows[1..] && col in i && check(i[col]) == Some(o[col]) && o == i[col := o[col]];
          assert i in rows;
        }
      }
      if col in i && check(i[col]).Some? then
        var o := i[col := check(i[col]).value];
        assert AgreeExcept(o, i, {col});
        assert Accepted(o, rows, col, check) by { assert rows[0] in rows; }
        [o] + rest
      else rest
  }

  /** `o` is a row of `rows` whose `col` cell `check` accepted, with that cell normalised. */
  ghost predicate Accepted(o: Row, rows: seq<Row>, col: string, check: Cell -> Option<Cell>) {
    col in o && exists i :: i in rows && col in i && check(i[col]) == Some(o[col]) && o == i[col := o[col]]
  }

  /** The input row an accepted row came from. */
  lemma AcceptedSource(o: Row, rows: seq<Row>, col: string, check: Cell -> Option<Cell>) returns (i: Row)
    requires Accepted(o, rows, col, check)
    ensures i in rows && col in i && col in o && check(i[col]) == Some(o[col]) && o == i[col := o[col]]
  {
    i :| i in rows && col in i && check(i[col]) == Some(o[col]) && o == i[col := o[col]];
  }

  /** What a validator promises: the kept rows are, in order, exactly the rows whose
      `col` cell `check` accepts, each with that cell normalised and nothing else changed. */
  ghost predicate Filtered(r: Table, t: Table, col: string, check: Cell -> Option<Cell>) {
    && r.cols == t.cols
    && Trace(r.rows, t.rows, {col})
    && (forall o :: o in r.rows ==> Accepted(o, t.rows, col, check))
    && (forall i :: i in t.rows && col in i && check(i[col]).Some? ==> i[col := check(i[col]).value] in r.rows)
  }

  /** Every row whose cell `check` accepts is kept (with its cell normalised). */
  lemma {:induction false} FilterRowsComplete(rows: seq<Row>, col: string, check: Cell -> Option<Cell>)
    ensures forall i :: i in rows && col in i && check(i[col]).Some? ==>
      i[col := check(i[col]).value] in FilterRows(rows, col, check)
  {
    if rows != [] {
      FilterRowsComplete(rows[1..], col, check);
      forall i | i in rows && col in i && check(i[col]).Some?
        ensures i[col := check(i[col]).value] in FilterRows(rows, col, check)
      {
        if i != rows[0] {
          assert i in rows[1..];
        }
      }
    }
  }

  /** When every accepted cell is accepted again unchanged, filtering twice is filtering once. */
  lemma {:induction false} FilterRowsIdempotent(rows: seq<Row>, col: string, check: Cell -> Option<Cell>)
    requires forall c :: check(c).Some? ==> check(check(c).value) == check(c)
    ensures FilterRows(FilterRows(rows, col, check), col, check) == FilterRows(rows, col, check)
  {
    if rows != [] {
      FilterRowsIdempotent(rows[1..], col, check);
      var i := rows[0];
      if col in i && check(i[col]).Some? {
        var o := i[col := check(i[col]).value];
        assert [o] + FilterRows(rows[1..], col, check) == FilterRows(rows, col, check);
        assert o[col := check(o[col]).value] == o;
      }
    }
  }

  /** A pandas validator: keep the rows whose `col` cell `check` accepts, normalised. */
  function ValidateColumn(t: Table, col: string, check: Cell -> Option<Cell>): (r: Table)
    requires WellFormed(t) && col in t.cols
    ensures WellFormed(r) && Filtered(r, t, col, check)
  {
    var rows := FilterRows(t.rows, col, check);
    FilterRowsComplete(t.rows, col, check);
    assert forall o :: o in rows ==> o.Keys == ColSet(t.cols) by {
      forall o | o in rows ensures o.Keys == ColSet(t.cols) {
        assert Accepted(o, t.rows, col, check);
        var i :| i in t.rows && col in i && check(i[col]) == Some(o[col]) && o == i[col := o[col]];
      }
    }
    Table(t.cols, rows)
  }

  /** When every accepted cell is accepted again unchanged, validating twice is validating once. */
  lemma ValidateColumnIdempotent(t: Table, col: string, check: Cell -> Option<Cell>)
    requires WellFormed(t) && col in t.cols
    requires forall c :: check(c).Some? ==> check(check(c).value) == check(c)
    ensures ValidateColumn(ValidateColumn(t, col, check), col, check) == ValidateColumn(t, col, check)
  {
    FilterRowsIdempotent(t.rows, col, check);
  }

  function KeepWhere(rows: seq<Row>, keep: Row -> bool): (r: seq<Row>)
    ensures forall o :: o in r ==> o in rows && keep(o)
    ensures forall i :: i in rows && keep(i) ==> i in r
    ensures Trace(r, rows, {})
  {
    if rows == [] then []
    else
      var rest := KeepWhere(rows[1..], keep);
      assert forall i :: i in rows && i != rows[0] ==> i in rows[1..];
      if keep(rows[0]) then
        assert AgreeExcept(rows[0], rows[0], {});
        [rows[0]] + rest
      else rest
  }

  /** Boolean row selection `t[mask]`: the rows `keep` accepts, in order, unchanged. */
  function Where(t: Table, keep: Row -> bool): (r: Table)
    requires WellFormed(t)
    ensures WellFormed(r) && r.cols == t.cols
    ensures forall o :: o in r.rows ==> o in t.rows && keep(o)
    ensures forall i :: i in t.rows && keep(i) ==> i in r.rows
    ensures Trace(r.rows, t.rows, {})
  {
    Table(t.cols, KeepWhere(t.rows, keep))
  }

  // ---------------------------------------------------------------------------
  // Row-level stages: a stage that drops some rows and rewrites the others is a
  // function from a row to the row it becomes, or None when the row is dropped.
  // ---------------------------------------------------------------------------

  /** The rows `f` accepts, in order, each replaced by what `f` makes of it. */
  function Sift(rows: seq<Row>, f: Row -> Option<Row>): (r: seq<Row>)
    ensures |r| <= |rows|
  {
    if rows == [] then []
    else if f(rows[0]).Some? then [f(rows[0]).value] + Sift(rows[1..], f)
    else Sift(rows[1..], f)
  }

  /** A sifted row is exactly what `f` makes of some row it accepts. */
  lemma {:induction false} SiftMembers(rows: seq<Row>, f: Row -> Option<Row>)
    ensures forall o :: o in Sift(rows, f) <==> exists i :: i in rows && f(i) == Some(o)
  {
    if rows != [] {
      SiftMembers(rows[1..], f);
      assert forall i :: i in rows && i != rows[0] ==> i in rows[1..];
      assert forall i :: i in rows[1..] ==> i in rows;
    }
  }

  /** One cell checked and normalised, as `ValidateColumn` does to every row. */
  function CheckRow(col: string, check: Cell -> Option<Cell>): Row -> Option<Row> {
    i => if col in i && check(i[col]).Some? then Some(i[col := check(i[col]).value]) else None
  }

  /** The row unchanged when `keep` holds of it. */
  function KeepRow(keep: Row -> bool): Row -> Option<Row> {
    i => if keep(i) then Some(i) else None
  }

  /** Column `col` written from the row itself. */
  function SetRow(col: string, f: Row -> Cell): Row -> Option<Row> {
    i => Some(i[col := f(i)])
  }

  /** Column `col` deleted. */
  function DropRow(col: string): Row -> Option<Row> {
    (i: Row) => Some(i - {col})
  }

  /** Every row kept unchanged. */
  function Pass(): Row -> Option<Row> {
    i => Some(i)
  }

  /** `f`, then `g` on the rows `f` kept. */
  function Then(f: Row -> Option<Row>, g: Row -> Option<Row>): Row -> Option<Row> {
    i => if f(i).Some? then g(f(i).value) else None
  }

  /** Two stages run one after the other are the composed stage. */
  lemma {:induction false} SiftThen(rows: seq<Row>, f: Row -> Option<Row>, g: Row -> Option<Row>)
    ensures Sift(Sift(rows, f), g) == Sift(rows, Then(f, g))
  {
    if rows != [] {
      SiftThen(rows[1..], f, g);
      var rest := Sift(rows[1..], f);
      if f(rows[0]).Some? {
        var s := [f(rows[0]).value] + rest;
        assert s[0] == f(rows[0]).value && s[1..] == rest;
      }
    }
  }

  /** A stage that keeps every row rewrites each in place. */
  lemma {:induction false} SiftEach(rows: seq<Row>, f: Row -> Option<Row>)
    requires forall i :: f(i).Some?
    ensures |Sift(rows, f)| == |rows|
    ensures forall k :: 0 <= k < |rows| ==> Sift(rows, f)[k] == f(rows[k]).value
  {
    if rows != [] {
      SiftEach(rows[1..], f);
      var r := Sift(rows, f);
      assert r == [f(rows[0]).value] + Sift(rows[1..], f);
      forall k | 0 <= k < |rows| ensures r[k] == f(rows[k]).value {
        if k > 0 {
          assert rows[1..][k - 1] == rows[k];
        }
      }
    }
  }

  lemma SiftPass(rows: seq<Row>)
    ensures Sift(rows, Pass()) == rows
  {
    SiftEach(rows, Pass());
  }

  /** Validating a column is the row-level cell check applied to every row. */
  lemma {:induction false} FilterRowsSift(rows: seq<Row>, col: string, check: Cell -> Option<Cell>)
    ensures FilterRows(rows, col, check) == Sift(rows, CheckRow(col, check))
  {
    if rows != [] {
      FilterRowsSift(rows[1..], col, check);
    }
  }

  lemma ValidateColumnSift(t: Table, col: string, check: Cell -> Option<Cell>)
    requires WellFormed(t) && col in t.cols
    ensures ValidateColumn(t, col, check).rows == Sift(t.rows, CheckRow(col, check))
  {
    FilterRowsSift(t.rows, col, check);
  }

  lemma {:induction false} KeepWhereSift(rows: seq<Row>, keep: Row -> bool)
    ensures KeepWhere(rows, keep) == Sift(rows, KeepRow(keep))
  {
    if rows != [] {
      KeepWhereSift(rows[1..], keep);
    }
  }

  lemma SiftRows(rows: seq<Row>, f: Row -> Option<Row>, out: seq<Row>)
    requires forall i :: f(i).Some?
    requires |out| == |rows| && forall k :: 0 <= k < |rows| ==> out[k] == f(rows[k]).value
    ensures out == Sift(rows, f)
  {
    SiftEach(rows, f);
  }

  /** Column assignment is a stage that keeps every row. */
  lemma SetColumnSift(t: Table, col: string, f: Row -> Cell)
    requires WellFormed(t)
    ensures SetColumn(t, col, f).rows == Sift(t.rows, SetRow(col, f))
  {
    SiftRows(t.rows, SetRow(col, f), SetColumn(t, col, f).rows);
  }

  /** Column deletion is a stage that keeps every row. */
  lemma DropColumnSift(t: Table, col: string)
    requires WellFormed(t)
    ensures DropColumn(t, col).rows == Sift(t.rows, DropRow(col))
  {
    SiftRows(t.rows, DropRow(col), DropColumn(t, col).rows);
  }

  /** Column assignment `t[col] = f(row)`: overwrites in place or appends a new column. */
  function SetColumn(t: Table, col: string, f: Row -> Cell): (r: Table)
    requires WellFormed(t)
    ensures WellFormed(r)
    ensures r.cols == if col in t.cols then t.cols else t.cols + [col]
    ensures |r.rows| == |t.rows|
    ensures forall k :: 0 <= k < |t.rows| ==> r.rows[k] == t.rows[k][col := f(t.rows[k])]
    ensures Trace(r.rows, t.rows, {col})
  {
    var rows := seq(|t.rows|, k requires 0 <= k < |t.rows| => t.rows[k][col := f(t.rows[k])]);
    var cols := if col in t.cols then t.cols else t.cols + [col];
    AddColumn(t.cols, col);
    UpdatedRows(t, col, f, rows);
    Table(cols, rows)
  }

  /** Rows with one column written hold the old columns plus that one, and differ from
      the old rows in that column only. */
  lemma UpdatedRows(t: Table, col: string, f: Row -> Cell, rows: seq<Row>)
    requires WellFormed(t)
    requires |rows| == |t.rows| && forall k :: 0 <= k < |t.rows| ==> rows[k] == t.rows[k][col := f(t.rows[k])]
    ensures forall row :: row in rows ==> row.Keys == ColSet(t.cols) + {col}
    ensures Trace(rows, t.rows, {col})
  {
    forall row | row in rows ensures row.Keys == ColSet(t.cols) + {col} {
      var k :| 0 <= k < |rows| && rows[k] == row;
      assert t.rows[k] in t.rows;
    }
    forall k | 0 <= k < |rows| ensures AgreeExcept(rows[k], t.rows[k], {col}) {
      UpdateAgrees(t.rows[k], col, f(t.rows[k]));
    }
    TraceSame(rows, t.rows, {col});
  }

  /** Writing one cell changes the row in that column only. */
  lemma UpdateAgrees(row: Row, col: string, v: Cell)
    ensures AgreeExcept(row[col := v], row, {col})
  {
  }

  /** Naming a column adds it to the header once, at the end when it is new. */
  lemma AddColumn(cols: seq<string>, col: string)
    requires Distinct(cols)
    ensures ColSet(if col in cols then cols else cols + [col]) == ColSet(cols) + {col}
    ensures Distinct(if col in cols then cols else cols + [col])
  {
    if col !in cols {
      var r := cols + [col];
      forall i, j | 0 <= i < j < |r| ensures r[i] != r[j] {
        assert r[i] == cols[i];
        if j < |cols| {
          assert r[j] == cols[j];
        }
      }
      assert ColSet(r) == ColSet(cols) + {col};
    }
  }

  function Without(cols: seq<string>, col: string): (r: seq<string>)
    ensures ColSet(r) == ColSet(cols) - {col}
    ensures Distinct(cols) ==> Distinct(r)
  {
    if cols == [] then []
    else if cols[0] == col then Without(cols[1..], col)
    else
      var rest := Without(cols[1..], col);
      var r := [cols[0]] + rest;
      assert ColSet(cols) == {cols[0]} + ColSet(cols[1..]) by {
        assert cols == [cols[0]] + cols[1..];
      }
      assert ColSet(r) == {cols[0]} + ColSet(rest);
      assert Distinct(cols) ==> Distinct(r) by {
        if Distinct(cols) {
          assert Distinct(cols[1..]) by {
            forall i, j | 0 <= i < j < |cols[1..]| ensures cols[1..][i] != cols[1..][j] {
              assert cols[1..][i] == cols[i + 1] && cols[1..][j] == cols[j + 1];
            }
          }
          assert cols[0] !in cols[1..] by {
            forall k | 0 <= k < |cols[1..]| ensures cols[1..][k] != cols[0] { assert cols[1..][k] == cols[k + 1]; }
          }
          assert cols[0] !in rest;
          forall i, j | 0 <= i < j < |r| ensures r[i] != r[j] {
            if i == 0 { assert r[j] in rest; } else { assert r[i] == rest[i - 1] && r[j] == rest[j - 1]; }
          }
        }
      }
      r
  }

  lemma {:induction false} WithoutAbsent(cols: seq<string>, col: string)
    requires col !in cols
    ensures Without(cols, col) == cols
  {
    if cols != [] {
      WithoutAbsent(cols[1..], col);
    }
  }

  lemma WithoutFront(col: string, cols: seq<string>)
    ensures Without([col] + cols, col) == Without(cols, col)
  {
    assert ([col] + cols)[1..] == cols;
  }

  /** `del t[col]`. */
  function DropColumn(t: Table, col: string): (r: Table)
    requires WellFormed(t)
    ensures WellFormed(r)
    ensures r.cols == Without(t.cols, col)
    ensures |r.rows| == |t.rows|
    ensures forall k :: 0 <= k < |t.rows| ==> r.rows[k] == t.rows[k] - {col}
    ensures Trace(r.rows, t.rows, {col})
  {
    var rows := seq(|t.rows|, k requires 0 <= k < |t.rows| => t.rows[k] - {col});
    assert forall row :: row in rows ==> row.Keys == ColSet(Without(t.cols, col)) by {
      forall row | row in rows ensures row.Keys == ColSet(Without(t.cols, col)) {
        var k :| 0 <= k < |rows| && rows[k] == row;
        assert t.rows[k] in t.rows;
      }
    }
    TraceSame(rows, t.rows, {col});
    Table(Without(t.cols, col), rows)
  }

  lemma FrontColumn(cols: seq<string>, col: string)
    ensures ColSet([col] + Without(cols, col)) == ColSet(cols) + {col}
    ensures Distinct(cols) ==> Distinct([col] + Without(cols, col))
  {
    var rest := Without(cols, col);
    var r := [col] + rest;
    assert forall c :: c in r <==> c == col || c in rest;
    assert col !in rest by { assert col !in ColSet(rest); }
    forall c ensures c in ColSet(r) <==> c in ColSet(cols) + {col} {
      assert c in ColSet(rest) <==> c in rest;
    }
    if Distinct(cols) {
      forall i, j | 0 <= i < j < |r| ensures r[i] != r[j] {
        if i == 0 { assert r[j] in rest; } else { assert r[i] == rest[i - 1] && r[j] == rest[j - 1]; }
      }
    }
  }

  /** `del t[col]` when present, then `t.insert(loc=0, column=col, value=f(row))`. */
  function InsertFront(t: Table, col: string, f: Row -> Cell): (r: Table)
    requires WellFormed(t)
    ensures WellFormed(r)
    ensures r.cols == [col] + Without(t.cols, col)
    ensures forall c :: c in r.cols <==> c == col || c in t.cols
    ensures |r.rows| == |t.rows|
    ensures forall k :: 0 <= k < |t.rows| ==> r.rows[k] == t.rows[k][col := f(t.rows[k])]
    ensures Trace(r.rows, t.rows, {col})
  {
    FrontColumn(t.cols, col);
    var s := SetColumn(t, col, f);
    assert ColSet(s.cols) == ColSet(t.cols) + {col};
    var cols := [col] + Without(t.cols, col);
    assert forall c :: c in cols <==> c in ColSet(cols);
    Table(cols, s.rows)
  }

  /** `t[cs]`: the named columns, in the given order. */
  function Project(t: Table, cs: seq<string>): (r: Table)
    requires WellFormed(t) && Distinct(cs) && forall c :: c in cs ==> c in t.cols
    ensures WellFormed(r) && r.cols == cs
    ensures |r.rows| == |t.rows|
    ensures forall k :: 0 <= k < |t.rows| ==> forall c :: c in cs ==> c in r.rows[k] && r.rows[k][c] == t.rows[k][c]
  {
    var rows := seq(|t.rows|, k requires 0 <= k < |t.rows| => map c | c in cs && c in t.rows[k] :: t.rows[k][c]);
    assert forall k :: 0 <= k < |t.rows| ==> rows[k].Keys == ColSet(cs) by {
      forall k | 0 <= k < |t.rows| ensures rows[k].Keys == ColSet(cs) {
        assert t.rows[k] in t.rows;
      }
    }
    Table(cs, rows)
  }

  // ---------------------------------------------------------------------------
  // Ordering on two numeric columns (pandas sort_values), modelled as a stable
  // insertion sort.
  // ---------------------------------------------------------------------------

  function ColsKey(row: Row, c1: string, c2: string): (real, real) {
    (RealOf(CellAt(row, c1)), RealOf(CellAt(row, c2)))
  }

  predicate PairLe(a: (real, real), b: (real, real)) {
    a.0 < b.0 || (a.0 == b.0 && a.1 <= b.1)
  }

  predicate SortedBy(rows: seq<Row>, c1: string, c2: string) {
    forall i, j :: 0 <= i < j < |rows| ==> PairLe(ColsKey(rows[i], c1, c2), ColsKey(rows[j], c1, c2))
  }

  function InsertRow(x: Row, s: seq<Row>, c1: string, c2: string): (r: seq<Row>)
    ensures multiset(r) == multiset(s) + multiset{x}
    ensures SortedBy(s, c1, c2) ==> SortedBy(r, c1, c2)
  {
    if s == [] then [x]
    else if PairLe(ColsKey(x, c1, c2), ColsKey(s[0], c1, c2)) then
      InsertHead(x, s, c1, c2);
      [x] + s
    else
      var rest := InsertRow(x, s[1..], c1, c2);
      InsertBehind(x, s, rest, c1, c2);
      [s[0]] + rest
  }

  /** A row no greater than anything in a sorted list can go in front of it. */
  lemma ConsSorted(a: Row, s: seq<Row>, c1: string, c2: string)
    requires SortedBy(s, c1, c2)
    requires forall y :: y in s ==> PairLe(ColsKey(a, c1, c2), ColsKey(y, c1, c2))
    ensures SortedBy([a] + s, c1, c2)
  {
    var r := [a] + s;
    forall i, j | 0 <= i < j < |r| ensures PairLe(ColsKey(r[i], c1, c2), ColsKey(r[j], c1, c2)) {
      assert r[j] == s[j - 1] && s[j - 1] in s;
      if i > 0 {
        assert r[i] == s[i - 1];
      }
    }
  }

  lemma InsertHead(x: Row, s: seq<Row>, c1: string, c2: string)
    requires s != [] && PairLe(ColsKey(x, c1, c2), ColsKey(s[0], c1, c2))
    ensures SortedBy(s, c1, c2) ==> SortedBy([x] + s, c1, c2)
  {
    if SortedBy(s, c1, c2) {
      forall y | y in s ensures PairLe(ColsKey(x, c1, c2), ColsKey(y, c1, c2)) {
        var m :| 0 <= m < |s| && s[m] == y;
        if m > 0 {
          assert PairLe(ColsKey(s[0], c1, c2), ColsKey(s[m], c1, c2));
        }
      }
      ConsSorted(x, s, c1, c2);
    }
  }

  lemma InsertBehind(x: Row, s: seq<Row>, rest: seq<Row>, c1: string, c2: string)
    requires s != [] && !PairLe(ColsKey(x, c1, c2), ColsKey(s[0], c1, c2))
    requires multiset(rest) == multiset(s[1..]) + multiset{x}
    requires SortedBy(s[1..], c1, c2) ==> SortedBy(rest, c1, c2)
    ensures multiset([s[0]] + rest) == multiset(s) + multiset{x}
    ensures SortedBy(s, c1, c2) ==> SortedBy([s[0]] + rest, c1, c2)
  {
    assert s == [s[0]] + s[1..];
    if SortedBy(s, c1, c2) {
      assert SortedBy(s[1..], c1, c2) by {
        forall i, j | 0 <= i < j < |s[1..]| ensures PairLe(ColsKey(s[1..][i], c1, c2), ColsKey(s[1..][j], c1, c2)) {
          assert s[1..][i] == s[i + 1] && s[1..][j] == s[j + 1];
        }
      }
      forall y | y in rest ensures PairLe(ColsKey(s[0], c1, c2), ColsKey(y, c1, c2)) {
        assert y in multiset(rest);
        if y != x {
          assert y in multiset(s[1..]);
          var m :| 0 <= m < |s[1..]| && s[1..][m] == y;
          assert s[m + 1] == y;
        }
      }
      ConsSorted(s[0], rest, c1, c2);
    }
  }

  /** Rows ordered by (c1, c2), ties kept in input order. */
  function SortRows(rows: seq<Row>, c1: string, c2: string): (r: seq<Row>)
    ensures multiset(r) == multiset(rows)
    ensures SortedBy(r, c1, c2)
  {
    if rows == [] then []
    else
      assert rows == [rows[0]] + rows[1..];
      InsertRow(rows[0], SortRows(rows[1..], c1, c2), c1, c2)
  }

  /** `t.sort_values(by=[c1, c2])` (c1 == c2 for a single key). */
  function SortTable(t: Table, c1: string, c2: string): (r: Table)
    requires WellFormed(t)
    ensures WellFormed(r) && r.cols == t.cols
    ensures multiset(r.rows) == multiset(t.rows)
    ensures SortedBy(r.rows, c1, c2)
  {
    var rows := SortRows(t.rows, c1, c2);
    assert forall row :: row in rows ==> row in multiset(t.rows);
    Table(t.cols, rows)
  }

  // ---------------------------------------------------------------------------
  // Distinct values and drop_duplicates(keep="first")
  // ---------------------------------------------------------------------------

  predicate DistinctOn(rows: seq<Row>, col: string) {
    forall i, j :: 0 <= i < j < |rows| ==> CellAt(rows[i], col) != CellAt(rows[j], col)
  }

  lemma {:induction false} InsertRowDistinct(x: Row, s: seq<Row>, c1: string, c2: string, col: string)
    requires DistinctOn(s, col)
    requires forall y :: y in s ==> CellAt(y, col) != CellAt(x, col)
    ensures DistinctOn(InsertRow(x, s, c1, c2), col)
  {
    if s == [] {
    } else if PairLe(ColsKey(x, c1, c2), ColsKey(s[0], c1, c2)) {
      ConsDistinct(x, s, col);
    } else {
      TailDistinct(s, col);
      InsertRowDistinct(x, s[1..], c1, c2, col);
      var rest := InsertRow(x, s[1..], c1, c2);
      assert s[0] in s;
      forall y | y in rest ensures CellAt(y, col) != CellAt(s[0], col) {
        assert y in multiset(rest);
        if y != x {
          assert y in multiset(s[1..]);
        }
      }
      ConsDistinct(s[0], rest, col);
    }
  }

  lemma ConsDistinct(a: Row, s: seq<Row>, col: string)
    requires DistinctOn(s, col)
    requires forall y :: y in s ==> CellAt(y, col) != CellAt(a, col)
    ensures DistinctOn([a] + s, col)
  {
    var r := [a] + s;
    forall i, j | 0 <= i < j < |r| ensures CellAt(r[i], col) != CellAt(r[j], col) {
      assert r[j] == s[j - 1] && s[j - 1] in s;
      if i > 0 {
        assert r[i] == s[i - 1];
      }
    }
  }

  lemma TailDistinct(s: seq<Row>, col: string)
    requires s != [] && DistinctOn(s, col)
    ensures DistinctOn(s[1..], col)
    ensures forall y :: y in s[1..] ==> CellAt(y, col) != CellAt(s[0], col)
  {
    forall i, j | 0 <= i < j < |s[1..]| ensures CellAt(s[1..][i], col) != CellAt(s[1..][j], col) {
      assert s[1..][i] == s[i + 1] && s[1..][j] == s[j + 1];
    }
    forall y | y in s[1..] ensures CellAt(y, col) != CellAt(s[0], col) {
      var m :| 0 <= m < |s[1..]| && s[1..][m] == y;
      assert s[m + 1] == y;
    }
  }

  /** Sorting keeps distinct values distinct. */
  lemma {:induction false} SortRowsDistinct(rows: seq<Row>, c1: string, c2: string, col: string)
    requires DistinctOn(rows, col)
    ensures DistinctOn(SortRows(rows, c1, c2), col)
  {
    if rows != [] {
      var rest := rows[1..];
      assert DistinctOn(rest, col) by {
        forall i, j | 0 <= i < j < |rest| ensures CellAt(rest[i], col) != CellAt(rest[j], col) {
          assert rest[i] == rows[i + 1] && rest[j] == rows[j + 1];
        }
      }
      SortRowsDistinct(rest, c1, c2, col);
      var sorted := SortRows(rest, c1, c2);
      forall y | y in sorted ensures CellAt(y, col) != CellAt(rows[0], col) {
        assert y in multiset(rest);
        var m :| 0 <= m < |rest| && rest[m] == y;
        assert rows[m + 1] == y;
      }
      InsertRowDistinct(rows[0], sorted, c1, c2, col);
    }
  }

  /** The rows whose `col` value was not met before, in `seen` or earlier in `rows`. */
  function KeepFirstFrom(rows: seq<Row>, col: string, seen: set<Cell>): (r: seq<Row>)
    ensures forall o :: o in r ==> o in rows && CellAt(o, col) !in seen
    ensures DistinctOn(r, col)
  {
    if rows == [] then []
    else
      var v := CellAt(rows[0], col);
      if v in seen then
        var rest := KeepFirstFrom(rows[1..], col, seen);
        assert forall o :: o in rest ==> o in rows;
        rest
      else
        var rest := KeepFirstFrom(rows[1..], col, seen + {v});
        assert forall o :: o in rest ==> o in rows;
        var r := [rows[0]] + rest;
        assert forall k :: 1 <= k < |r| ==> r[k] in rest;
        r
  }

  lemma {:induction false} KeepFirstFromTrace(rows: seq<Row>, col: string, seen: set<Cell>)
    ensures Trace(KeepFirstFrom(rows, col, seen), rows, {})
  {
    if rows != [] {
      var v := CellAt(rows[0], col);
      if v in seen {
        KeepFirstFromTrace(rows[1..], col, seen);
      } else {
        KeepFirstFromTrace(rows[1..], col, seen + {v});
        assert AgreeExcept(rows[0], rows[0], {});
      }
    }
  }

  /** Every value not already seen keeps a row. */
  lemma {:induction false} KeepFirstFromComplete(rows: seq<Row>, col: string, seen: set<Cell>)
    ensures forall i :: i in rows && CellAt(i, col) !in seen ==>
      exists o :: o in KeepFirstFrom(rows, col, seen) && CellAt(o, col) == CellAt(i, col)
  {
    if rows != [] {
      var v := CellAt(rows[0], col);
      var r := KeepFirstFrom(rows, col, seen);
      if v in seen {
        KeepFirstFromComplete(rows[1..], col, seen);
        forall i | i in rows && CellAt(i, col) !in seen
          ensures exists o :: o in r && CellAt(o, col) == CellAt(i, col)
        {
          assert i in rows[1..];
        }
      } else {
        KeepFirstFromComplete(rows[1..], col, seen + {v});
        forall i | i in rows && CellAt(i, col) !in seen
          ensures exists o :: o in r && CellAt(o, col) == CellAt(i, col)
        {
          if CellAt(i, col) == v {
            assert r[0] == rows[0];
          } else {
            assert i in rows[1..];
            var o :| o in KeepFirstFrom(rows[1..], col, seen + {v}) && CellAt(o, col) == CellAt(i, col);
            assert o in r;
          }
        }
      }
    }
  }

  /** When the rows are sorted on (c1, c2), each kept row has the least key of its group. */
  lemma {:induction false} KeepFirstFromMinimal(rows: seq<Row>, col: string, seen: set<Cell>, c1: string, c2: string)
    requires SortedBy(rows, c1, c2)
    ensures forall o, s :: o in KeepFirstFrom(rows, col, seen) && s in rows && CellAt(s, col) == CellAt(o, col) ==>
      PairLe(ColsKey(o, c1, c2), ColsKey(s, c1, c2))
  {
    if rows != [] {
      var v := CellAt(rows[0], col);
      var rest := rows[1..];
      assert SortedBy(rest, c1, c2) by {
        forall i, j | 0 <= i < j < |rest| ensures PairLe(ColsKey(rest[i], c1, c2), ColsKey(rest[j], c1, c2)) {
          assert rest[i] == rows[i + 1] && rest[j] == rows[j + 1];
        }
      }
      var seen' := if v in seen then seen else seen + {v};
      KeepFirstFromMinimal(rest, col, seen', c1, c2);
      var r := KeepFirstFrom(rows, col, seen);
      forall o, s | o in r && s in rows && CellAt(s, col) == CellAt(o, col)
        ensures PairLe(ColsKey(o, c1, c2), ColsKey(s, c1, c2))
      {
        var m :| 0 <= m < |rows| && rows[m] == s;
        if v !in seen && o == rows[0] {
          if m > 0 {
            assert PairLe(ColsKey(rows[0], c1, c2), ColsKey(rows[m], c1, c2));
          }
        } else {
          assert o in KeepFirstFrom(rest, col, seen');
          if m > 0 {
            assert s in rest;
          }
        }
      }
    }
  }

  /** `o` is the first row of `rows` holding its `col` value: no earlier row holds it. */
  ghost predicate FirstOf(rows: seq<Row>, o: Row, col: string) {
    exists j :: 0 <= j < |rows| && rows[j] == o && forall m :: 0 <= m < j ==> CellAt(rows[m], col) != CellAt(o, col)
  }

  /** The kept rows are exactly the first rows of the values not already seen. */
  lemma {:induction false} KeepFirstFromFirst(rows: seq<Row>, col: string, seen: set<Cell>)
    ensures forall o :: o in KeepFirstFrom(rows, col, seen) <==> CellAt(o, col) !in seen && FirstOf(rows, o, col)
  {
    if rows != [] {
      var v := CellAt(rows[0], col);
      var seen' := if v in seen then seen else seen + {v};
      var rest := rows[1..];
      KeepFirstFromFirst(rest, col, seen');
      forall o ensures o in KeepFirstFrom(rows, col, seen) <==> CellAt(o, col) !in seen && FirstOf(rows, o, col) {
        if o in KeepFirstFrom(rows, col, seen) {
          if v !in seen && o == rows[0] {
            assert rows[0] == o;
          } else {
            assert o in KeepFirstFrom(rest, col, seen');
            LaterFirst(rows, o, col, seen');
          }
        }
        if CellAt(o, col) !in seen && FirstOf(rows, o, col) {
          var j :| 0 <= j < |rows| && rows[j] == o && forall m :: 0 <= m < j ==> CellAt(rows[m], col) != CellAt(o, col);
          if j > 0 {
            assert rest[j - 1] == o;
            forall m | 0 <= m < j - 1 ensures CellAt(rest[m], col) != CellAt(o, col) {
              assert rest[m] == rows[m + 1];
            }
            assert FirstOf(rest, o, col);
          }
        }
      }
    }
  }

  /** The first row of a value in the tail, when the head's value is already seen and
      the row's is not, is the first row of its value in the whole sequence. */
  lemma LaterFirst(rows: seq<Row>, o: Row, col: string, seen: set<Cell>)
    requires rows != [] && CellAt(rows[0], col) in seen
    requires CellAt(o, col) !in seen && FirstOf(rows[1..], o, col)
    ensures FirstOf(rows, o, col)
  {
    var rest := rows[1..];
    var j :| 0 <= j < |rest| && rest[j] == o && forall m :: 0 <= m < j ==> CellAt(rest[m], col) != CellAt(o, col);
    assert rows[j + 1] == o;
    forall m | 0 <= m < j + 1 ensures CellAt(rows[m], col) != CellAt(o, col) {
      if m > 0 {
        assert rows[m] == rest[m - 1];
      }
    }
  }

  /** `drop_duplicates(subset=col, keep="first")`. */
  function KeepFirst(rows: seq<Row>, col: string): (r: seq<Row>)
    ensures DistinctOn(r, col)
    ensures forall o :: o in r ==> o in rows
    ensures forall o :: o in r <==> FirstOf(rows, o, col)
  {
    KeepFirstFromFirst(rows, col, {});
    KeepFirstFrom(rows, col, {})
  }

  /** Of two rows with the same value, the later one is dropped. */
  lemma KeepFirstDropsLater(x: Row, y: Row, col: string)
    requires CellAt(x, col) == CellAt(y, col)
    ensures KeepFirst([x, y], col) == [x]
  {
    var v := CellAt(x, col);
    assert [x, y][1..] == [y];
    assert KeepFirstFrom([y], col, {v}) == KeepFirstFrom([], col, {v}) by {
      assert [y][1..] == [];
    }
    assert KeepFirstFrom([x, y], col, {}) == [x] + KeepFirstFrom([y], col, {} + {v});
    assert {} + {v} == {v};
  }

  /** A check run after deduplication sees only the first row of a value: when that row
      fails, the value disappears even though a later row with it would pass. */
  lemma CheckAfterDedup(x: Row, y: Row, col: string, g: Row -> Option<Row>)
    requires CellAt(x, col) == CellAt(y, col) && g(x).None? && g(y).Some?
    ensures Sift(KeepFirst([x, y], col), g) == []
    ensures Sift([y], g) == [g(y).value]
  {
    KeepFirstDropsLater(x, y, col);
    assert [y][1..] == [];
    assert [x][1..] == [];
  }

  /** `t.drop_duplicates(subset=col, keep="first")`. */
  function DropDuplicates(t: Table, col: string): (r: Table)
    requires WellFormed(t)
    ensures WellFormed(r) && r.cols == t.cols
    ensures DistinctOn(r.rows, col)
    ensures Trace(r.rows, t.rows, {})
    ensures forall o :: o in r.rows ==> o in t.rows
    ensures forall o :: o in r.rows <==> FirstOf(t.rows, o, col)
    ensures forall i :: i in t.rows ==> exists o :: o in r.rows && CellAt(o, col) == CellAt(i, col)
  {
    KeepFirstProperties(t.rows, col);
    Table(t.cols, KeepFirst(t.rows, col))
  }

  /** Dropping duplicates keeps order and every value. */
  lemma KeepFirstProperties(rows: seq<Row>, col: string)
    ensures Trace(KeepFirst(rows, col), rows, {})
    ensures forall i :: i in rows ==> exists o :: o in KeepFirst(rows, col) && CellAt(o, col) == CellAt(i, col)
  {
    KeepFirstFromTrace(rows, col, {});
    KeepFirstFromComplete(rows, col, {});
  }

  /** After an ascending sort on (c1, c2), the row kept for a value has the least key
      among the rows holding that value. */
  lemma KeepFirstMinimal(rows: seq<Row>, col: string, c1: string, c2: string)
    requires SortedBy(rows, c1, c2)
    ensures forall o, s :: o in KeepFirst(rows, col) && s in rows && CellAt(s, col) == CellAt(o, col) ==>
      PairLe(ColsKey(o, c1, c2), ColsKey(s, c1, c2))
  {
    KeepFirstFromMinimal(rows, col, {}, c1, c2);
  }

  lemma {:induction false} KeepFirstFromDistinct(rows: seq<Row>, col: string, seen: set<Cell>)
    requires DistinctOn(rows, col)
    requires forall i :: i in rows ==> CellAt(i, col) !in seen
    ensures KeepFirstFrom(rows, col, seen) == rows
  {
    if rows != [] {
      var v := CellAt(rows[0], col);
      forall i | i in rows[1..] ensures CellAt(i, col) !in seen + {v} {
        var m :| 0 <= m < |rows[1..]| && rows[1..][m] == i;
        assert rows[m + 1] == i;
      }
      assert DistinctOn(rows[1..], col) by {
        forall i, j | 0 <= i < j < |rows[1..]| ensures CellAt(rows[1..][i], col) != CellAt(rows[1..][j], col) {
          assert rows[1..][i] == rows[i + 1] && rows[1..][j] == rows[j + 1];
        }
      }
      KeepFirstFromDistinct(rows[1..], col, seen + {v});
    }
  }

  /** Dropping duplicates twice is dropping them once. */
  lemma KeepFirstIdempotent(rows: seq<Row>, col: string)
    ensures KeepFirst(KeepFirst(rows, col), col) == KeepFirst(rows, col)
  {
    KeepFirstFromDistinct(KeepFirst(rows, col), col, {});
  }
}
