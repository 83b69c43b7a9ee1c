/** Column-level helpers of the canonicaliser: dropping all-missing columns, padding
    and ordering the canonical columns, renaming through a column map, and selecting
    the significant rows. */
module Reshape {
  import opened Wrappers
  import opened Seqs
  import opened Columns
  import opened Frame

  /** `replace('', None)` on one cell. */
  function Blank(c: Cell): Cell {
    if c == Str("") then Null else c
  }

  function BlankRow(row: Row): Row {
    map c | c in row :: Blank(row[c])
  }

  function BlankTable(t: Table): (r: Table)
    requires WellFormed(t)
    ensures WellFormed(r) && r.cols == t.cols && |r.rows| == |t.rows|
    ensures forall k :: 0 <= k < |t.rows| ==> r.rows[k] == BlankRow(t.rows[k])
  {
    var rows := seq(|t.rows|, k requires 0 <= k < |t.rows| => BlankRow(t.rows[k]));
    assert forall row :: row in rows ==> row.Keys == ColSet(t.cols) by {
      forall row | row in rows ensures row.Keys == ColSet(t.cols) {
        var k :| 0 <= k < |rows| && rows[k] == row;
        assert t.rows[k] in t.rows;
      }
    }
    Table(t.cols, rows)
  }

  /** Some row holds a value in column `c`. */
  predicate HasValue(rows: seq<Row>, c: string) {
    exists row :: row in rows && CellAt(row, c) != Null
  }

  /** The columns of `cols`, in order, that hold a value in some row. */
  function ValuedCols(rows: seq<Row>, cols: seq<string>): (r: seq<string>)
    ensures forall c :: c in r <==> c in cols && HasValue(rows, c)
    ensures Distinct(cols) ==> Distinct(r)
  {
    if cols == [] then []
    else
      var init, last := cols[..|cols| - 1], cols[|cols| - 1];
      assert cols == init + [last];
      var front := ValuedCols(rows, init);
      assert Distinct(cols) ==> Distinct(init) && last !in init by {
        if Distinct(cols) {
          forall i, j | 0 <= i < j < |init| ensures init[i] != init[j] { assert init[i] == cols[i] && init[j] == cols[j]; }
          forall i | 0 <= i < |init| ensures init[i] != last { assert init[i] == cols[i]; }
        }
      }
      if HasValue(rows, last) then
        var r := front + [last];
        assert Distinct(cols) ==> Distinct(r) by {
          if Distinct(cols) {
            forall i, j | 0 <= i < j < |r| ensures r[i] != r[j] {
              if j == |r| - 1 { assert r[i] in front; } else { assert r[i] == front[i] && r[j] == front[j]; }
            }
          }
        }
        r
      else front
  }

  lemma {:induction false} WithoutMiddle(front: seq<string>, col: string, back: seq<string>)
    requires col !in front && col !in back
    ensures Without(front + [col] + back, col) == front + back
  {
    var x := front + [col] + back;
    if front == [] {
      assert x[0] == col && x[1..] == back;
      WithoutAbsent(back, col);
    } else {
      assert x[0] == front[0] && x[1..] == front[1..] + [col] + back;
      WithoutMiddle(front[1..], col, back);
      assert front == [front[0]] + front[1..];
    }
  }

  lemma DistinctMiddle(front: seq<string>, col: string, back: seq<string>)
    requires Distinct(front + [col] + back)
    ensures col !in front && col !in back
  {
    var x := front + [col] + back;
    assert x[|front|] == col;
    forall j | 0 <= j < |front| ensures front[j] != col { assert x[j] == front[j]; }
    forall j | 0 <= j < |back| ensures back[j] != col { assert x[|front| + 1 + j] == back[j]; }
  }

  /** A column is entirely missing in `r` exactly when it has no value in `u`, when the
      two agree cell by cell on it. */
  lemma AllNullIff(r: seq<Row>, u: seq<Row>, col: string)
    requires |r| == |u| && forall k :: 0 <= k < |r| ==> CellAt(r[k], col) == CellAt(u[k], col)
    ensures AllNull(r, col) <==> !HasValue(u, col)
  {
    if exists row :: row in r && CellAt(row, col) != Null {
      var row :| row in r && CellAt(row, col) != Null;
      var k :| 0 <= k < |r| && r[k] == row;
      assert u[k] in u;
    }
    if HasValue(u, col) {
      var row :| row in u && CellAt(row, col) != Null;
      var k :| 0 <= k < |u| && u[k] == row;
      assert r[k] in r;
    }
  }

  /** Every cell of `r` is the cell of `u` at the same row and column. */
  predicate SubRows(r: seq<Row>, u: seq<Row>) {
    |r| == |u| && forall k :: 0 <= k < |r| ==> forall c :: c in r[k] ==> c in u[k] && r[k][c] == u[k][c]
  }

  lemma DropSubRows(s: Table, u: seq<Row>, col: string)
    requires WellFormed(s) && SubRows(s.rows, u)
    ensures SubRows(DropColumn(s, col).rows, u)
  {
  }

  lemma ColumnAgrees(s: Table, u: seq<Row>, col: string)
    requires WellFormed(s) && SubRows(s.rows, u) && col in s.cols
    ensures forall k :: 0 <= k < |s.rows| ==> CellAt(s.rows[k], col) == CellAt(u[k], col)
  {
    forall k | 0 <= k < |s.rows| ensures CellAt(s.rows[k], col) == CellAt(u[k], col) {
      assert s.rows[k] in s.rows;
    }
  }

  lemma ValuedStep(rows: seq<Row>, cols: seq<string>, i: nat)
    requires i < |cols|
    ensures ValuedCols(rows, cols[..i + 1]) == ValuedCols(rows, cols[..i]) + (if HasValue(rows, cols[i]) then [cols[i]] else [])
  {
    assert cols[..i + 1][..i] == cols[..i];
  }

  predicate AllNull(rows: seq<Row>, col: string) {
    forall row :: row in rows ==> CellAt(row, col) == Null
  }

  /** One step of `rm_col_allna`'s loop keeps its invariant. */
  lemma RmColStep(r: Table, u: Table, i: nat)
    requires WellFormed(r) && i < |u.cols|
    requires r.cols == ValuedCols(u.rows, u.cols[..i]) + u.cols[i..]
    requires SubRows(r.rows, u.rows)
    ensures AllNull(r.rows, u.cols[i]) ==>
      var d := DropColumn(r, u.cols[i]);
      d.cols == ValuedCols(u.rows, u.cols[..i + 1]) + u.cols[i + 1..] && SubRows(d.rows, u.rows)
    ensures !AllNull(r.rows, u.cols[i]) ==> r.cols == ValuedCols(u.rows, u.cols[..i + 1]) + u.cols[i + 1..]
  {
    var col := u.cols[i];
    var front, back := ValuedCols(u.rows, u.cols[..i]), u.cols[i + 1..];
    var next := ValuedCols(u.rows, u.cols[..i + 1]);
    ValuedStep(u.rows, u.cols, i);
    assert u.cols[i..] == [col] + back;
    assert r.cols == front + [col] + back;
    DistinctMiddle(front, col, back);
    ColumnAgrees(r, u.rows, col);
    AllNullIff(r.rows, u.rows, col);
    if AllNull(r.rows, col) {
      assert next == front;
      WithoutMiddle(front, col, back);
      DropSubRows(r, u.rows, col);
    } else {
      assert next == front + [col];
    }
  }

  /** The table `rm_col_allna` returns: blanks made missing, then only the columns that
      still hold a value, in their original order. */
  function AllNaDropped(t: Table): (r: Table)
    requires WellFormed(t)
    ensures WellFormed(r) && |r.rows| == |t.rows|
    ensures forall c :: c in r.cols <==> c in t.cols && HasValue(BlankTable(t).rows, c)
    ensures forall k, c :: 0 <= k < |r.rows| && c in r.cols ==> r.rows[k][c] == Blank(t.rows[k][c])
  {
    var cols := ValuedCols(BlankTable(t).rows, t.cols);
    var rows := seq(|t.rows|, k requires 0 <= k < |t.rows| => map c | c in cols && c in t.rows[k] :: Blank(t.rows[k][c]));
    assert forall k :: 0 <= k < |t.rows| ==> rows[k].Keys == ColSet(cols) by {
      forall k | 0 <= k < |t.rows| ensures rows[k].Keys == ColSet(cols) {
        assert t.rows[k] in t.rows;
      }
    }
    Table(cols, rows)
  }

  lemma SameRows(r: Table, s: Table)
    requires WellFormed(r) && WellFormed(s) && r.cols == s.cols && |r.rows| == |s.rows|
    requires forall k, c :: 0 <= k < |r.rows| && c in r.cols ==> r.rows[k][c] == s.rows[k][c]
    ensures r == s
  {
    forall k | 0 <= k < |r.rows| ensures r.rows[k] == s.rows[k] {
      assert r.rows[k] in r.rows && s.rows[k] in s.rows;
    }
  }

  /** `rm_col_allna`: empty strings become missing, then every column with no value
      left is dropped. An empty table loses every column. */
  method RmColAllNa(t: Table) returns (r: Table)
    requires WellFormed(t)
    ensures r == AllNaDropped(t)
    ensures WellFormed(r)
    ensures r.cols == ValuedCols(BlankTable(t).rows, t.cols)
    ensures |r.rows| == |t.rows|
    ensures forall k :: 0 <= k < |r.rows| ==> forall c :: c in r.cols ==> c in t.rows[k] && r.rows[k][c] == Blank(t.rows[k][c])
  {
    var u := BlankTable(t);
    r := u;
    var i := 0;
    assert u.cols[..0] == [] && u.cols[0..] == u.cols;
    while i < |u.cols|
      invariant 0 <= i <= |u.cols|
      invariant WellFormed(r)
      invariant r.cols == ValuedCols(u.rows, u.cols[..i]) + u.cols[i..]
      invariant SubRows(r.rows, u.rows)
    {
      RmColStep(r, u, i);
      if AllNull(r.rows, u.cols[i]) {
        r := DropColumn(r, u.cols[i]);
      }
      i := i + 1;
    }
    RmColResult(r, t, u);
  }

  /** When the loop has visited every column its table is the one `rm_col_allna` returns. */
  lemma RmColResult(r: Table, t: Table, u: Table)
    requires WellFormed(t) && u == BlankTable(t) && WellFormed(r) && SubRows(r.rows, u.rows)
    requires r.cols == ValuedCols(u.rows, u.cols[..|u.cols|]) + u.cols[|u.cols|..]
    ensures r == AllNaDropped(t)
    ensures r.cols == ValuedCols(BlankTable(t).rows, t.cols)
    ensures |r.rows| == |t.rows|
    ensures forall k :: 0 <= k < |r.rows| ==> forall c :: c in r.cols ==> c in t.rows[k] && r.rows[k][c] == Blank(t.rows[k][c])
  {
    assert u.cols[..|u.cols|] == u.cols && u.cols[|u.cols|..] == [];
    assert r.cols == ValuedCols(u.rows, t.cols);
    forall k | 0 <= k < |r.rows| ensures forall c :: c in r.cols ==> c in t.rows[k] && r.rows[k][c] == Blank(t.rows[k][c]) {
      assert r.rows[k] in r.rows && t.rows[k] in t.rows;
    }
    SameRows(r, AllNaDropped(t));
  }

  /** The canonical columns are distinct. */
  lemma OutColsDistinct()
    ensures Distinct(OUTCOLS)
  {
  }

  /** `check_colnames`: every canonical column missing from the table is added as a
      missing-valued column, then the canonical columns are taken in canonical order. */
  method CheckColnames(t: Table) returns (r: Table)
    requires WellFormed(t)
    ensures WellFormed(r) && r.cols == OUTCOLS
    ensures |r.rows| == |t.rows|
    ensures forall k :: 0 <= k < |r.rows| ==> forall c :: c in OUTCOLS ==> r.rows[k][c] == CellAt(t.rows[k], c)
  {
    var s := t;
    for i := 0 to |OUTCOLS|
      invariant WellFormed(s) && |s.rows| == |t.rows|
      invariant forall c :: c in OUTCOLS[..i] ==> c in s.cols
      invariant forall k :: 0 <= k < |s.rows| ==> forall c :: CellAt(s.rows[k], c) == CellAt(t.rows[k], c)
    {
      var col := OUTCOLS[i];
      if col !in s.cols {
        AddMissingColumn(s, col);
        s := SetColumn(s, col, MissingCell);
      }
      assert OUTCOLS[..i + 1] == OUTCOLS[..i] + [col];
    }
    assert OUTCOLS[..|OUTCOLS|] == OUTCOLS;
    ProjectedCells(s, t);
    r := Project(s, OUTCOLS);
  }

  /** The value of a column added as missing. */
  function MissingCell(row: Row): Cell {
    Null
  }

  /** A column added as missing changes the value of no column. */
  lemma AddMissingColumn(s: Table, col: string)
    requires WellFormed(s) && col !in s.cols
    ensures var s2 := SetColumn(s, col, MissingCell);
      forall k :: 0 <= k < |s2.rows| ==> forall c :: CellAt(s2.rows[k], c) == CellAt(s.rows[k], c)
  {
    var s2 := SetColumn(s, col, MissingCell);
    forall k | 0 <= k < |s2.rows| ensures forall c :: CellAt(s2.rows[k], c) == CellAt(s.rows[k], c) {
      assert s.rows[k] in s.rows;
    }
  }

  /** Taking the canonical columns of a table that has all of them keeps their values. */
  lemma ProjectedCells(s: Table, t: Table)
    requires WellFormed(s) && |s.rows| == |t.rows|
    requires forall c :: c in OUTCOLS ==> c in s.cols
    requires forall k :: 0 <= k < |s.rows| ==> forall c :: CellAt(s.rows[k], c) == CellAt(t.rows[k], c)
    ensures Distinct(OUTCOLS)
    ensures var r := Project(s, OUTCOLS);
      forall k :: 0 <= k < |r.rows| ==> forall c :: c in OUTCOLS ==> r.rows[k][c] == CellAt(t.rows[k], c)
  {
    OutColsDistinct();
    var r := Project(s, OUTCOLS);
    forall k, c | 0 <= k < |r.rows| && c in OUTCOLS ensures r.rows[k][c] == CellAt(t.rows[k], c) {
      var row := s.rows[k];
      assert row in s.rows;
      assert c in ColSet(s.cols);
      assert r.rows[k][c] == row[c] == CellAt(row, c);
    }
  }

  // ---------------------------------------------------------------------------
  // extract_cols
  // ---------------------------------------------------------------------------

  function Keys(m: seq<(string, string)>): seq<string> {
    seq(|m|, i requires 0 <= i < |m| => m[i].0)
  }

  function Values(m: seq<(string, string)>): seq<string> {
    seq(|m|, i requires 0 <= i < |m| => m[i].1)
  }

  /** The entries of the column map whose raw name is a column of the table, in map order. */
  function Present(m: seq<(string, string)>, cols: seq<string>): (r: seq<(string, string)>)
    ensures forall p :: p in r <==> p in m && p.0 in cols
    ensures Distinct(Keys(m)) ==> Distinct(Keys(r))
  {
    if m == [] then []
    else
      var rest := Present(m[1..], cols);
      assert forall p :: p in m <==> p == m[0] || p in m[1..];
      assert Distinct(Keys(m)) ==> Distinct(Keys(m[1..])) && forall p :: p in m[1..] ==> p.0 != m[0].0 by {
        if Distinct(Keys(m)) {
          forall i, j | 0 <= i < j < |m[1..]| ensures Keys(m[1..])[i] != Keys(m[1..])[j] {
            assert Keys(m[1..])[i] == Keys(m)[i + 1] && Keys(m[1..])[j] == Keys(m)[j + 1];
          }
          forall p | p in m[1..] ensures p.0 != m[0].0 {
            var j :| 0 <= j < |m[1..]| && m[1..][j] == p;
            assert Keys(m)[j + 1] == p.0 && Keys(m)[0] == m[0].0;
          }
        }
      }
      if m[0].0 in cols then
        var r := [m[0]] + rest;
        assert Distinct(Keys(m)) ==> Distinct(Keys(r)) by {
          if Distinct(Keys(m)) {
            forall i, j | 0 <= i < j < |r| ensures Keys(r)[i] != Keys(r)[j] {
              if i == 0 { assert r[j] in rest; } else { assert Keys(r)[i] == Keys(rest)[i - 1] && Keys(r)[j] == Keys(rest)[j - 1]; }
            }
          }
        }
        r
      else rest
  }

  /** Renaming through the map can only clash when a new name is already the name of a
      column the map leaves alone. */
  predicate RenameIsClean(m: seq<(string, string)>, cols: seq<string>) {
    var pm := Present(m, cols);
    Distinct(Values(pm)) && forall i :: 0 <= i < |pm| ==> pm[i].1 in cols ==> pm[i].1 in Keys(pm)
  }

  lemma ValuesTail(pm: seq<(string, string)>)
    requires pm != []
    ensures Values(pm[1..]) == Values(pm)[1..]
  {
  }

  /** One row renamed through the map and restricted to the renamed columns. */
  function RenameRow(row: Row, pm: seq<(string, string)>): (r: Row)
    requires Distinct(Values(pm))
    ensures r.Keys == ColSet(Values(pm))
    ensures forall p :: p in pm ==> p.1 in r && r[p.1] == CellAt(row, p.0)
  {
    if pm == [] then map[]
    else
      ValuesTail(pm);
      var vs := Values(pm);
      assert Distinct(vs[1..]) by {
        forall i, j | 0 <= i < j < |vs[1..]| ensures vs[1..][i] != vs[1..][j] { assert vs[1..][i] == vs[i + 1] && vs[1..][j] == vs[j + 1]; }
      }
      assert pm[0].1 !in vs[1..] by {
        forall j | 0 <= j < |vs[1..]| ensures vs[1..][j] != pm[0].1 { assert vs[1..][j] == vs[j + 1] && vs[0] == pm[0].1; }
      }
      assert forall p :: p in pm[1..] ==> p.1 in vs[1..] by {
        forall p | p in pm[1..] ensures p.1 in vs[1..] {
          var j :| 0 <= j < |pm[1..]| && pm[1..][j] == p;
          assert Values(pm[1..])[j] == p.1;
        }
      }
      assert vs == [pm[0].1] + vs[1..];
      assert forall p :: p in pm <==> p == pm[0] || p in pm[1..];
      RenameRow(row, pm[1..])[pm[0].1 := CellAt(row, pm[0].0)]
  }

  lemma InValues(p: (string, string), m: seq<(string, string)>)
    requires p in m
    ensures p.1 in Values(m)
  {
    var j :| 0 <= j < |m| && m[j] == p;
    assert Values(m)[j] == p.1;
  }

  /** The renamed and selected table before missing columns are removed. */
  function Selected(t: Table, pm: seq<(string, string)>): (r: Table)
    requires WellFormed(t) && Distinct(Values(pm))
    ensures WellFormed(r) && r.cols == Values(pm) && |r.rows| == |t.rows|
    ensures forall k, p :: 0 <= k < |t.rows| && p in pm ==> p.1 in r.rows[k] && r.rows[k][p.1] == CellAt(t.rows[k], p.0)
  {
    var rows := seq(|t.rows|, k requires 0 <= k < |t.rows| => RenameRow(t.rows[k], pm));
    Table(Values(pm), rows)
  }

  /** Two columns that agree row by row hold a value in the same circumstances. */
  lemma HasValueSame(a: seq<Row>, ca: string, b: seq<Row>, cb: string)
    requires |a| == |b| && forall k :: 0 <= k < |a| ==> CellAt(a[k], ca) == CellAt(b[k], cb)
    ensures HasValue(a, ca) <==> HasValue(b, cb)
  {
    if HasValue(a, ca) {
      var row :| row in a && CellAt(row, ca) != Null;
      var k :| 0 <= k < |a| && a[k] == row;
      assert b[k] in b;
    }
    if HasValue(b, cb) {
      var row :| row in b && CellAt(row, cb) != Null;
      var k :| 0 <= k < |b| && b[k] == row;
      assert a[k] in a;
    }
  }

  /** `extract_cols`: keep the map entries whose raw column exists, rename those columns
      to their canonical names in map order, drop everything else, then drop the
      columns left without a value. */
  method ExtractCols(t: Table, m: seq<(string, string)>) returns (r: Table)
    requires WellFormed(t) && Distinct(Keys(m)) && RenameIsClean(m, t.cols)
    ensures WellFormed(r) && |r.rows| == |t.rows|
    ensures r.cols == ValuedCols(BlankTable(Selected(t, Present(m, t.cols))).rows, Values(Present(m, t.cols)))
    ensures forall p :: p in m && p.0 in t.cols ==> (p.1 in r.cols <==> HasValue(BlankTable(t).rows, p.0))
    ensures forall c :: c in r.cols ==> c in Values(m)
    ensures forall k, p :: 0 <= k < |r.rows| && p in m && p.0 in t.cols && p.1 in r.cols ==>
      CellAt(r.rows[k], p.1) == Blank(CellAt(t.rows[k], p.0))
  {
    var pm := Present(m, t.cols);
    var s := Selected(t, pm);
    r := RmColAllNa(s);
    ExtractFacts(t, m, r);
  }

  lemma ExtractFacts(t: Table, m: seq<(string, string)>, r: Table)
    requires WellFormed(t) && Distinct(Values(Present(m, t.cols)))
    requires var s := Selected(t, Present(m, t.cols));
      && r.cols == ValuedCols(BlankTable(s).rows, s.cols) && |r.rows| == |t.rows|
      && forall k :: 0 <= k < |r.rows| ==> forall c :: c in r.cols ==> CellAt(r.rows[k], c) == Blank(CellAt(s.rows[k], c))
    ensures forall p :: p in m && p.0 in t.cols ==> (p.1 in r.cols <==> HasValue(BlankTable(t).rows, p.0))
    ensures forall c :: c in r.cols ==> c in Values(m)
    ensures forall k, p :: 0 <= k < |r.rows| && p in m && p.0 in t.cols && p.1 in r.cols ==>
      CellAt(r.rows[k], p.1) == Blank(CellAt(t.rows[k], p.0))
  {
    var pm := Present(m, t.cols);
    var s := Selected(t, pm);
    var bs, bt := BlankTable(s), BlankTable(t);
    forall p | p in pm ensures p.1 in r.cols <==> HasValue(bt.rows, p.0) {
      forall k | 0 <= k < |bs.rows| ensures CellAt(bs.rows[k], p.1) == CellAt(bt.rows[k], p.0) {
        assert s.rows[k] in s.rows && t.rows[k] in t.rows;
      }
      HasValueSame(bs.rows, p.1, bt.rows, p.0);
      InValues(p, pm);
    }
    forall c | c in r.cols ensures c in Values(m) {
      var i :| 0 <= i < |pm| && Values(pm)[i] == c;
      InValues(pm[i], m);
    }
    forall k, p | 0 <= k < |r.rows| && p in m && p.0 in t.cols && p.1 in r.cols
      ensures CellAt(r.rows[k], p.1) == Blank(CellAt(t.rows[k], p.0))
    {
      assert p in pm;
    }
  }

  // ---------------------------------------------------------------------------
  // get_sigdf
  // ---------------------------------------------------------------------------

  /** The default genome-wide significance threshold. */
  const GENOME_WIDE: real := 0.00000005

  /** `get_sigdf`: the rows whose p-value is below the threshold. A missing P column
      raises, and so does text in it, which Python cannot compare with a float. */
  function GetSigdf(t: Table, pval: real): (r: Result<Table>)
    requires WellFormed(t)
    ensures r.Failure? <==> P !in t.cols || exists row :: row in t.rows && CellAt(row, P).Str?
    ensures r.Success? ==> WellFormed(r.value) && r.value.cols == t.cols
    ensures r.Success? ==> forall o :: o in r.value.rows ==> o in t.rows && CellAt(o, P).Num? && CellAt(o, P).v < pval
    ensures r.Success? ==> forall i :: i in t.rows && CellAt(i, P).Num? && CellAt(i, P).v < pval ==> i in r.value.rows
    ensures r.Success? ==> Trace(r.value.rows, t.rows, {})
  {
    if P !in t.cols then Failure("Missing P column.")
    else if exists row :: row in t.rows && CellAt(row, P).Str? then Failure("'<' not supported between instances of 'str' and 'float'")
    else Success(Where(t, row => CellAt(row, P).Num? && CellAt(row, P).v < pval))
  }
}
