/** `munge` as a whole: the stages run in the order the canonicaliser runs them, and
    what the finished table promises about its rows and columns. */
module Pipeline {
  import opened Wrappers
  import opened Columns
  import opened Frame
  import opened Validate
  import opened SnpId
  import opened Reshape
  import opened Stages

  /** The message of the `ValueError` raised when a key column is missing. */
  const MISSING_CORE := "Missing CHR, BP, EA or NEA column."

  /** Every key column holds at least one value. */
  predicate CoreSupplied(t: Table)
    requires WellFormed(t)
  {
    Supplied(t, CHR) && Supplied(t, BP) && Supplied(t, EA) && Supplied(t, NEA)
  }

  /** OR and ORSE stand in for a missing BETA and SE pair. */
  predicate OddsSupplied(t: Table)
    requires WellFormed(t)
  {
    !(Supplied(t, BETA) && Supplied(t, SE)) && Supplied(t, OR) && Supplied(t, ORSE)
  }

  /** Output column `c` is filled from the input: supplied itself, or derived from a
      supplied column (P from NEGLOGP, BETA and SE from OR and ORSE, MAF from EAF). */
  predicate Populated(t: Table, c: string)
    requires WellFormed(t)
  {
    || Supplied(t, c)
    || (c == P && Supplied(t, NEGLOGP))
    || ((c == BETA || c == SE) && OddsSupplied(t))
    || (c == MAF && Supplied(t, EAF))
  }

  /** The validated, keyed rows in p-value order: the candidates among which one row per
      variant is chosen. */
  function Ranked(nums: Numerics, t: Table): Table
    requires WellFormed(t) && CoreSupplied(t)
  {
    RankByP(nums, KeyedTable(nums, AllNaDropped(t)))
  }

  /** The columns `munge` rewrites after choosing one row per variant. */
  const LATE: set<string> := {BETA, SE, OR, ORSE, Z, EAF, MAF}

  /** `check_colnames` copied every output cell from the row at the same position. */
  ghost predicate SameOutCells(out: seq<Row>, f: seq<Row>) {
    |out| == |f| && forall k, c :: 0 <= k < |f| && c in OUTCOLS ==> CellAt(out[k], c) == CellAt(f[k], c)
  }

  /** The row-level form of the stages after deduplication: effect sizes, then Z and the
      frequencies, each switched on by the columns the input supplies. */
  function LateCheck(nums: Numerics, t: Table): Row -> Option<Row>
    requires WellFormed(t)
  {
    Then(EffectCheck(nums, Supplied(t, BETA) && Supplied(t, SE), Supplied(t, OR) && Supplied(t, ORSE)),
         FreqCheck(nums, Supplied(t, Z), Supplied(t, EAF), Supplied(t, MAF)))
  }

  /** The output row `check_colnames` makes of a row: the output columns, missing ones blank. */
  function OutRow(y: Row): Row {
    map c | c in ColSet(OUTCOLS) :: CellAt(y, c)
  }

  /** `o` is what `munge` emits for some variant: the first ranked row with that variant's
      key, passed through the late checks and cut to the output columns. */
  ghost predicate Emitted(nums: Numerics, t: Table, o: Row)
    requires WellFormed(t) && CoreSupplied(t)
  {
    exists x :: FirstOf(Ranked(nums, t).rows, x, SNPID) && LateCheck(nums, t)(x).Some? && o == OutRow(LateCheck(nums, t)(x).value)
  }

  /** Output row `o` comes from input row `i` (after blank cells became missing): `i` passed
      the key-column checks, `o` holds their cleaned values, and RSID is copied unchanged. */
  ghost predicate FromInput(nums: Numerics, o: Row, i: Row) {
    && CHR in i && BP in i && EA in i && NEA in i
    && ChrCell(nums, i[CHR]).Some? && BpCell(nums, i[BP]).Some?
    && AlleleCell(i[EA]).Some? && AlleleCell(i[NEA]).Some? && AlleleCell(i[EA]) != AlleleCell(i[NEA])
    && CellAt(o, CHR) == ChrCell(nums, i[CHR]).value && CellAt(o, BP) == BpCell(nums, i[BP]).value
    && CellAt(o, EA) == AlleleCell(i[EA]).value && CellAt(o, NEA) == AlleleCell(i[NEA]).value
    && CellAt(o, RSID) == CellAt(i, RSID)
  }

  /** `munge`. */
  method Munge(nums: Numerics, t: Table) returns (r: Result<Table>)
    requires WellFormed(t)
    ensures r.Failure? <==> !CoreSupplied(t)
    ensures r.Failure? ==> r.error == MISSING_CORE
    ensures r.Success? ==> WellFormed(r.value) && r.value.cols == OUTCOLS
    ensures r.Success? ==> forall o :: o in r.value.rows ==> Canonical(o) && o[EA] != o[NEA]
    ensures r.Success? ==> SortedBy(r.value.rows, CHR, BP)
    ensures r.Success? ==> forall i, j :: 0 <= i < j < |r.value.rows| ==> !SameVariant(r.value.rows[i], r.value.rows[j])
    ensures r.Success? && Supplied(t, P) ==> forall o :: o in r.value.rows ==> IsPvalue(CellAt(o, P))
    ensures r.Success? && Supplied(t, P) ==>
      forall o, x :: o in r.value.rows && x in Ranked(nums, t).rows && SameVariant(o, x) ==>
        RealOf(CellAt(o, P)) <= RealOf(CellAt(x, P))
    ensures r.Success? && !Supplied(t, P) && Supplied(t, NEGLOGP) ==>
      forall o :: o in r.value.rows ==> exists x :: NEGLOGP_MIN < x && CellAt(o, P) == Num(nums.pow10neg(x))
    ensures r.Success? && ((Supplied(t, BETA) && Supplied(t, SE)) || (Supplied(t, OR) && Supplied(t, ORSE))) ==>
      forall o :: o in r.value.rows ==> IsNumber(CellAt(o, BETA)) && IsSe(CellAt(o, SE))
    ensures r.Success? && Supplied(t, EAF) ==>
      forall o :: o in r.value.rows ==> IsEaf(CellAt(o, EAF)) && CellAt(o, MAF) == Num(Fold(RealOf(CellAt(o, EAF))))
    ensures r.Success? && (Supplied(t, EAF) || Supplied(t, MAF)) ==>
      forall o :: o in r.value.rows ==> IsMaf(CellAt(o, MAF))
    ensures r.Success? ==> forall o, c :: o in r.value.rows && c in OUTCOLS && !Populated(t, c) ==> CellAt(o, c) == Null
    ensures r.Success? ==> forall o :: o in r.value.rows <==> Emitted(nums, t, o)
    ensures r.Success? ==> forall o :: o in r.value.rows ==> exists i :: i in AllNaDropped(t).rows && FromInput(nums, o, i)
  {
    var u := RmColAllNa(t);
    if !(CHR in u.cols && BP in u.cols && EA in u.cols && NEA in u.cols) {
      assert !CoreSupplied(t);
      return Failure(MISSING_CORE);
    }
    var f, out := RunStages(nums, u);
    r := Success(out);
    Promises(nums, t, u, f, out);
    PromisesCells(nums, t, u, f, out);
  }

  /** What `munge` promises of the variants in the table `check_colnames` returns. */
  lemma Promises(nums: Numerics, t: Table, u: Table, f: Table, out: Table)
    requires WellFormed(t) && u == AllNaDropped(t) && CHR in u.cols && BP in u.cols && EA in u.cols && NEA in u.cols
    requires f == Frequencies(nums, Effects(nums, Deduplicated(RankByP(nums, KeyedTable(nums, u)))))
    requires Checked(f, out) && OutOf(out.rows, f.rows)
    ensures CoreSupplied(t)
    ensures forall o :: o in out.rows ==> Canonical(o) && o[EA] != o[NEA]
    ensures SortedBy(out.rows, CHR, BP)
    ensures forall i, j :: 0 <= i < j < |out.rows| ==> !SameVariant(out.rows[i], out.rows[j])
    ensures forall o :: o in out.rows <==> Emitted(nums, t, o)
    ensures forall o :: o in out.rows ==> exists i :: i in AllNaDropped(t).rows && FromInput(nums, o, i)
  {
    var k := KeyedTable(nums, u);
    var s := RankByP(nums, k);
    var d := Deduplicated(s);
    var e := Effects(nums, d);
    assert Pipelined(nums, t, u, k, s, d, e, f);
    PromiseKeys(nums, t, u, k, s, d, e, f, out);
  }

  /** What `munge` promises of the cells in the table `check_colnames` returns. */
  lemma PromisesCells(nums: Numerics, t: Table, u: Table, f: Table, out: Table)
    requires WellFormed(t) && u == AllNaDropped(t) && CHR in u.cols && BP in u.cols && EA in u.cols && NEA in u.cols
    requires f == Frequencies(nums, Effects(nums, Deduplicated(RankByP(nums, KeyedTable(nums, u)))))
    requires Checked(f, out)
    ensures CoreSupplied(t)
    ensures Supplied(t, P) ==> forall o :: o in out.rows ==> IsPvalue(CellAt(o, P))
    ensures Supplied(t, P) ==>
      forall o, x :: o in out.rows && x in Ranked(nums, t).rows && SameVariant(o, x) ==>
        RealOf(CellAt(o, P)) <= RealOf(CellAt(x, P))
    ensures !Supplied(t, P) && Supplied(t, NEGLOGP) ==>
      forall o :: o in out.rows ==> exists x :: NEGLOGP_MIN < x && CellAt(o, P) == Num(nums.pow10neg(x))
    ensures (Supplied(t, BETA) && Supplied(t, SE)) || (Supplied(t, OR) && Supplied(t, ORSE)) ==>
      forall o :: o in out.rows ==> IsNumber(CellAt(o, BETA)) && IsSe(CellAt(o, SE))
    ensures Supplied(t, EAF) ==>
      forall o :: o in out.rows ==> IsEaf(CellAt(o, EAF)) && CellAt(o, MAF) == Num(Fold(RealOf(CellAt(o, EAF))))
    ensures Supplied(t, EAF) || Supplied(t, MAF) ==> forall o :: o in out.rows ==> IsMaf(CellAt(o, MAF))
    ensures forall o, c :: o in out.rows && c in OUTCOLS && !Populated(t, c) ==> CellAt(o, c) == Null
  {
    var k := KeyedTable(nums, u);
    var s := RankByP(nums, k);
    var d := Deduplicated(s);
    var e := Effects(nums, d);
    assert Pipelined(nums, t, u, k, s, d, e, f);
    PromiseCells(nums, t, u, k, s, d, e, f, out);
  }

  /** The stages of `munge` after dropping the empty columns: the key-column validators,
      keying, ranking, deduplication, effect sizes, frequencies and `check_colnames`. */
  method RunStages(nums: Numerics, u: Table) returns (f: Table, out: Table)
    requires WellFormed(u) && CHR in u.cols && BP in u.cols && EA in u.cols && NEA in u.cols
    ensures f == Frequencies(nums, Effects(nums, Deduplicated(RankByP(nums, KeyedTable(nums, u)))))
    ensures Checked(f, out) && OutOf(out.rows, f.rows)
  {
    var a := MungeChr(nums, u);
    var b := MungeBp(nums, a);
    var c := MungeAllele(b);
    assert c == Validated(nums, u);
    KeyedRows(nums, c);
    var k := MakeSnpIdUnique(nums, c);
    assert k == KeyedTable(nums, u);
    var s := RankByP(nums, k);
    var d := Deduplicated(s);
    var e := Effects(nums, d);
    f := Frequencies(nums, e);
    out := CheckColnames(f);
    OutCells(f, out);
    OutRows(f, out);
  }

  /** What `munge` promises about the variants it keeps. */
  lemma PromiseKeys(nums: Numerics, t: Table, u: Table, k: Table, s: Table, d: Table, e: Table, f: Table, out: Table)
    requires Pipelined(nums, t, u, k, s, d, e, f) && Checked(f, out) && OutOf(out.rows, f.rows)
    ensures CoreSupplied(t)
    ensures forall o :: o in out.rows ==> Canonical(o) && o[EA] != o[NEA]
    ensures SortedBy(out.rows, CHR, BP)
    ensures forall i, j :: 0 <= i < j < |out.rows| ==> !SameVariant(out.rows[i], out.rows[j])
    ensures forall o :: o in out.rows <==> Emitted(nums, t, o)
    ensures forall o :: o in out.rows ==> exists i :: i in AllNaDropped(t).rows && FromInput(nums, o, i)
  {
    PromiseVariants(nums, t, u, k, s, d, e, f, out);
    PromiseRows(nums, t, u, k, s, d, e, f, out);
    PromiseInput(nums, t, u, k, s, d, e, f, out);
  }

  /** What `munge` promises about the cells of the rows it keeps. */
  lemma PromiseCells(nums: Numerics, t: Table, u: Table, k: Table, s: Table, d: Table, e: Table, f: Table, out: Table)
    requires Pipelined(nums, t, u, k, s, d, e, f) && Checked(f, out)
    ensures CoreSupplied(t)
    ensures Supplied(t, P) ==> forall o :: o in out.rows ==> IsPvalue(CellAt(o, P))
    ensures Supplied(t, P) ==>
      forall o, x :: o in out.rows && x in Ranked(nums, t).rows && SameVariant(o, x) ==>
        RealOf(CellAt(o, P)) <= RealOf(CellAt(x, P))
    ensures !Supplied(t, P) && Supplied(t, NEGLOGP) ==>
      forall o :: o in out.rows ==> exists x :: NEGLOGP_MIN < x && CellAt(o, P) == Num(nums.pow10neg(x))
    ensures (Supplied(t, BETA) && Supplied(t, SE)) || (Supplied(t, OR) && Supplied(t, ORSE)) ==>
      forall o :: o in out.rows ==> IsNumber(CellAt(o, BETA)) && IsSe(CellAt(o, SE))
    ensures Supplied(t, EAF) ==>
      forall o :: o in out.rows ==> IsEaf(CellAt(o, EAF)) && CellAt(o, MAF) == Num(Fold(RealOf(CellAt(o, EAF))))
    ensures Supplied(t, EAF) || Supplied(t, MAF) ==> forall o :: o in out.rows ==> IsMaf(CellAt(o, MAF))
    ensures forall o, c :: o in out.rows && c in OUTCOLS && !Populated(t, c) ==> CellAt(o, c) == Null
  {
    DedupStage(nums, t, u, k, s, d);
    PromiseColumns(nums, t, d, e, f, out);
    PromisePvalue(nums, t, u, k, s, d, e, f, out);
    PromiseNeglogp(nums, t, u, k, s, d, e, f, out);
    PromiseEffects(nums, t, d, e, f, out);
    PromiseFrequencies(nums, t, d, e, f, out);
  }

  /** `check_colnames` made each output row from the row at the same position. */
  ghost predicate OutOf(out: seq<Row>, f: seq<Row>) {
    |out| == |f| && forall m :: 0 <= m < |f| ==> out[m] == OutRow(f[m])
  }

  lemma OutRows(f: Table, out: Table)
    requires WellFormed(out) && out.cols == OUTCOLS && |out.rows| == |f.rows|
    requires forall k :: 0 <= k < |out.rows| ==> forall c :: c in OUTCOLS ==> out.rows[k][c] == CellAt(f.rows[k], c)
    ensures OutOf(out.rows, f.rows)
  {
    forall m | 0 <= m < |f.rows| ensures out.rows[m] == OutRow(f.rows[m]) {
      assert out.rows[m] in out.rows;
    }
  }

  /** The output holds exactly the emitted rows: every variant whose first ranked row passes
      the late checks appears, and nothing else does. */
  lemma PromiseRows(nums: Numerics, t: Table, u: Table, k: Table, s: Table, d: Table, e: Table, f: Table, out: Table)
    requires Pipelined(nums, t, u, k, s, d, e, f) && OutOf(out.rows, f.rows)
    ensures CoreSupplied(t)
    ensures forall o :: o in out.rows <==> Emitted(nums, t, o)
  {
    DedupStage(nums, t, u, k, s, d);
    RankedIs(nums, t, u, k, s);
    LateRows(nums, t, d, e, f);
    EmittedRows(nums, t, s.rows, d.rows, f.rows, out.rows);
  }

  lemma EmittedRows(nums: Numerics, t: Table, s: seq<Row>, d: seq<Row>, f: seq<Row>, out: seq<Row>)
    requires WellFormed(t) && CoreSupplied(t) && s == Ranked(nums, t).rows
    requires forall o :: o in d <==> FirstOf(s, o, SNPID)
    requires f == Sift(d, LateCheck(nums, t)) && OutOf(out, f)
    ensures forall o :: o in out <==> Emitted(nums, t, o)
  {
    FirstRowsOut(s, d, f, out, LateCheck(nums, t));
  }

  /** Output rows made from the first row of each key that `g` accepts. */
  lemma FirstRowsOut(s: seq<Row>, d: seq<Row>, f: seq<Row>, out: seq<Row>, g: Row -> Option<Row>)
    requires forall o :: o in d <==> FirstOf(s, o, SNPID)
    requires f == Sift(d, g) && OutOf(out, f)
    ensures forall o :: o in out <==> exists x :: FirstOf(s, x, SNPID) && g(x).Some? && o == OutRow(g(x).value)
  {
    SiftMembers(d, g);
    forall o ensures o in out <==> exists x :: FirstOf(s, x, SNPID) && g(x).Some? && o == OutRow(g(x).value) {
      if o in out {
        var m :| 0 <= m < |out| && out[m] == o;
        assert f[m] in f;
        var x :| x in d && g(x) == Some(f[m]);
        assert FirstOf(s, x, SNPID);
      }
      if exists x :: FirstOf(s, x, SNPID) && g(x).Some? && o == OutRow(g(x).value) {
        var x :| FirstOf(s, x, SNPID) && g(x).Some? && o == OutRow(g(x).value);
        assert x in d;
        var m :| 0 <= m < |f| && f[m] == g(x).value;
        assert out[m] == o;
      }
    }
  }

  /** The late stages applied to the deduplicated table are `LateCheck` applied row by row. */
  lemma LateRows(nums: Numerics, t: Table, d: Table, e: Table, f: Table)
    requires WellFormed(t) && WellFormed(d) && DedupColumns(t, d)
    requires e == Effects(nums, d) && f == Frequencies(nums, e)
    ensures f.rows == Sift(d.rows, LateCheck(nums, t))
  {
    LateFlags(t, d, e);
    EffectsSifted(nums, d);
    FrequenciesSifted(nums, e);
    LateSift(nums, t, d.rows, e.rows, f.rows);
  }

  lemma LateSift(nums: Numerics, t: Table, d: seq<Row>, e: seq<Row>, f: seq<Row>)
    requires WellFormed(t)
    requires e == Sift(d, EffectCheck(nums, Supplied(t, BETA) && Supplied(t, SE), Supplied(t, OR) && Supplied(t, ORSE)))
    requires f == Sift(e, FreqCheck(nums, Supplied(t, Z), Supplied(t, EAF), Supplied(t, MAF)))
    ensures f == Sift(d, LateCheck(nums, t))
  {
    SiftThen(d, EffectCheck(nums, Supplied(t, BETA) && Supplied(t, SE), Supplied(t, OR) && Supplied(t, ORSE)),
             FreqCheck(nums, Supplied(t, Z), Supplied(t, EAF), Supplied(t, MAF)));
  }

  /** Which late stages run is decided by the columns the input supplies. */
  lemma LateFlags(t: Table, d: Table, e: Table)
    requires WellFormed(t) && DedupColumns(t, d)
    requires forall c :: c in e.cols <==>
      if UsesOdds(d) then (c in d.cols && c != OR && c != ORSE) || c == BETA || c == SE else c in d.cols
    ensures (BETA in d.cols && SE in d.cols) == (Supplied(t, BETA) && Supplied(t, SE))
    ensures (OR in d.cols && ORSE in d.cols) == (Supplied(t, OR) && Supplied(t, ORSE))
    ensures (Z in e.cols) == Supplied(t, Z) && (EAF in e.cols) == Supplied(t, EAF) && (MAF in e.cols) == Supplied(t, MAF)
  {
    LateColsDistinct();
    assert Z in e.cols <==> Z in d.cols;
    assert EAF in e.cols <==> EAF in d.cols;
    assert MAF in e.cols <==> MAF in d.cols;
  }

  lemma LateColsDistinct()
    ensures BETA != SNPID && BETA != P && SE != SNPID && SE != P && OR != SNPID && OR != P && ORSE != SNPID && ORSE != P
    ensures Z != SNPID && Z != P && Z != OR && Z != ORSE && Z != BETA && Z != SE
    ensures EAF != SNPID && EAF != P && EAF != OR && EAF != ORSE && EAF != BETA && EAF != SE
    ensures MAF != SNPID && MAF != P && MAF != OR && MAF != ORSE && MAF != BETA && MAF != SE
  {
  }

  /** Every output row comes from an input row that passed the key-column checks. */
  lemma PromiseInput(nums: Numerics, t: Table, u: Table, k: Table, s: Table, d: Table, e: Table, f: Table, out: Table)
    requires Pipelined(nums, t, u, k, s, d, e, f) && OutOf(out.rows, f.rows)
    ensures forall o :: o in out.rows ==> exists i :: i in AllNaDropped(t).rows && FromInput(nums, o, i)
  {
    LateTrace(d.rows, e.rows, f.rows);
    KeyedTableSifted(nums, u);
    InputRows(nums, u.rows, k.rows, s.rows, d.rows, f.rows, out.rows);
  }

  lemma InputRows(nums: Numerics, u: seq<Row>, k: seq<Row>, s: seq<Row>, d: seq<Row>, f: seq<Row>, out: seq<Row>)
    requires k == Sift(u, Then(EarlyCheck(nums), KeyCheck(nums)))
    requires Derived(s, k, {P, NEGLOGP}) && (forall o :: o in d ==> o in s)
    requires Trace(f, d, LATE) && OutOf(out, f)
    ensures forall o :: o in out ==> exists i :: i in u && FromInput(nums, o, i)
  {
    TraceDerived(f, d, LATE);
    SiftMembers(u, Then(EarlyCheck(nums), KeyCheck(nums)));
    forall o | o in out ensures exists i :: i in u && FromInput(nums, o, i) {
      var m :| 0 <= m < |out| && out[m] == o;
      assert f[m] in f;
      var y :| y in d && AgreeExcept(f[m], y, LATE);
      assert y in s;
      var z :| z in k && AgreeExcept(y, z, {P, NEGLOGP});
      var i :| i in u && Then(EarlyCheck(nums), KeyCheck(nums))(i) == Some(z);
      EarlyFromInput(nums, i, z);
      OutKeepsInput(nums, o, f[m], y, z, i);
    }
  }

  /** A keyed row is an input row's checked key cells with the key added. */
  lemma EarlyFromInput(nums: Numerics, i: Row, z: Row)
    requires Then(EarlyCheck(nums), KeyCheck(nums))(i) == Some(z)
    ensures FromInput(nums, z, i)
  {
    EarlyCells(nums, i);
    var v := EarlyCheck(nums)(i).value;
    KeyAdded(nums, i, z);
    KeyNotChecked();
    UpdatedCells(v, SNPID, KeyCell(nums)(v), z);
    CheckedCells(i, ChrCell(nums, i[CHR]).value, BpCell(nums, i[BP]).value, AlleleCell(i[EA]).value, AlleleCell(i[NEA]).value, v);
  }

  lemma KeyAdded(nums: Numerics, i: Row, z: Row)
    requires Then(EarlyCheck(nums), KeyCheck(nums))(i) == Some(z)
    ensures EarlyCheck(nums)(i).Some? && z == EarlyCheck(nums)(i).value[SNPID := KeyCell(nums)(EarlyCheck(nums)(i).value)]
  {
  }

  /** Writing a column other than the key columns and RSID leaves those cells alone. */
  lemma UpdatedCells(v: Row, c: string, w: Cell, z: Row)
    requires z == v[c := w] && c != CHR && c != BP && c != EA && c != NEA && c != RSID
    ensures CellAt(z, CHR) == CellAt(v, CHR) && CellAt(z, BP) == CellAt(v, BP) && CellAt(z, RSID) == CellAt(v, RSID)
    ensures CellAt(z, EA) == CellAt(v, EA) && CellAt(z, NEA) == CellAt(v, NEA)
  {
  }

  /** The row the key-column checks leave: the four checked cells, RSID unchanged. */
  lemma CheckedCells(i: Row, chr: Cell, bp: Cell, ea: Cell, nea: Cell, v: Row)
    requires v == i[CHR := chr][BP := bp][EA := ea][NEA := nea]
    ensures CellAt(v, CHR) == chr && CellAt(v, BP) == bp && CellAt(v, EA) == ea && CellAt(v, NEA) == nea
    ensures CellAt(v, RSID) == CellAt(i, RSID)
  {
    KeyNotChecked();
    KeyColsDistinct();
  }

  lemma KeyColsDistinct()
    ensures CHR != BP && CHR != EA && CHR != NEA && BP != EA && BP != NEA && EA != NEA
  {
  }

  lemma KeyNotChecked()
    ensures SNPID != CHR && SNPID != BP && SNPID != EA && SNPID != NEA && SNPID != RSID
    ensures RSID != CHR && RSID != BP && RSID != EA && RSID != NEA
  {
  }

  /** The key cells and RSID survive ranking, the late stages and `check_colnames`. */
  lemma OutKeepsInput(nums: Numerics, o: Row, x: Row, y: Row, z: Row, i: Row)
    requires FromInput(nums, z, i) && AgreeExcept(y, z, {P, NEGLOGP}) && AgreeExcept(x, y, LATE)
    requires o == OutRow(x)
    ensures FromInput(nums, o, i)
  {
    SameKeyCells(o, x, y, z);
  }

  lemma SameKeyCells(o: Row, x: Row, y: Row, z: Row)
    requires AgreeExcept(y, z, {P, NEGLOGP}) && AgreeExcept(x, y, LATE) && o == OutRow(x)
    ensures CellAt(o, CHR) == CellAt(z, CHR) && CellAt(o, BP) == CellAt(z, BP) && CellAt(o, RSID) == CellAt(z, RSID)
    ensures CellAt(o, EA) == CellAt(z, EA) && CellAt(o, NEA) == CellAt(z, NEA)
  {
    KeyColsOut();
    SameKeyCell(o, x, y, z, CHR);
    SameKeyCell(o, x, y, z, BP);
    SameKeyCell(o, x, y, z, RSID);
    SameKeyCell(o, x, y, z, EA);
    SameKeyCell(o, x, y, z, NEA);
  }

  /** The key columns and RSID are output columns that no later stage rewrites. */
  lemma KeyColsOut()
    ensures CHR in OUTCOLS && CHR !in LATE && CHR != P
    ensures BP in OUTCOLS && BP !in LATE && BP != P
    ensures RSID in OUTCOLS && RSID !in LATE && RSID != P
    ensures EA in OUTCOLS && EA !in LATE && EA != P
    ensures NEA in OUTCOLS && NEA !in LATE && NEA != P
  {
  }

  lemma SameKeyCell(o: Row, x: Row, y: Row, z: Row, c: string)
    requires AgreeExcept(y, z, {P, NEGLOGP}) && AgreeExcept(x, y, LATE) && o == OutRow(x)
    requires c in OUTCOLS && c !in LATE && c != P
    ensures CellAt(o, c) == CellAt(z, c)
  {
    assert c in ColSet(OUTCOLS);
  }

  /** The ranked rows are the input rows that pass the key-column checks and the p-value
      check, keyed; with no p-value column they keep the input order, so the first row of a
      variant is its first valid row in the input. */
  lemma RankedRows(nums: Numerics, t: Table)
    requires WellFormed(t) && CoreSupplied(t)
    ensures multiset(Ranked(nums, t).rows) ==
      multiset(Sift(AllNaDropped(t).rows, Then(Then(EarlyCheck(nums), KeyCheck(nums)), RankCheck(nums, Supplied(t, P), Supplied(t, NEGLOGP)))))
    ensures !Supplied(t, P) && !Supplied(t, NEGLOGP) ==>
      Ranked(nums, t).rows == Sift(AllNaDropped(t).rows, Then(EarlyCheck(nums), KeyCheck(nums)))
  {
    var u := AllNaDropped(t);
    var k := KeyedTable(nums, u);
    RankFlags(t, u, k);
    KeyedTableSifted(nums, u);
    RankByPSifted(nums, k);
    RankSift(nums, t, u.rows, k.rows, Ranked(nums, t).rows);
  }

  lemma RankFlags(t: Table, u: Table, k: Table)
    requires WellFormed(t)
    requires forall c :: c in u.cols <==> Supplied(t, c)
    requires forall c :: c in k.cols <==> c == SNPID || c in u.cols
    ensures (P in k.cols) == Supplied(t, P) && (NEGLOGP in k.cols) == Supplied(t, NEGLOGP)
  {
    RankColsDistinct();
  }

  lemma RankColsDistinct()
    ensures P != SNPID && NEGLOGP != SNPID
  {
  }

  lemma RankSift(nums: Numerics, t: Table, u: seq<Row>, k: seq<Row>, s: seq<Row>)
    requires WellFormed(t)
    requires k == Sift(u, Then(EarlyCheck(nums), KeyCheck(nums)))
    requires multiset(s) == multiset(Sift(k, RankCheck(nums, Supplied(t, P), Supplied(t, NEGLOGP))))
    requires !Supplied(t, P) && !Supplied(t, NEGLOGP) ==> s == k
    ensures multiset(s) == multiset(Sift(u, Then(Then(EarlyCheck(nums), KeyCheck(nums)), RankCheck(nums, Supplied(t, P), Supplied(t, NEGLOGP)))))
    ensures !Supplied(t, P) && !Supplied(t, NEGLOGP) ==> s == Sift(u, Then(EarlyCheck(nums), KeyCheck(nums)))
  {
    SiftThen(u, Then(EarlyCheck(nums), KeyCheck(nums)), RankCheck(nums, Supplied(t, P), Supplied(t, NEGLOGP)));
  }

  /** The tables `munge` passes through, from the input to the one `check_colnames` reads. */
  ghost predicate Pipelined(nums: Numerics, t: Table, u: Table, k: Table, s: Table, d: Table, e: Table, f: Table) {
    && WellFormed(t) && u == AllNaDropped(t) && CHR in u.cols && BP in u.cols && EA in u.cols && NEA in u.cols
    && k == KeyedTable(nums, u) && s == RankByP(nums, k) && d == Deduplicated(s)
    && e == Effects(nums, d) && f == Frequencies(nums, e)
  }

  /** The columns that reach the deduplicated table `d`: the supplied ones, with P also
      standing for a supplied NEGLOGP (SNPID is added by keying). */
  ghost predicate DedupColumns(t: Table, d: Table)
    requires WellFormed(t)
  {
    && (forall c :: c != SNPID && c != P ==> (c in d.cols <==> Supplied(t, c)))
    && (P in d.cols <==> Supplied(t, P) || Supplied(t, NEGLOGP))
  }

  /** The tables after deduplication: which columns reach it. */
  lemma DedupStage(nums: Numerics, t: Table, u: Table, k: Table, s: Table, d: Table)
    requires WellFormed(t) && u == AllNaDropped(t) && CHR in u.cols && BP in u.cols && EA in u.cols && NEA in u.cols
    requires k == KeyedTable(nums, u) && s == RankByP(nums, k) && d == Deduplicated(s)
    ensures WellFormed(d) && DedupColumns(t, d)
  {
    ColumnsKeyed(t, u, k, s, d);
  }

  /** The late stages: effect sizes and frequencies applied to the deduplicated table. */
  ghost predicate LateStages(nums: Numerics, t: Table, d: Table, e: Table, f: Table) {
    && WellFormed(t) && WellFormed(d) && DedupColumns(t, d)
    && e == Effects(nums, d) && f == Frequencies(nums, e)
  }

  /** `check_colnames` turned `f` into `out`. */
  ghost predicate Checked(f: Table, out: Table) {
    WellFormed(out) && out.cols == OUTCOLS && SameOutCells(out.rows, f.rows)
  }

  lemma PromiseVariants(nums: Numerics, t: Table, u: Table, k: Table, s: Table, d: Table, e: Table, f: Table, out: Table)
    requires Pipelined(nums, t, u, k, s, d, e, f) && Checked(f, out)
    ensures forall o :: o in out.rows ==> Canonical(o) && o[EA] != o[NEA]
    ensures SortedBy(out.rows, CHR, BP)
    ensures forall i, j :: 0 <= i < j < |out.rows| ==> !SameVariant(out.rows[i], out.rows[j])
  {
    LateTrace(d.rows, e.rows, f.rows);
    RowsKeyed(nums, k.rows, s.rows, d.rows, f.rows);
    assert forall o :: o in out.rows ==> o.Keys == ColSet(OUTCOLS);
    OutVariants(nums, f.rows, out.rows);
  }

  lemma PromiseColumns(nums: Numerics, t: Table, d: Table, e: Table, f: Table, out: Table)
    requires LateStages(nums, t, d, e, f) && Checked(f, out)
    ensures forall o, c :: o in out.rows && c in OUTCOLS && !Populated(t, c) ==> CellAt(o, c) == Null
  {
    OddsBranch(t, d);
    ColumnsLate(t, d, e, f);
    AbsentNull(t, f, out);
  }

  lemma PromisePvalue(nums: Numerics, t: Table, u: Table, k: Table, s: Table, d: Table, e: Table, f: Table, out: Table)
    requires Pipelined(nums, t, u, k, s, d, e, f) && Checked(f, out)
    ensures CoreSupplied(t)
    ensures Supplied(t, P) ==> forall o :: o in out.rows ==> IsPvalue(CellAt(o, P))
    ensures Supplied(t, P) ==>
      forall o, x :: o in out.rows && x in Ranked(nums, t).rows && SameVariant(o, x) ==>
        RealOf(CellAt(o, P)) <= RealOf(CellAt(x, P))
  {
    LateTrace(d.rows, e.rows, f.rows);
    RankedIs(nums, t, u, k, s);
    RankedKeyed(nums, k, s);
    RankedPvalue(nums, t, u, k, s);
    if Supplied(t, P) {
      DeduplicatedMinimal(s);
    }
    PvalueFacts(nums, Supplied(t, P), s.rows, d.rows, f.rows, out.rows);
  }

  /** The ranked table `munge` builds is the one `Ranked` names. */
  lemma RankedIs(nums: Numerics, t: Table, u: Table, k: Table, s: Table)
    requires WellFormed(t) && u == AllNaDropped(t) && CHR in u.cols && BP in u.cols && EA in u.cols && NEA in u.cols
    requires k == KeyedTable(nums, u) && s == RankByP(nums, k)
    ensures CoreSupplied(t) && s == Ranked(nums, t)
  {
  }

  /** Ranking leaves the key columns alone, so the ranked rows are still keyed. */
  lemma RankedKeyed(nums: Numerics, k: Table, s: Table)
    requires WellFormed(k) && (forall o :: o in k.rows ==> Keyed(nums, o)) && s == RankByP(nums, k)
    ensures forall o :: o in s.rows ==> Keyed(nums, o)
  {
    RankKeepsKeys();
    KeyedDerived(nums, s.rows, k.rows, {P, NEGLOGP});
  }

  lemma RankKeepsKeys()
    ensures KeyColumnsKept({P, NEGLOGP})
  {
  }

  /** With a P column supplied, the ranked rows hold valid p-values in ascending order. */
  lemma RankedPvalue(nums: Numerics, t: Table, u: Table, k: Table, s: Table)
    requires WellFormed(t) && u == AllNaDropped(t) && CHR in u.cols && BP in u.cols && EA in u.cols && NEA in u.cols
    requires k == KeyedTable(nums, u) && s == RankByP(nums, k)
    ensures Supplied(t, P) ==> SortedBy(s.rows, P, P) && forall o :: o in s.rows ==> P in o && IsPvalue(o[P])
  {
    assert P in k.cols <==> Supplied(t, P);
  }

  lemma PromiseNeglogp(nums: Numerics, t: Table, u: Table, k: Table, s: Table, d: Table, e: Table, f: Table, out: Table)
    requires Pipelined(nums, t, u, k, s, d, e, f) && Checked(f, out)
    ensures !Supplied(t, P) && Supplied(t, NEGLOGP) ==>
      forall o :: o in out.rows ==> exists x :: NEGLOGP_MIN < x && CellAt(o, P) == Num(nums.pow10neg(x))
  {
    LateTrace(d.rows, e.rows, f.rows);
    RankedNeglogp(nums, t, u, k, s);
    NeglogpCarried(nums, !Supplied(t, P) && Supplied(t, NEGLOGP), s.rows, d.rows, f.rows, out.rows);
  }

  lemma RankedNeglogp(nums: Numerics, t: Table, u: Table, k: Table, s: Table)
    requires WellFormed(t) && u == AllNaDropped(t) && CHR in u.cols && BP in u.cols && EA in u.cols && NEA in u.cols
    requires k == KeyedTable(nums, u) && s == RankByP(nums, k)
    ensures !Supplied(t, P) && Supplied(t, NEGLOGP) ==>
      forall o :: o in s.rows ==> NEGLOGP in o && IsAbove(o[NEGLOGP], NEGLOGP_MIN) && P in o && o[P] == Num(nums.pow10neg(RealOf(o[NEGLOGP])))
  {
    if !Supplied(t, P) && Supplied(t, NEGLOGP) {
      assert P !in u.cols && NEGLOGP in u.cols;
      assert P !in k.cols && NEGLOGP in k.cols;
    }
  }

  lemma PromiseEffects(nums: Numerics, t: Table, d: Table, e: Table, f: Table, out: Table)
    requires LateStages(nums, t, d, e, f) && Checked(f, out)
    ensures (Supplied(t, BETA) && Supplied(t, SE)) || (Supplied(t, OR) && Supplied(t, ORSE)) ==>
      forall o :: o in out.rows ==> IsNumber(CellAt(o, BETA)) && IsSe(CellAt(o, SE))
  {
    OddsBranch(t, d);
    EffectsCarried((Supplied(t, BETA) && Supplied(t, SE)) || (Supplied(t, OR) && Supplied(t, ORSE)), e.rows, f.rows, out.rows);
  }

  lemma PromiseFrequencies(nums: Numerics, t: Table, d: Table, e: Table, f: Table, out: Table)
    requires LateStages(nums, t, d, e, f) && Checked(f, out)
    ensures Supplied(t, EAF) ==>
      forall o :: o in out.rows ==> IsEaf(CellAt(o, EAF)) && CellAt(o, MAF) == Num(Fold(RealOf(CellAt(o, EAF))))
    ensures Supplied(t, EAF) || Supplied(t, MAF) ==> forall o :: o in out.rows ==> IsMaf(CellAt(o, MAF))
  {
    OddsBranch(t, d);
    ColumnsLate(t, d, e, f);
    FoldCarried(Supplied(t, EAF), f.rows, out.rows);
    OutCell(Supplied(t, EAF) || Supplied(t, MAF), f.rows, out.rows, MAF, IsMaf);
  }

  lemma OutCells(f: Table, out: Table)
    requires WellFormed(out) && out.cols == OUTCOLS && |out.rows| == |f.rows|
    requires forall k :: 0 <= k < |out.rows| ==> forall c :: c in OUTCOLS ==> out.rows[k][c] == CellAt(f.rows[k], c)
    ensures SameOutCells(out.rows, f.rows)
  {
    forall k, c | 0 <= k < |f.rows| && c in OUTCOLS ensures CellAt(out.rows[k], c) == CellAt(f.rows[k], c) {
      assert out.rows[k] in out.rows;
    }
  }

  /** A cell property every row has before `check_colnames` holds of the output. */
  lemma OutCell(present: bool, f: seq<Row>, out: seq<Row>, c: string, ok: Cell -> bool)
    requires present ==> forall o :: o in f ==> c in o && ok(o[c])
    requires c in OUTCOLS && SameOutCells(out, f)
    ensures present ==> forall o :: o in out ==> ok(CellAt(o, c))
  {
    if present {
      forall o | o in out ensures ok(CellAt(o, c)) {
        var m :| 0 <= m < |out| && out[m] == o;
        assert f[m] in f;
        assert CellAt(o, c) == CellAt(f[m], c);
      }
    }
  }

  /** With a P column: every output p-value is valid, and the kept row of a variant has
      the least p-value among its ranked rows. */
  lemma PvalueFacts(nums: Numerics, present: bool, s: seq<Row>, d: seq<Row>, f: seq<Row>, out: seq<Row>)
    requires forall o :: o in s ==> Keyed(nums, o)
    requires forall o :: o in d ==> o in s
    requires present ==> forall o :: o in s ==> P in o && IsPvalue(o[P])
    requires present ==> forall o, i :: o in d && i in s && CellAt(i, SNPID) == CellAt(o, SNPID) ==>
      RealOf(CellAt(o, P)) <= RealOf(CellAt(i, P))
    requires Trace(f, d, LATE) && SameOutCells(out, f)
    ensures present ==> forall o :: o in out ==> IsPvalue(CellAt(o, P))
    ensures present ==> forall o, x :: o in out && x in s && SameVariant(o, x) ==> RealOf(CellAt(o, P)) <= RealOf(CellAt(x, P))
  {
    if present {
      TraceKeeps(f, d, LATE, P, IsPvalue);
      OutCell(true, f, out, P, IsPvalue);
      PvalueMinimal(nums, s, d, f, out);
    }
  }

  /** The kept row of a variant has the least p-value among the ranked rows of that variant. */
  lemma PvalueMinimal(nums: Numerics, s: seq<Row>, d: seq<Row>, f: seq<Row>, out: seq<Row>)
    requires forall o :: o in s ==> Keyed(nums, o)
    requires forall o :: o in d ==> o in s
    requires forall o, i :: o in d && i in s && CellAt(i, SNPID) == CellAt(o, SNPID) ==>
      RealOf(CellAt(o, P)) <= RealOf(CellAt(i, P))
    requires Trace(f, d, LATE) && SameOutCells(out, f)
    ensures forall o, x :: o in out && x in s && SameVariant(o, x) ==> RealOf(CellAt(o, P)) <= RealOf(CellAt(x, P))
  {
    TraceDerived(f, d, LATE);
    forall o, x | o in out && x in s && SameVariant(o, x) ensures RealOf(CellAt(o, P)) <= RealOf(CellAt(x, P)) {
      var m :| 0 <= m < |out| && out[m] == o;
      OutCellsAt(out, f, m);
      assert f[m] in f;
      var i :| i in d && AgreeExcept(f[m], i, LATE);
      KeptVariant(nums, o, f[m], i, x);
    }
  }

  lemma KeptVariant(nums: Numerics, o: Row, y: Row, i: Row, x: Row)
    requires Keyed(nums, i) && Keyed(nums, x) && AgreeExcept(y, i, LATE)
    requires CellAt(o, CHR) == CellAt(y, CHR) && CellAt(o, BP) == CellAt(y, BP)
    requires CellAt(o, EA) == CellAt(y, EA) && CellAt(o, NEA) == CellAt(y, NEA)
    requires CellAt(o, P) == CellAt(y, P)
    requires SameVariant(o, x)
    ensures CellAt(i, SNPID) == CellAt(x, SNPID) && CellAt(o, P) == CellAt(i, P)
  {
    assert SameVariant(i, x);
    SameVariantSameKey(nums, i, x);
  }

  /** P derived from NEGLOGP reaches the output. */
  lemma NeglogpCarried(nums: Numerics, present: bool, s: seq<Row>, d: seq<Row>, f: seq<Row>, out: seq<Row>)
    requires present ==> forall o :: o in s ==> NEGLOGP in o && IsAbove(o[NEGLOGP], NEGLOGP_MIN) && P in o && o[P] == Num(nums.pow10neg(RealOf(o[NEGLOGP])))
    requires forall o :: o in d ==> o in s
    requires Trace(f, d, LATE) && SameOutCells(out, f)
    ensures present ==> forall o :: o in out ==> exists x :: NEGLOGP_MIN < x && CellAt(o, P) == Num(nums.pow10neg(x))
  {
    if !present { return; }
    TraceDerived(f, d, LATE);
    forall o | o in out ensures exists x :: NEGLOGP_MIN < x && CellAt(o, P) == Num(nums.pow10neg(x)) {
      var m :| 0 <= m < |out| && out[m] == o;
      OutCellsAt(out, f, m);
      assert f[m] in f;
      var i :| i in d && AgreeExcept(f[m], i, LATE);
      assert i in s;
      assert NEGLOGP_MIN < RealOf(i[NEGLOGP]);
    }
  }

  /** Checked effect sizes reach the output. */
  lemma EffectsCarried(present: bool, e: seq<Row>, f: seq<Row>, out: seq<Row>)
    requires present ==> forall o :: o in e ==> BETA in o && IsNumber(o[BETA]) && SE in o && IsSe(o[SE])
    requires Trace(f, e, {Z, EAF, MAF}) && SameOutCells(out, f)
    ensures present ==> forall o :: o in out ==> IsNumber(CellAt(o, BETA)) && IsSe(CellAt(o, SE))
  {
    if !present { return; }
    TraceKeeps(f, e, {Z, EAF, MAF}, BETA, IsNumber);
    TraceKeeps(f, e, {Z, EAF, MAF}, SE, IsSe);
    forall o | o in out ensures IsNumber(CellAt(o, BETA)) && IsSe(CellAt(o, SE)) {
      var m :| 0 <= m < |out| && out[m] == o;
      OutCellsAt(out, f, m);
      assert f[m] in f;
    }
  }

  /** A checked EAF and the MAF folded from it reach the output. */
  lemma FoldCarried(present: bool, f: seq<Row>, out: seq<Row>)
    requires present ==> forall o :: o in f ==> EAF in o && IsEaf(o[EAF]) && MAF in o && o[MAF] == Num(Fold(RealOf(o[EAF])))
    requires SameOutCells(out, f)
    ensures present ==> forall o :: o in out ==> IsEaf(CellAt(o, EAF)) && CellAt(o, MAF) == Num(Fold(RealOf(CellAt(o, EAF))))
  {
    if !present { return; }
    forall o | o in out ensures IsEaf(CellAt(o, EAF)) && CellAt(o, MAF) == Num(Fold(RealOf(CellAt(o, EAF)))) {
      var m :| 0 <= m < |out| && out[m] == o;
      OutCellsAt(out, f, m);
      assert f[m] in f;
    }
  }

  /** Rows after the effect and frequency stages come from the deduplicated rows with
      only the late columns changed. */
  lemma LateTrace(d: seq<Row>, e: seq<Row>, f: seq<Row>)
    requires Trace(e, d, {BETA, SE, OR, ORSE}) && Trace(f, e, {Z, EAF, MAF})
    ensures Trace(f, d, LATE)
  {
    TraceTrans(f, e, d, {Z, EAF, MAF}, {BETA, SE, OR, ORSE});
    assert {Z, EAF, MAF} + {BETA, SE, OR, ORSE} == LATE;
  }

  /** Keys, order and uniqueness reach the last stage. */
  lemma RowsKeyed(nums: Numerics, k: seq<Row>, s: seq<Row>, d: seq<Row>, f: seq<Row>)
    requires forall o :: o in k ==> Keyed(nums, o)
    requires Derived(s, k, {P, NEGLOGP})
    requires forall o :: o in d ==> o in s
    requires DistinctOn(d, SNPID) && SortedBy(d, CHR, BP)
    requires Trace(f, d, LATE)
    ensures forall o :: o in f ==> Keyed(nums, o)
    ensures DistinctOn(f, SNPID) && SortedBy(f, CHR, BP)
  {
    KeyedDerived(nums, s, k, {P, NEGLOGP});
    TraceDerived(f, d, LATE);
    KeyedDerived(nums, f, d, LATE);
    TraceDistinct(f, d, LATE, SNPID);
    TraceSorted(f, d, LATE, CHR, BP);
  }

  /** Keyed, unique and ordered rows stay so once `check_colnames` has copied their cells. */
  lemma OutVariants(nums: Numerics, f: seq<Row>, out: seq<Row>)
    requires forall o :: o in f ==> Keyed(nums, o)
    requires DistinctOn(f, SNPID) && SortedBy(f, CHR, BP)
    requires SameOutCells(out, f)
    requires forall o :: o in out ==> CHR in o && BP in o && EA in o && NEA in o
    ensures forall o :: o in out ==> Canonical(o) && o[EA] != o[NEA]
    ensures SortedBy(out, CHR, BP)
    ensures forall i, j :: 0 <= i < j < |out| ==> !SameVariant(out[i], out[j])
  {
    forall o | o in out ensures Canonical(o) && o[EA] != o[NEA] {
      var m :| 0 <= m < |out| && out[m] == o;
      assert f[m] in f;
      OutCellsAt(out, f, m);
    }
    forall i, j | 0 <= i < j < |out| ensures PairLe(ColsKey(out[i], CHR, BP), ColsKey(out[j], CHR, BP)) {
      OutCellsAt(out, f, i);
      OutCellsAt(out, f, j);
    }
    forall i, j | 0 <= i < j < |out| ensures !SameVariant(out[i], out[j]) {
      if SameVariant(out[i], out[j]) {
        OutCellsAt(out, f, i);
        OutCellsAt(out, f, j);
        assert f[i] in f && f[j] in f;
        assert SameVariant(f[i], f[j]);
        SameVariantSameKey(nums, f[i], f[j]);
        assert false;
      }
    }
  }

  lemma OutCellsAt(out: seq<Row>, f: seq<Row>, m: int)
    requires SameOutCells(out, f) && 0 <= m < |f|
    ensures CellAt(out[m], CHR) == CellAt(f[m], CHR) && CellAt(out[m], BP) == CellAt(f[m], BP)
    ensures CellAt(out[m], EA) == CellAt(f[m], EA) && CellAt(out[m], NEA) == CellAt(f[m], NEA)
    ensures CellAt(out[m], P) == CellAt(f[m], P)
    ensures CellAt(out[m], BETA) == CellAt(f[m], BETA) && CellAt(out[m], SE) == CellAt(f[m], SE)
    ensures CellAt(out[m], EAF) == CellAt(f[m], EAF) && CellAt(out[m], MAF) == CellAt(f[m], MAF)
  {
    assert CHR in OUTCOLS && BP in OUTCOLS && EA in OUTCOLS && NEA in OUTCOLS && P in OUTCOLS;
    assert BETA in OUTCOLS && SE in OUTCOLS && EAF in OUTCOLS && MAF in OUTCOLS;
  }

  /** Which columns reach the deduplicated table, in terms of the columns the input supplies. */
  lemma ColumnsKeyed(t: Table, u: Table, k: Table, s: Table, d: Table)
    requires WellFormed(t)
    requires forall c :: c in u.cols <==> Supplied(t, c)
    requires forall c :: c in k.cols <==> c == SNPID || c in u.cols
    requires forall c :: c in s.cols <==> c in k.cols || (c == P && NEGLOGP in k.cols)
    requires d.cols == s.cols
    ensures DedupColumns(t, d)
  {
  }

  /** The odds-ratio branch is taken exactly when the input supplies OR and ORSE but not
      both of BETA and SE. */
  lemma OddsBranch(t: Table, d: Table)
    requires WellFormed(t)
    requires forall c :: c != SNPID && c != P ==> (c in d.cols <==> Supplied(t, c))
    ensures UsesOdds(d) <==> OddsSupplied(t)
    ensures BETA in d.cols && SE in d.cols <==> Supplied(t, BETA) && Supplied(t, SE)
    ensures OR in d.cols && ORSE in d.cols <==> Supplied(t, OR) && Supplied(t, ORSE)
  {
    assert BETA in d.cols <==> Supplied(t, BETA);
    assert SE in d.cols <==> Supplied(t, SE);
    assert OR in d.cols <==> Supplied(t, OR);
    assert ORSE in d.cols <==> Supplied(t, ORSE);
  }

  /** An output column is present before `check_colnames` exactly when it is populated. */
  lemma ColumnsLate(t: Table, d: Table, e: Table, f: Table)
    requires WellFormed(t)
    requires forall c :: c != SNPID && c != P ==> (c in d.cols <==> Supplied(t, c))
    requires P in d.cols <==> Supplied(t, P) || Supplied(t, NEGLOGP)
    requires UsesOdds(d) <==> OddsSupplied(t)
    requires forall c :: c in e.cols <==>
      if UsesOdds(d) then (c in d.cols && c != OR && c != ORSE) || c == BETA || c == SE else c in d.cols
    requires forall c :: c in f.cols <==> c in e.cols || (c == MAF && EAF in e.cols)
    ensures forall c :: c in OUTCOLS ==> (c in f.cols <==> Populated(t, c))
    ensures EAF in e.cols <==> Supplied(t, EAF)
    ensures MAF in e.cols <==> Supplied(t, MAF)
  {
    assert EAF in e.cols <==> Supplied(t, EAF);
    OutColsExclude();
    forall c | c in OUTCOLS ensures c in f.cols <==> Populated(t, c) {
      ColumnLate(t, d, e, f, c);
    }
  }

  lemma OutColsExclude()
    ensures SNPID !in OUTCOLS && OR !in OUTCOLS && ORSE !in OUTCOLS
  {
  }

  /** One output column is present before `check_colnames` exactly when it is populated. */
  lemma ColumnLate(t: Table, d: Table, e: Table, f: Table, c: string)
    requires WellFormed(t) && c != SNPID && c != OR && c != ORSE
    requires forall c :: c != SNPID && c != P ==> (c in d.cols <==> Supplied(t, c))
    requires P in d.cols <==> Supplied(t, P) || Supplied(t, NEGLOGP)
    requires UsesOdds(d) <==> OddsSupplied(t)
    requires forall c :: c in e.cols <==>
      if UsesOdds(d) then (c in d.cols && c != OR && c != ORSE) || c == BETA || c == SE else c in d.cols
    requires forall c :: c in f.cols <==> c in e.cols || (c == MAF && EAF in e.cols)
    ensures c in f.cols <==> Populated(t, c)
  {
    assert EAF in e.cols <==> Supplied(t, EAF);
    if c == P {
      assert P in e.cols <==> P in d.cols;
    } else if c == BETA || c == SE {
      assert c in d.cols <==> Supplied(t, c);
    } else if c == MAF {
      assert MAF in e.cols <==> Supplied(t, MAF);
    } else {
      assert c in e.cols <==> c in d.cols;
    }
  }

  /** A column nothing fills is all missing in the output. */
  lemma AbsentNull(t: Table, f: Table, out: Table)
    requires WellFormed(t) && WellFormed(f)
    requires forall c :: c in OUTCOLS ==> (c in f.cols <==> Populated(t, c))
    requires SameOutCells(out.rows, f.rows)
    ensures forall o, c :: o in out.rows && c in OUTCOLS && !Populated(t, c) ==> CellAt(o, c) == Null
  {
    forall o, c | o in out.rows && c in OUTCOLS && !Populated(t, c) ensures CellAt(o, c) == Null {
      var m :| 0 <= m < |out.rows| && out.rows[m] == o;
      assert f.rows[m] in f.rows;
      assert CellAt(o, c) == CellAt(f.rows[m], c);
    }
  }
}
