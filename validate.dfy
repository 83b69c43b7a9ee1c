/** The per-column validators of the canonicaliser. Each one keeps, in order, the
    rows whose own cell passes its test and stores the cell in canonical form. */
module Validate {
  import opened Wrappers
  import opened Text
  import opened Columns
  import opened Frame

  /** The numeric routines the canonicaliser borrows from pandas and Python:
      `parse` is `pd.to_numeric(..., errors="coerce")` on text (None where pandas
      yields NaN), `floatText` is `str()` of a non-integral float, and `pow10neg`
      is `10 ** (-x)`. */
  datatype Numerics = Numerics(parse: string -> Option<real>, floatText: real -> string, pow10neg: real -> real)

  /** `pd.to_numeric(..., errors="coerce")` of one cell. */
  function ToNumber(nums: Numerics, c: Cell): Option<real> {
    match c
    case Null => None
    case Num(v) => Some(v)
    case Str(s) => nums.parse(s)
  }

  predicate IsInt(x: real) {
    x.Floor as real == x
  }

  /** `astype(int)`: the fraction is dropped, rounding toward zero. */
  function Trunc(x: real): (r: real)
    ensures IsInt(r)
    ensures 0.0 <= x ==> r <= x < r + 1.0
    ensures x < 0.0 ==> r - 1.0 < x <= r
    ensures IsInt(x) ==> r == x
  {
    if x >= 0.0 then
      FloorOfInt(x.Floor);
      x.Floor as real
    else
      NegativeTrunc(x);
      -((-x).Floor as real)
  }

  lemma FloorOfInt(k: int)
    ensures (k as real).Floor == k
  {
  }

  lemma NegativeTrunc(x: real)
    ensures IsInt(-((-x).Floor as real))
    ensures IsInt(x) ==> -((-x).Floor as real) == x
  {
    FloorOfInt(-((-x).Floor));
    if IsInt(x) {
      var k := x.Floor;
      assert -x == (-k) as real;
      FloorOfInt(-k);
    }
  }

  // ---------------------------------------------------------------------------
  // Chromosome
  // ---------------------------------------------------------------------------

  /** The number read from a chromosome cell: "chr" is deleted everywhere, the exact
      values "X" and "x" stand for 23, and the rest is coerced to a number. */
  function ChrReading(nums: Numerics, c: Cell): Option<real> {
    match c
    case Null => None
    case Num(v) => Some(v)
    case Str(s) =>
      var d := DeleteChr(s);
      if d == "X" || d == "x" then Some(CHR_X) else nums.parse(d)
  }

  predicate IsChrValue(c: Cell) {
    c.Num? && IsInt(c.v) && CHR_MIN <= c.v <= CHR_MAX
  }

  function ChrCell(nums: Numerics, c: Cell): (r: Option<Cell>)
    ensures r.Some? <==> ChrReading(nums, c).Some? && CHR_MIN <= ChrReading(nums, c).value <= CHR_MAX
    ensures r.Some? ==> IsChrValue(r.value)
    ensures r.Some? ==> r.value.v <= ChrReading(nums, c).value < r.value.v + 1.0
  {
    match ChrReading(nums, c)
    case None => None
    case Some(x) => if CHR_MIN <= x <= CHR_MAX then Some(Num(Trunc(x))) else None
  }

  function ChrCheck(nums: Numerics): Cell -> Option<Cell> {
    c => ChrCell(nums, c)
  }

  /** Both spellings of the X chromosome, with or without the prefix, read as 23. */
  lemma ChrX(nums: Numerics)
    ensures ChrCell(nums, Str("chrX")) == Some(Num(23.0))
    ensures ChrCell(nums, Str("x")) == Some(Num(23.0))
  {
    assert DeleteChr("chrX") == "X" by {
      assert "chrX"[..3] == "chr" && "chrX"[3..] == "X";
      assert DeleteChr("X") == ['X'] + DeleteChr([]);
    }
    assert DeleteChr("x") == "x" by {
      assert DeleteChr("x") == ['x'] + DeleteChr([]);
    }
  }

  /** `munge_chr`. */
  function MungeChr(nums: Numerics, t: Table): (r: Table)
    requires WellFormed(t) && CHR in t.cols
    ensures WellFormed(r) && Filtered(r, t, CHR, ChrCheck(nums))
    ensures forall o :: o in r.rows ==> IsChrValue(o[CHR])
  {
    ValidateColumn(t, CHR, ChrCheck(nums))
  }

  lemma MungeChrIdempotent(nums: Numerics, t: Table)
    requires WellFormed(t) && CHR in t.cols
    ensures MungeChr(nums, MungeChr(nums, t)) == MungeChr(nums, t)
  {
    ValidateColumnIdempotent(t, CHR, ChrCheck(nums));
  }

  // ---------------------------------------------------------------------------
  // Position
  // ---------------------------------------------------------------------------

  predicate IsBpValue(c: Cell) {
    c.Num? && IsInt(c.v) && BP_MIN < c.v < BP_MAX
  }

  /** `munge_bp` as written: the bounds are applied before `astype(int)`, so a
      position in (0, 1) passes and is stored as 0. */
  function BpCellAsWritten(nums: Numerics, c: Cell): (r: Option<Cell>)
    ensures r.Some? <==> ToNumber(nums, c).Some? && BP_MIN < ToNumber(nums, c).value < BP_MAX
    ensures r.Some? ==> r.value.Num? && IsInt(r.value.v) && BP_MIN <= r.value.v < BP_MAX
  {
    match ToNumber(nums, c)
    case None => None
    case Some(x) => if BP_MIN < x < BP_MAX then Some(Num(Trunc(x))) else None
  }

  /** The position 0.5 passes the as-written test and comes out as 0, outside the
      open range the test was meant to enforce; a second pass then drops it. */
  lemma BpAsWrittenStoresZero(nums: Numerics)
    ensures BpCellAsWritten(nums, Num(0.5)) == Some(Num(0.0))
    ensures !IsBpValue(Num(0.0))
    ensures BpCellAsWritten(nums, Num(0.0)) == None
  {
  }

  /** `munge_bp` with the bounds applied to the stored integer. */
  function BpCell(nums: Numerics, c: Cell): (r: Option<Cell>)
    ensures r.Some? <==> ToNumber(nums, c).Some? && BP_MIN < Trunc(ToNumber(nums, c).value) < BP_MAX
    ensures r.Some? ==> IsBpValue(r.value)
    ensures r.Some? ==> r.value.v <= ToNumber(nums, c).value < r.value.v + 1.0
  {
    match ToNumber(nums, c)
    case None => None
    case Some(x) => if BP_MIN < Trunc(x) < BP_MAX then Some(Num(Trunc(x))) else None
  }

  function BpCheck(nums: Numerics): Cell -> Option<Cell> {
    c => BpCell(nums, c)
  }

  function MungeBp(nums: Numerics, t: Table): (r: Table)
    requires WellFormed(t) && BP in t.cols
    ensures WellFormed(r) && Filtered(r, t, BP, BpCheck(nums))
    ensures forall o :: o in r.rows ==> IsBpValue(o[BP])
  {
    ValidateColumn(t, BP, BpCheck(nums))
  }

  lemma MungeBpIdempotent(nums: Numerics, t: Table)
    requires WellFormed(t) && BP in t.cols
    ensures MungeBp(nums, MungeBp(nums, t)) == MungeBp(nums, t)
  {
    ValidateColumnIdempotent(t, BP, BpCheck(nums));
  }

  // ---------------------------------------------------------------------------
  // Alleles
  // ---------------------------------------------------------------------------

  predicate IsAlleleValue(c: Cell) {
    c.Str? && IsAlleleText(c.s)
  }

  /** Python's `re.match(r"^[ACGT]+$", s)`: `$` also matches just before a final newline. */
  predicate MatchesAsWritten(s: string) {
    IsAlleleText(s) || (|s| >= 2 && s[|s| - 1] == '\n' && IsAlleleText(s[..|s| - 1]))
  }

  /** One pass of the `munge_allele` loop as written: drop missing cells, upper-case the
      text, keep it when the pattern matches. The text of a number never matches. */
  function AlleleCellAsWritten(c: Cell): (r: Option<Cell>)
    ensures r.Some? <==> c.Str? && MatchesAsWritten(Upper(c.s))
    ensures r.Some? ==> r.value == Str(Upper(c.s))
  {
    match c
    case Str(s) => if MatchesAsWritten(Upper(s)) then Some(Str(Upper(s))) else None
    case _ => None
  }

  /** An allele followed by a newline is accepted as written and kept with the newline. */
  lemma AlleleAsWrittenAcceptsNewline()
    ensures AlleleCellAsWritten(Str("a\n")) == Some(Str("A\n"))
    ensures !IsAlleleValue(Str("A\n"))
  {
    assert Upper("a\n") == "A\n";
    assert "A\n"[..1] == "A";
    assert "A\n"[1] == '\n';
  }

  /** One pass of the `munge_allele` loop, matching the whole text. */
  function AlleleCell(c: Cell): (r: Option<Cell>)
    ensures r.Some? <==> c.Str? && IsAlleleText(Upper(c.s))
    ensures r.Some? ==> IsAlleleValue(r.value) && r.value == Str(Upper(c.s))
  {
    match c
    case Str(s) => if IsAlleleText(Upper(s)) then Some(Str(Upper(s))) else None
    case _ => None
  }

  function AlleleCheck(): Cell -> Option<Cell> {
    c => AlleleCell(c)
  }

  lemma UpperIdempotent(s: string)
    ensures Upper(Upper(s)) == Upper(s)
  {
  }

  /** The allele validator applied to each column of `cs` in turn. */
  function ValidateEach(t: Table, cs: seq<string>): (r: Table)
    requires WellFormed(t) && forall c :: c in cs ==> c in t.cols
    ensures WellFormed(r) && r.cols == t.cols
  {
    if cs == [] then t
    else ValidateColumn(ValidateEach(t, cs[..|cs| - 1]), cs[|cs| - 1], AlleleCheck())
  }

  predicate DistinctAlleles(row: Row) {
    CellAt(row, EA) != CellAt(row, NEA)
  }

  /** `o` is a row of `rows` whose two allele cells both passed, upper-cased, with
      nothing else changed. */
  ghost predicate AllelesAccepted(o: Row, rows: seq<Row>) {
    EA in o && NEA in o &&
    exists i :: i in rows && EA in i && NEA in i && AlleleCell(i[EA]) == Some(o[EA]) && AlleleCell(i[NEA]) == Some(o[NEA])
      && o == i[EA := o[EA]][NEA := o[NEA]]
  }

  /** The row-level form of `munge_allele`: both alleles checked and upper-cased, then
      the row dropped when they are equal. */
  function AlleleRowCheck(): Row -> Option<Row> {
    Then(Then(CheckRow(EA, AlleleCheck()), CheckRow(NEA, AlleleCheck())), KeepRow(DistinctAlleles))
  }

  /** A row passes the allele checks exactly when both alleles are one or more of A, C,
      G, T once upper-cased and differ; it leaves with both upper-cased, nothing else
      changed. */
  lemma AlleleRowCells(i: Row)
    ensures AlleleRowCheck()(i).Some? <==>
      EA in i && NEA in i && AlleleCell(i[EA]).Some? && AlleleCell(i[NEA]).Some? && AlleleCell(i[EA]) != AlleleCell(i[NEA])
    ensures AlleleRowCheck()(i).Some? ==>
      AlleleRowCheck()(i).value == i[EA := AlleleCell(i[EA]).value][NEA := AlleleCell(i[NEA]).value]
  {
    if EA in i && AlleleCell(i[EA]).Some? {
      var j := i[EA := AlleleCell(i[EA]).value];
      assert CheckRow(EA, AlleleCheck())(i) == Some(j);
      assert NEA in j <==> NEA in i;
      if NEA in i {
        assert j[NEA] == i[NEA];
        if AlleleCell(i[NEA]).Some? {
          var o := j[NEA := AlleleCell(i[NEA]).value];
          assert CheckRow(NEA, AlleleCheck())(j) == Some(o);
          assert DistinctAlleles(o) <==> AlleleCell(i[EA]) != AlleleCell(i[NEA]);
        }
      }
    }
  }

  /** What `munge_allele` computes: both allele columns validated, then the rows whose
      two alleles are equal dropped. */
  function AlleleSpec(t: Table): (r: Table)
    requires WellFormed(t) && EA in t.cols && NEA in t.cols
    ensures WellFormed(r) && r.cols == t.cols
    ensures Trace(r.rows, t.rows, {EA, NEA})
    ensures forall o :: o in r.rows ==> IsAlleleValue(o[EA]) && IsAlleleValue(o[NEA]) && o[EA] != o[NEA]
    ensures forall o :: o in r.rows ==> AllelesAccepted(o, t.rows)
    ensures forall i :: i in t.rows && AlleleCell(i[EA]).Some? && AlleleCell(i[NEA]).Some? && AlleleCell(i[EA]) != AlleleCell(i[NEA]) ==>
      i[EA := AlleleCell(i[EA]).value][NEA := AlleleCell(i[NEA]).value] in r.rows
  {
    var a := ValidateColumn(t, EA, AlleleCheck());
    var b := ValidateColumn(a, NEA, AlleleCheck());
    var r := Where(b, DistinctAlleles);
    AlleleTrace(t, a, b, r);
    AlleleSound(t, a, b, r);
    AlleleComplete(t, a, b, r);
    r
  }

  /** The allele checks are `AlleleRowCheck` applied to every row, in order. */
  lemma AlleleSpecSifted(t: Table)
    requires WellFormed(t) && EA in t.cols && NEA in t.cols
    ensures AlleleSpec(t).rows == Sift(t.rows, AlleleRowCheck())
  {
    var a := ValidateColumn(t, EA, AlleleCheck());
    var b := ValidateColumn(a, NEA, AlleleCheck());
    AlleleSift(t, a, b, Where(b, DistinctAlleles));
  }

  lemma AlleleSift(t: Table, a: Table, b: Table, r: Table)
    requires WellFormed(t) && EA in t.cols && NEA in t.cols
    requires a == ValidateColumn(t, EA, AlleleCheck()) && b == ValidateColumn(a, NEA, AlleleCheck()) && r == Where(b, DistinctAlleles)
    ensures r.rows == Sift(t.rows, AlleleRowCheck())
  {
    ValidateColumnSift(t, EA, AlleleCheck());
    ValidateColumnSift(a, NEA, AlleleCheck());
    KeepWhereSift(b.rows, DistinctAlleles);
    SiftThen(t.rows, CheckRow(EA, AlleleCheck()), CheckRow(NEA, AlleleCheck()));
    SiftThen(t.rows, Then(CheckRow(EA, AlleleCheck()), CheckRow(NEA, AlleleCheck())), KeepRow(DistinctAlleles));
  }

  lemma AlleleTrace(t: Table, a: Table, b: Table, r: Table)
    requires WellFormed(t) && EA in t.cols && NEA in t.cols
    requires a == ValidateColumn(t, EA, AlleleCheck()) && b == ValidateColumn(a, NEA, AlleleCheck()) && r == Where(b, DistinctAlleles)
    ensures Trace(r.rows, t.rows, {EA, NEA})
  {
    TraceTrans(b.rows, a.rows, t.rows, {NEA}, {EA});
    TraceTrans(r.rows, b.rows, t.rows, {}, {NEA} + {EA});
    assert {} + ({NEA} + {EA}) == {EA, NEA};
  }

  lemma AlleleSound(t: Table, a: Table, b: Table, r: Table)
    requires WellFormed(t) && EA in t.cols && NEA in t.cols
    requires a == ValidateColumn(t, EA, AlleleCheck()) && b == ValidateColumn(a, NEA, AlleleCheck()) && r == Where(b, DistinctAlleles)
    ensures forall o :: o in r.rows ==> AllelesAccepted(o, t.rows)
  {
    forall o | o in r.rows ensures AllelesAccepted(o, t.rows) {
      assert Accepted(o, a.rows, NEA, AlleleCheck());
      var j :| j in a.rows && NEA in j && AlleleCheck()(j[NEA]) == Some(o[NEA]) && o == j[NEA := o[NEA]];
      assert Accepted(j, t.rows, EA, AlleleCheck());
      var i :| i in t.rows && EA in i && AlleleCheck()(i[EA]) == Some(j[EA]) && j == i[EA := j[EA]];
      assert o == i[EA := o[EA]][NEA := o[NEA]];
      assert i[NEA] == j[NEA];
    }
  }

  lemma AlleleComplete(t: Table, a: Table, b: Table, r: Table)
    requires WellFormed(t) && EA in t.cols && NEA in t.cols
    requires a == ValidateColumn(t, EA, AlleleCheck()) && b == ValidateColumn(a, NEA, AlleleCheck()) && r == Where(b, DistinctAlleles)
    ensures forall i :: i in t.rows && AlleleCell(i[EA]).Some? && AlleleCell(i[NEA]).Some? && AlleleCell(i[EA]) != AlleleCell(i[NEA]) ==>
      i[EA := AlleleCell(i[EA]).value][NEA := AlleleCell(i[NEA]).value] in r.rows
  {
    forall i | i in t.rows && AlleleCell(i[EA]).Some? && AlleleCell(i[NEA]).Some? && AlleleCell(i[EA]) != AlleleCell(i[NEA])
      ensures i[EA := AlleleCell(i[EA]).value][NEA := AlleleCell(i[NEA]).value] in r.rows
    {
      var j := i[EA := AlleleCell(i[EA]).value];
      assert AlleleCheck()(i[EA]).Some?;
      assert j in a.rows;
      assert j[NEA] == i[NEA];
      var o := j[NEA := AlleleCell(j[NEA]).value];
      assert o in b.rows;
      assert DistinctAlleles(o);
    }
  }

  lemma ValidateEachAlleles(t: Table)
    requires WellFormed(t) && EA in t.cols && NEA in t.cols
    ensures ValidateEach(t, [EA, NEA]) == ValidateColumn(ValidateColumn(t, EA, AlleleCheck()), NEA, AlleleCheck())
  {
    assert [EA, NEA][..1] == [EA];
    assert [EA][..0] == [];
    assert ValidateEach(t, [EA]) == ValidateColumn(t, EA, AlleleCheck());
  }

  /** `munge_allele`: for EA and then NEA, drop the rows whose allele is missing, upper-case
      it and keep it when it is one or more of A, C, G, T; then drop the rows whose two
      alleles are equal. */
  method MungeAllele(t: Table) returns (r: Table)
    requires WellFormed(t) && EA in t.cols && NEA in t.cols
    ensures r == AlleleSpec(t)
  {
    var cols := [EA, NEA];
    ValidateEachAlleles(t);
    r := t;
    for i := 0 to |cols|
      invariant r == ValidateEach(t, cols[..i])
    {
      assert cols[..i + 1][..i] == cols[..i];
      r := ValidateColumn(r, cols[i], AlleleCheck());
    }
    assert cols[..|cols|] == cols;
    r := Where(r, DistinctAlleles);
  }

  // ---------------------------------------------------------------------------
  // Numeric columns
  // ---------------------------------------------------------------------------

  /** A cell that must only be numeric (`munge_beta`, `munge_or`, `munge_z`). */
  function NumericCell(nums: Numerics, c: Cell): (r: Option<Cell>)
    ensures r.Some? <==> ToNumber(nums, c).Some?
    ensures r.Some? ==> r.value == Num(ToNumber(nums, c).value)
  {
    match ToNumber(nums, c)
    case None => None
    case Some(x) => Some(Num(x))
  }

  /** A number strictly above `lo` (`munge_neglogp`, `munge_se`, `munge_orse`). */
  function AboveCell(nums: Numerics, c: Cell, lo: real): (r: Option<Cell>)
    ensures r.Some? <==> ToNumber(nums, c).Some? && lo < ToNumber(nums, c).value
    ensures r.Some? ==> r.value == Num(ToNumber(nums, c).value)
  {
    match ToNumber(nums, c)
    case None => None
    case Some(x) => if lo < x then Some(Num(x)) else None
  }

  /** A number strictly between `lo` and `hi` (`munge_pvalue`). */
  function BetweenCell(nums: Numerics, c: Cell, lo: real, hi: real): (r: Option<Cell>)
    ensures r.Some? <==> ToNumber(nums, c).Some? && lo < ToNumber(nums, c).value < hi
    ensures r.Some? ==> r.value == Num(ToNumber(nums, c).value)
  {
    match ToNumber(nums, c)
    case None => None
    case Some(x) => if lo < x < hi then Some(Num(x)) else None
  }

  /** A number from `lo` to `hi`, both included (`munge_eaf`). */
  function WithinCell(nums: Numerics, c: Cell, lo: real, hi: real): (r: Option<Cell>)
    ensures r.Some? <==> ToNumber(nums, c).Some? && lo <= ToNumber(nums, c).value <= hi
    ensures r.Some? ==> r.value == Num(ToNumber(nums, c).value)
  {
    match ToNumber(nums, c)
    case None => None
    case Some(x) => if lo <= x <= hi then Some(Num(x)) else None
  }

  /** The minor-allele fold: a frequency above one half is replaced by its complement. */
  function Fold(x: real): (r: real)
    ensures r <= MAF_MAX
    ensures MAF_MIN <= r <==> x <= 1.0 && MAF_MIN <= x
    ensures r == x || r == 1.0 - x
  {
    if x > 0.5 then 1.0 - x else x
  }

  /** Folding an already folded frequency changes nothing. */
  lemma FoldIdempotent(x: real)
    ensures Fold(Fold(x)) == Fold(x)
  {
  }

  /** `munge_maf`: fold, then keep values in [MAF_MIN, MAF_MAX]. */
  function MafCell(nums: Numerics, c: Cell): (r: Option<Cell>)
    ensures r.Some? <==> ToNumber(nums, c).Some? && 0.0 <= ToNumber(nums, c).value <= 1.0
    ensures r.Some? ==> r.value.Num? && MAF_MIN <= r.value.v <= MAF_MAX
    ensures r.Some? ==> r.value.v == Fold(ToNumber(nums, c).value)
  {
    match ToNumber(nums, c)
    case None => None
    case Some(x) => var y := Fold(x); if MAF_MIN <= y <= MAF_MAX then Some(Num(y)) else None
  }

  function PvalueCheck(nums: Numerics): Cell -> Option<Cell> { c => BetweenCell(nums, c, P_MIN, P_MAX) }
  function NeglogpCheck(nums: Numerics): Cell -> Option<Cell> { c => AboveCell(nums, c, NEGLOGP_MIN) }
  function NumericCheck(nums: Numerics): Cell -> Option<Cell> { c => NumericCell(nums, c) }
  function SeCheck(nums: Numerics): Cell -> Option<Cell> { c => AboveCell(nums, c, SE_MIN) }
  function OrseCheck(nums: Numerics): Cell -> Option<Cell> { c => AboveCell(nums, c, ORSE_MIN) }
  function EafCheck(nums: Numerics): Cell -> Option<Cell> { c => WithinCell(nums, c, EAF_MIN, EAF_MAX) }
  function MafCheck(nums: Numerics): Cell -> Option<Cell> { c => MafCell(nums, c) }

  predicate IsPvalue(c: Cell) { c.Num? && P_MIN < c.v < P_MAX }
  predicate IsNumber(c: Cell) { c.Num? }
  predicate IsAbove(c: Cell, lo: real) { c.Num? && lo < c.v }
  predicate IsSe(c: Cell) { IsAbove(c, SE_MIN) }
  predicate IsEaf(c: Cell) { c.Num? && EAF_MIN <= c.v <= EAF_MAX }
  predicate IsMaf(c: Cell) { c.Num? && MAF_MIN <= c.v <= MAF_MAX }

  function MungePvalue(nums: Numerics, t: Table): (r: Table)
    requires WellFormed(t) && P in t.cols
    ensures WellFormed(r) && Filtered(r, t, P, PvalueCheck(nums))
    ensures forall o :: o in r.rows ==> IsPvalue(o[P])
  {
    ValidateColumn(t, P, PvalueCheck(nums))
  }

  function MungeNeglogp(nums: Numerics, t: Table): (r: Table)
    requires WellFormed(t) && NEGLOGP in t.cols
    ensures WellFormed(r) && Filtered(r, t, NEGLOGP, NeglogpCheck(nums))
    ensures forall o :: o in r.rows ==> IsAbove(o[NEGLOGP], NEGLOGP_MIN)
  {
    ValidateColumn(t, NEGLOGP, NeglogpCheck(nums))
  }

  function MungeBeta(nums: Numerics, t: Table): (r: Table)
    requires WellFormed(t) && BETA in t.cols
    ensures WellFormed(r) && Filtered(r, t, BETA, NumericCheck(nums))
    ensures forall o :: o in r.rows ==> IsNumber(o[BETA])
  {
    ValidateColumn(t, BETA, NumericCheck(nums))
  }

  function MungeSe(nums: Numerics, t: Table): (r: Table)
    requires WellFormed(t) && SE in t.cols
    ensures WellFormed(r) && Filtered(r, t, SE, SeCheck(nums))
    ensures forall o :: o in r.rows ==> IsSe(o[SE])
  {
    ValidateColumn(t, SE, SeCheck(nums))
  }

  function MungeOr(nums: Numerics, t: Table): (r: Table)
    requires WellFormed(t) && OR in t.cols
    ensures WellFormed(r) && Filtered(r, t, OR, NumericCheck(nums))
    ensures forall o :: o in r.rows ==> IsNumber(o[OR])
  {
    ValidateColumn(t, OR, NumericCheck(nums))
  }

  function MungeOrse(nums: Numerics, t: Table): (r: Table)
    requires WellFormed(t) && ORSE in t.cols
    ensures WellFormed(r) && Filtered(r, t, ORSE, OrseCheck(nums))
    ensures forall o :: o in r.rows ==> IsAbove(o[ORSE], ORSE_MIN)
  {
    ValidateColumn(t, ORSE, OrseCheck(nums))
  }

  function MungeZ(nums: Numerics, t: Table): (r: Table)
    requires WellFormed(t) && Z in t.cols
    ensures WellFormed(r) && Filtered(r, t, Z, NumericCheck(nums))
    ensures forall o :: o in r.rows ==> IsNumber(o[Z])
  {
    ValidateColumn(t, Z, NumericCheck(nums))
  }

  function MungeEaf(nums: Numerics, t: Table): (r: Table)
    requires WellFormed(t) && EAF in t.cols
    ensures WellFormed(r) && Filtered(r, t, EAF, EafCheck(nums))
    ensures forall o :: o in r.rows ==> IsEaf(o[EAF])
  {
    ValidateColumn(t, EAF, EafCheck(nums))
  }

  function MungeMaf(nums: Numerics, t: Table): (r: Table)
    requires WellFormed(t) && MAF in t.cols
    ensures WellFormed(r) && Filtered(r, t, MAF, MafCheck(nums))
    ensures forall o :: o in r.rows ==> IsMaf(o[MAF])
  {
    ValidateColumn(t, MAF, MafCheck(nums))
  }

  /** The p-value validators, run on their own output, keep every row unchanged. */
  lemma PvalueValidatorsIdempotent(nums: Numerics, t: Table)
    requires WellFormed(t)
    ensures P in t.cols ==> MungePvalue(nums, MungePvalue(nums, t)) == MungePvalue(nums, t)
    ensures NEGLOGP in t.cols ==> MungeNeglogp(nums, MungeNeglogp(nums, t)) == MungeNeglogp(nums, t)
  {
    if P in t.cols { ValidateColumnIdempotent(t, P, PvalueCheck(nums)); }
    if NEGLOGP in t.cols { ValidateColumnIdempotent(t, NEGLOGP, NeglogpCheck(nums)); }
  }

  /** The effect validators, run on their own output, keep every row unchanged. */
  lemma EffectValidatorsIdempotent(nums: Numerics, t: Table)
    requires WellFormed(t)
    ensures BETA in t.cols ==> MungeBeta(nums, MungeBeta(nums, t)) == MungeBeta(nums, t)
    ensures SE in t.cols ==> MungeSe(nums, MungeSe(nums, t)) == MungeSe(nums, t)
    ensures Z in t.cols ==> MungeZ(nums, MungeZ(nums, t)) == MungeZ(nums, t)
  {
    if BETA in t.cols { ValidateColumnIdempotent(t, BETA, NumericCheck(nums)); }
    if SE in t.cols { ValidateColumnIdempotent(t, SE, SeCheck(nums)); }
    if Z in t.cols { ValidateColumnIdempotent(t, Z, NumericCheck(nums)); }
  }

  /** The odds-ratio validators, run on their own output, keep every row unchanged. */
  lemma OddsValidatorsIdempotent(nums: Numerics, t: Table)
    requires WellFormed(t)
    ensures OR in t.cols ==> MungeOr(nums, MungeOr(nums, t)) == MungeOr(nums, t)
    ensures ORSE in t.cols ==> MungeOrse(nums, MungeOrse(nums, t)) == MungeOrse(nums, t)
  {
    if OR in t.cols { ValidateColumnIdempotent(t, OR, NumericCheck(nums)); }
    if ORSE in t.cols { ValidateColumnIdempotent(t, ORSE, OrseCheck(nums)); }
  }

  /** The frequency validators, run on their own output, keep every row unchanged. */
  lemma FrequencyValidatorsIdempotent(nums: Numerics, t: Table)
    requires WellFormed(t)
    ensures EAF in t.cols ==> MungeEaf(nums, MungeEaf(nums, t)) == MungeEaf(nums, t)
    ensures MAF in t.cols ==> MungeMaf(nums, MungeMaf(nums, t)) == MungeMaf(nums, t)
  {
    if EAF in t.cols { ValidateColumnIdempotent(t, EAF, EafCheck(nums)); }
    if MAF in t.cols { ValidateColumnIdempotent(t, MAF, MafCheck(nums)); }
  }
}
