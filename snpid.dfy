/** The order-independent variant key `CHR-BP-min(EA,NEA)-max(EA,NEA)` that
    `make_SNPID_unique` writes into the SNPID column. */
module SnpId {
  import opened Text
  import opened Seqs
  import opened Columns
  import opened Frame
  import opened Validate

  /** `astype(str)` of a chromosome or position cell. Integral numbers print as the
      integer column the validators produce; other numbers go through `str()`. */
  function Render(nums: Numerics, c: Cell): string {
    match c
    case Null => "nan"
    case Str(s) => s
    case Num(v) => if IsInt(v) then IntToString(v.Floor) else nums.floatText(v)
  }

  function TextOf(c: Cell): string {
    if c.Str? then c.s else ""
  }

  /** The key of one row; the allele pair is put in code-point order first. */
  function Key(nums: Numerics, row: Row): string {
    var ea, nea := TextOf(CellAt(row, EA)), TextOf(CellAt(row, NEA));
    Render(nums, CellAt(row, CHR)) + "-" + (Render(nums, CellAt(row, BP)) + "-" + (MinText(ea, nea) + "-" + MaxText(ea, nea)))
  }

  /** Two rows describe the same variant: same chromosome and position and the same
      two alleles, in either order. */
  predicate SameVariant(a: Row, b: Row) {
    && CellAt(a, CHR) == CellAt(b, CHR)
    && CellAt(a, BP) == CellAt(b, BP)
    && {TextOf(CellAt(a, EA)), TextOf(CellAt(a, NEA))} == {TextOf(CellAt(b, EA)), TextOf(CellAt(b, NEA))}
  }

  /** A row the validators have passed: integral chromosome and position, alleles over ACGT. */
  predicate Canonical(row: Row) {
    && CHR in row && IsChrValue(row[CHR])
    && BP in row && IsBpValue(row[BP])
    && EA in row && IsAlleleValue(row[EA])
    && NEA in row && IsAlleleValue(row[NEA])
  }

  lemma PairOrder(a1: string, a2: string, b1: string, b2: string)
    requires {a1, a2} == {b1, b2}
    ensures MinText(a1, a2) == MinText(b1, b2) && MaxText(a1, a2) == MaxText(b1, b2)
  {
    MinMaxSymmetric(a1, a2);
    if a1 == b1 {
      assert a2 == b2 by { assert a2 in {b1, b2}; assert b2 in {a1, a2}; }
    } else {
      assert a1 == b2 && a2 == b1 by { assert a1 in {b1, b2}; assert b1 in {a1, a2}; }
    }
  }

  /** Listing the alleles the other way round gives the same key. */
  lemma KeySymmetric(nums: Numerics, row: Row)
    requires EA in row && NEA in row
    ensures Key(nums, row[EA := row[NEA]][NEA := row[EA]]) == Key(nums, row)
  {
    MinMaxSymmetric(TextOf(row[EA]), TextOf(row[NEA]));
  }

  /** Rows describing the same variant get the same key. */
  lemma SameVariantSameKey(nums: Numerics, a: Row, b: Row)
    requires SameVariant(a, b)
    ensures Key(nums, a) == Key(nums, b)
  {
    PairOrder(TextOf(CellAt(a, EA)), TextOf(CellAt(a, NEA)), TextOf(CellAt(b, EA)), TextOf(CellAt(b, NEA)));
  }

  lemma NoDashInAllele(s: string)
    requires IsAlleleText(s)
    ensures '-' !in s
  {
  }

  lemma RenderNonNegative(nums: Numerics, c: Cell)
    requires c.Num? && IsInt(c.v) && 0.0 <= c.v
    ensures '-' !in Render(nums, c)
  {
  }

  lemma RenderInjective(nums: Numerics, c: Cell, d: Cell)
    requires c.Num? && IsInt(c.v) && 0.0 <= c.v
    requires d.Num? && IsInt(d.v) && 0.0 <= d.v
    requires Render(nums, c) == Render(nums, d)
    ensures c == d
  {
    NatToStringInjective(c.v.Floor, d.v.Floor);
  }

  /** For validated rows the key determines the variant: equal keys mean the same
      chromosome, position and allele pair. */
  lemma KeyInjective(nums: Numerics, a: Row, b: Row)
    requires Canonical(a) && Canonical(b)
    requires Key(nums, a) == Key(nums, b)
    ensures SameVariant(a, b)
  {
    var ea, nea, eb, neb := a[EA].s, a[NEA].s, b[EA].s, b[NEA].s;
    var ca, cb := Render(nums, a[CHR]), Render(nums, b[CHR]);
    var pa, pb := Render(nums, a[BP]), Render(nums, b[BP]);
    var mina, maxa, minb, maxb := MinText(ea, nea), MaxText(ea, nea), MinText(eb, neb), MaxText(eb, neb);
    RenderNonNegative(nums, a[CHR]);
    RenderNonNegative(nums, b[CHR]);
    RenderNonNegative(nums, a[BP]);
    RenderNonNegative(nums, b[BP]);
    MinMaxSymmetric(ea, nea);
    MinMaxSymmetric(eb, neb);
    NoDashInAllele(ea);
    NoDashInAllele(nea);
    NoDashInAllele(eb);
    NoDashInAllele(neb);
    assert '-' !in mina && '-' !in minb;
    SplitAtDash(ca, pa + "-" + (mina + "-" + maxa), cb, pb + "-" + (minb + "-" + maxb));
    SplitAtDash(pa, mina + "-" + maxa, pb, minb + "-" + maxb);
    SplitAtDash(mina, maxa, minb, maxb);
    RenderInjective(nums, a[CHR], b[CHR]);
    RenderInjective(nums, a[BP], b[BP]);
  }

  /** Every row holds text in both allele columns, as numpy's row sort needs. */
  predicate TextAlleles(rows: seq<Row>) {
    forall row :: row in rows ==> CellAt(row, EA).Str? && CellAt(row, NEA).Str?
  }

  /** `make_SNPID_unique`: the key goes into a SNPID column at position 0, replacing
      any SNPID column already there; rows and their order are unchanged. */
  function MakeSnpIdUnique(nums: Numerics, t: Table): (r: Table)
    requires WellFormed(t) && CHR in t.cols && BP in t.cols && EA in t.cols && NEA in t.cols
    requires TextAlleles(t.rows)
    ensures WellFormed(r)
    ensures r.cols == [SNPID] + Without(t.cols, SNPID)
    ensures forall c :: c in r.cols <==> c == SNPID || c in t.cols
    ensures |r.rows| == |t.rows|
    ensures forall k :: 0 <= k < |r.rows| ==> r.rows[k] == t.rows[k][SNPID := Str(Key(nums, t.rows[k]))]
    ensures Trace(r.rows, t.rows, {SNPID})
  {
    InsertFront(t, SNPID, row => Str(Key(nums, row)))
  }

  /** The key reads only the chromosome, position and allele columns. */
  lemma KeyIgnoresSnpId(nums: Numerics, row: Row, v: Cell)
    ensures Key(nums, row[SNPID := v]) == Key(nums, row)
  {
    assert CellAt(row[SNPID := v], CHR) == CellAt(row, CHR);
    assert CellAt(row[SNPID := v], BP) == CellAt(row, BP);
    assert CellAt(row[SNPID := v], EA) == CellAt(row, EA);
    assert CellAt(row[SNPID := v], NEA) == CellAt(row, NEA);
  }

  /** The keyed table still meets the keying precondition. */
  lemma MakeSnpIdUniqueKeepsAlleles(nums: Numerics, t: Table)
    requires WellFormed(t) && CHR in t.cols && BP in t.cols && EA in t.cols && NEA in t.cols
    requires TextAlleles(t.rows)
    ensures TextAlleles(MakeSnpIdUnique(nums, t).rows)
  {
    var r := MakeSnpIdUnique(nums, t);
    forall row | row in r.rows ensures CellAt(row, EA).Str? && CellAt(row, NEA).Str? {
      var k :| 0 <= k < |r.rows| && r.rows[k] == row;
      assert t.rows[k] in t.rows;
      assert CellAt(row, EA) == CellAt(t.rows[k], EA);
      assert CellAt(row, NEA) == CellAt(t.rows[k], NEA);
    }
  }

  /** Keying an already keyed table changes nothing. */
  lemma MakeSnpIdUniqueStable(nums: Numerics, t: Table)
    requires WellFormed(t) && CHR in t.cols && BP in t.cols && EA in t.cols && NEA in t.cols
    requires TextAlleles(t.rows)
    ensures TextAlleles(MakeSnpIdUnique(nums, t).rows)
    ensures MakeSnpIdUnique(nums, MakeSnpIdUnique(nums, t)) == MakeSnpIdUnique(nums, t)
  {
    MakeSnpIdUniqueKeepsAlleles(nums, t);
    var r := MakeSnpIdUnique(nums, t);
    var r2 := MakeSnpIdUnique(nums, r);
    RekeyCols(t.cols);
    RekeyRows(nums, t.rows, r.rows, r2.rows);
  }

  lemma RekeyCols(cols: seq<string>)
    ensures [SNPID] + Without([SNPID] + Without(cols, SNPID), SNPID) == [SNPID] + Without(cols, SNPID)
  {
    WithoutFront(SNPID, Without(cols, SNPID));
    WithoutAbsent(Without(cols, SNPID), SNPID);
  }

  lemma RekeyRows(nums: Numerics, rows: seq<Row>, keyed: seq<Row>, rekeyed: seq<Row>)
    requires |keyed| == |rows| && |rekeyed| == |keyed|
    requires forall k :: 0 <= k < |keyed| ==> keyed[k] == rows[k][SNPID := Str(Key(nums, rows[k]))]
    requires forall k :: 0 <= k < |rekeyed| ==> rekeyed[k] == keyed[k][SNPID := Str(Key(nums, keyed[k]))]
    ensures rekeyed == keyed
  {
    forall k | 0 <= k < |keyed| ensures rekeyed[k] == keyed[k] {
      RekeyRow(nums, rows[k], keyed[k], rekeyed[k]);
    }
  }

  lemma RekeyRow(nums: Numerics, row: Row, keyed: Row, rekeyed: Row)
    requires keyed == row[SNPID := Str(Key(nums, row))]
    requires rekeyed == keyed[SNPID := Str(Key(nums, keyed))]
    ensures rekeyed == keyed
  {
    KeyIgnoresSnpId(nums, row, Str(Key(nums, row)));
  }
}
