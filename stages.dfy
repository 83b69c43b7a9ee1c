/** `munge`: the canonicaliser's pipeline from a table with canonical column names to
    the canonical summary-statistics table. */
module Stages {
  import opened Wrappers
  import opened Seqs
  import opened Columns
  import opened Frame
  import opened Validate
  import opened SnpId
  import opened Reshape

  /** The columns without which there is no variant to key. */
  const CORE: seq<string> := [CHR, BP, EA, NEA]

  /** The input supplies column `c`: it is present and holds a value once empty
      strings count as missing. */
  predicate Supplied(t: Table, c: string)
    requires WellFormed(t)
  {
    c in t.cols && HasValue(BlankTable(t).rows, c)
  }

  /** A row that passed the chromosome, position and allele validators and carries its
      variant key. */
  ghost predicate Keyed(nums: Numerics, row: Row) {
    && Canonical(row) && row[EA] != row[NEA]
    && SNPID in row && row[SNPID] == Str(Key(nums, row))
  }

  /** The columns the key is computed from and stored in. */
  ghost predicate KeyColumnsKept(ch: set<string>) {
    CHR !in ch && BP !in ch && EA !in ch && NEA !in ch && SNPID !in ch
  }

  /** Rows changed only outside the key columns are still keyed. */
  lemma KeyedDerived(nums: Numerics, out: seq<Row>, src: seq<Row>, ch: set<string>)
    requires Derived(out, src, ch) && KeyColumnsKept(ch)
    requires forall i :: i in src ==> Keyed(nums, i)
    ensures forall o :: o in out ==> Keyed(nums, o)
  {
    forall o | o in out ensures Keyed(nums, o) {
      var i :| i in src && AgreeExcept(o, i, ch);
      assert Keyed(nums, i);
      assert CellAt(o, CHR) == CellAt(i, CHR) && CellAt(o, BP) == CellAt(i, BP);
      assert CellAt(o, EA) == CellAt(i, EA) && CellAt(o, NEA) == CellAt(i, NEA);
      assert Key(nums, o) == Key(nums, i);
    }
  }

  // ---------------------------------------------------------------------------
  // Keying: munge_chr, munge_bp, munge_allele, make_SNPID_unique
  // ---------------------------------------------------------------------------

  /** The row-level form of the key-column checks: chromosome, then position, then the
      two alleles. */
  function EarlyCheck(nums: Numerics): Row -> Option<Row> {
    Then(Then(CheckRow(CHR, ChrCheck(nums)), CheckRow(BP, BpCheck(nums))), AlleleRowCheck())
  }

  /** A row passes the key-column checks exactly when its chromosome, position and both
      alleles pass and the alleles differ; it leaves with those four cells replaced by
      their checked values and nothing else changed. */
  lemma EarlyCells(nums: Numerics, i: Row)
    ensures EarlyCheck(nums)(i).Some? <==>
      && CHR in i && ChrCell(nums, i[CHR]).Some? && BP in i && BpCell(nums, i[BP]).Some?
      && EA in i && NEA in i && AlleleCell(i[EA]).Some? && AlleleCell(i[NEA]).Some? && AlleleCell(i[EA]) != AlleleCell(i[NEA])
    ensures EarlyCheck(nums)(i).Some? ==>
      EarlyCheck(nums)(i).value == i[CHR := ChrCell(nums, i[CHR]).value][BP := BpCell(nums, i[BP]).value][EA := AlleleCell(i[EA]).value][NEA := AlleleCell(i[NEA]).value]
  {
    if CHR in i && ChrCell(nums, i[CHR]).Some? {
      var a := i[CHR := ChrCell(nums, i[CHR]).value];
      assert CheckRow(CHR, ChrCheck(nums))(i) == Some(a);
      assert BP in a <==> BP in i;
      if BP in i {
        assert a[BP] == i[BP];
        if BpCell(nums, i[BP]).Some? {
          var b := a[BP := BpCell(nums, i[BP]).value];
          assert CheckRow(BP, BpCheck(nums))(a) == Some(b);
          AlleleRowCells(b);
          assert EA in b <==> EA in i;
          assert NEA in b <==> NEA in i;
          if EA in i && NEA in i {
            assert b[EA] == i[EA] && b[NEA] == i[NEA];
          }
        }
      }
    }
  }

  /** The validated table before keying: chromosome, position and alleles checked. */
  function Validated(nums: Numerics, u: Table): (r: Table)
    requires WellFormed(u) && CHR in u.cols && BP in u.cols && EA in u.cols && NEA in u.cols
    ensures WellFormed(r) && r.cols == u.cols
    ensures Trace(r.rows, u.rows, {CHR, BP, EA, NEA})
    ensures forall o :: o in r.rows ==> Canonical(o) && o[EA] != o[NEA]
  {
    var a := MungeChr(nums, u);
    var b := MungeBp(nums, a);
    var c := AlleleSpec(b);
    TraceKeeps(b.rows, a.rows, {BP}, CHR, IsChrValue);
    TraceTrans(b.rows, a.rows, u.rows, {BP}, {CHR});
    TraceKeeps(c.rows, b.rows, {EA, NEA}, CHR, IsChrValue);
    TraceKeeps(c.rows, b.rows, {EA, NEA}, BP, IsBpValue);
    TraceTrans(c.rows, b.rows, u.rows, {EA, NEA}, {BP} + {CHR});
    assert {EA, NEA} + ({BP} + {CHR}) == {CHR, BP, EA, NEA};
    c
  }

  /** The key-column validators are `EarlyCheck` applied to every row, in order. */
  lemma ValidatedSifted(nums: Numerics, u: Table)
    requires WellFormed(u) && CHR in u.cols && BP in u.cols && EA in u.cols && NEA in u.cols
    ensures Validated(nums, u).rows == Sift(u.rows, EarlyCheck(nums))
  {
    var a := MungeChr(nums, u);
    var b := MungeBp(nums, a);
    ValidatedSift(nums, u, a, b, AlleleSpec(b));
  }

  lemma ValidatedSift(nums: Numerics, u: Table, a: Table, b: Table, c: Table)
    requires WellFormed(u) && CHR in u.cols && BP in u.cols && EA in u.cols && NEA in u.cols
    requires a == MungeChr(nums, u) && b == MungeBp(nums, a) && c == AlleleSpec(b)
    ensures c.rows == Sift(u.rows, EarlyCheck(nums))
  {
    AlleleSpecSifted(b);
    ValidateColumnSift(u, CHR, ChrCheck(nums));
    ValidateColumnSift(a, BP, BpCheck(nums));
    SiftThen(u.rows, CheckRow(CHR, ChrCheck(nums)), CheckRow(BP, BpCheck(nums)));
    SiftThen(u.rows, Then(CheckRow(CHR, ChrCheck(nums)), CheckRow(BP, BpCheck(nums))), AlleleRowCheck());
  }

  /** The key written into a row. */
  function KeyCell(nums: Numerics): Row -> Cell {
    row => Str(Key(nums, row))
  }

  /** The row-level form of keying: the SNPID column written from the row's key. */
  function KeyCheck(nums: Numerics): Row -> Option<Row> {
    SetRow(SNPID, KeyCell(nums))
  }

  /** The keyed table: validated rows with the SNPID key in front. */
  function KeyedTable(nums: Numerics, u: Table): (r: Table)
    requires WellFormed(u) && CHR in u.cols && BP in u.cols && EA in u.cols && NEA in u.cols
    ensures WellFormed(r)
    ensures forall c :: c in r.cols <==> c == SNPID || c in u.cols
    ensures Trace(r.rows, u.rows, {CHR, BP, EA, NEA, SNPID})
    ensures forall o :: o in r.rows ==> Keyed(nums, o)
  {
    var v := Validated(nums, u);
    var r := MakeSnpIdUnique(nums, v);
    TraceTrans(r.rows, v.rows, u.rows, {SNPID}, {CHR, BP, EA, NEA});
    assert {SNPID} + {CHR, BP, EA, NEA} == {CHR, BP, EA, NEA, SNPID};
    KeyedRows(nums, v);
    r
  }

  /** Validating and keying are `EarlyCheck` then `KeyCheck` applied to every row, in order. */
  lemma KeyedTableSifted(nums: Numerics, u: Table)
    requires WellFormed(u) && CHR in u.cols && BP in u.cols && EA in u.cols && NEA in u.cols
    ensures KeyedTable(nums, u).rows == Sift(u.rows, Then(EarlyCheck(nums), KeyCheck(nums)))
  {
    var v := Validated(nums, u);
    ValidatedSifted(nums, u);
    KeyedSift(nums, v, MakeSnpIdUnique(nums, v).rows);
    SiftThen(u.rows, EarlyCheck(nums), KeyCheck(nums));
  }

  lemma KeyedSift(nums: Numerics, v: Table, rows: seq<Row>)
    requires |rows| == |v.rows| && forall k :: 0 <= k < |rows| ==> rows[k] == v.rows[k][SNPID := Str(Key(nums, v.rows[k]))]
    ensures rows == Sift(v.rows, KeyCheck(nums))
  {
    SiftRows(v.rows, KeyCheck(nums), rows);
  }

  lemma KeyedRows(nums: Numerics, v: Table)
    requires WellFormed(v) && CHR in v.cols && BP in v.cols && EA in v.cols && NEA in v.cols
    requires forall o :: o in v.rows ==> Canonical(o) && o[EA] != o[NEA]
    ensures TextAlleles(v.rows)
    ensures forall o :: o in MakeSnpIdUnique(nums, v).rows ==> Keyed(nums, o)
  {
    assert TextAlleles(v.rows) by {
      forall o | o in v.rows ensures CellAt(o, EA).Str? && CellAt(o, NEA).Str? {
        assert Canonical(o);
      }
    }
    var r := MakeSnpIdUnique(nums, v);
    forall o | o in r.rows ensures Keyed(nums, o) {
      var k :| 0 <= k < |r.rows| && r.rows[k] == o;
      assert v.rows[k] in v.rows;
      KeyedRow(nums, v.rows[k]);
    }
  }

  /** A validated row with its key written in is keyed. */
  lemma KeyedRow(nums: Numerics, i: Row)
    requires Canonical(i) && i[EA] != i[NEA]
    ensures Keyed(nums, i[SNPID := Str(Key(nums, i))])
  {
    KeyIgnoresSnpId(nums, i, Str(Key(nums, i)));
  }

  // ---------------------------------------------------------------------------
  // Ranking by p-value
  // ---------------------------------------------------------------------------

  /** `10 ** (-NEGLOGP)` of one row. */
  function PFromNeglogp(nums: Numerics, row: Row): Cell {
    if CellAt(row, NEGLOGP).Num? then Num(nums.pow10neg(CellAt(row, NEGLOGP).v)) else Null
  }

  /** `10 ** (-NEGLOGP)` as the value of the new P column. */
  function PCell(nums: Numerics): Row -> Cell {
    row => PFromNeglogp(nums, row)
  }

  /** The row-level form of ranking: check P when present, else check NEGLOGP and
      derive P from it when NEGLOGP is present, else keep the row. */
  function RankCheck(nums: Numerics, hasP: bool, hasNeglogp: bool): Row -> Option<Row> {
    if hasP then CheckRow(P, PvalueCheck(nums))
    else if hasNeglogp then Then(CheckRow(NEGLOGP, NeglogpCheck(nums)), SetRow(P, PCell(nums)))
    else Pass()
  }

  /** With a P column: validate it and sort on it. Without one but with NEGLOGP: validate
      NEGLOGP, derive P from it and sort on P. With neither: the table unchanged. */
  function RankByP(nums: Numerics, v: Table): (r: Table)
    requires WellFormed(v)
    ensures WellFormed(r)
    ensures forall c :: c in r.cols <==> c in v.cols || (c == P && NEGLOGP in v.cols)
    ensures Derived(r.rows, v.rows, {P, NEGLOGP})
    ensures P in v.cols || NEGLOGP in v.cols ==> SortedBy(r.rows, P, P)
    ensures P in v.cols ==> forall o :: o in r.rows ==> P in o && IsPvalue(o[P])
    ensures P !in v.cols && NEGLOGP in v.cols ==>
      forall o :: o in r.rows ==> NEGLOGP in o && IsAbove(o[NEGLOGP], NEGLOGP_MIN) && P in o && o[P] == Num(nums.pow10neg(RealOf(o[NEGLOGP])))
    ensures P !in v.cols && NEGLOGP !in v.cols ==> r == v
  {
    if P in v.cols then
      RankByPvalue(nums, v);
      SortTable(MungePvalue(nums, v), P, P)
    else if NEGLOGP in v.cols then
      RankByNeglogp(nums, v);
      SortTable(SetColumn(MungeNeglogp(nums, v), P, PCell(nums)), P, P)
    else
      assert forall o :: o in v.rows ==> AgreeExcept(o, o, {P, NEGLOGP});
      v
  }

  /** Ranking holds, in some order, the rows `RankCheck` makes of the input rows. */
  lemma RankByPSifted(nums: Numerics, v: Table)
    requires WellFormed(v)
    ensures multiset(RankByP(nums, v).rows) == multiset(Sift(v.rows, RankCheck(nums, P in v.cols, NEGLOGP in v.cols)))
  {
    if P in v.cols {
      ValidateColumnSift(v, P, PvalueCheck(nums));
    } else if NEGLOGP in v.cols {
      var a := MungeNeglogp(nums, v);
      var b := SetColumn(a, P, PCell(nums));
      NeglogpSift(nums, v, a, b, SortTable(b, P, P));
    } else {
      SiftPass(v.rows);
    }
  }

  lemma RankByPvalue(nums: Numerics, v: Table)
    requires WellFormed(v) && P in v.cols
    ensures var r := SortTable(MungePvalue(nums, v), P, P);
      && Derived(r.rows, v.rows, {P, NEGLOGP})
      && (forall o :: o in r.rows ==> P in o && IsPvalue(o[P]))
  {
    var a := MungePvalue(nums, v);
    var r := SortTable(a, P, P);
    TraceDerived(a.rows, v.rows, {P});
    PermutedDerived(r.rows, a.rows);
    DerivedTrans(r.rows, a.rows, v.rows, {}, {P});
    DerivedWider(r.rows, v.rows, {} + {P}, {P, NEGLOGP});
    forall o | o in r.rows ensures P in o && IsPvalue(o[P]) {
      assert o in multiset(a.rows);
    }
  }

  lemma RankByNeglogp(nums: Numerics, v: Table)
    requires WellFormed(v) && P !in v.cols && NEGLOGP in v.cols
    ensures var r := SortTable(SetColumn(MungeNeglogp(nums, v), P, PCell(nums)), P, P);
      && Derived(r.rows, v.rows, {P, NEGLOGP})
      && forall o :: o in r.rows ==> NEGLOGP in o && IsAbove(o[NEGLOGP], NEGLOGP_MIN) && P in o && o[P] == Num(nums.pow10neg(RealOf(o[NEGLOGP])))
  {
    var a := MungeNeglogp(nums, v);
    var b := SetColumn(a, P, PCell(nums));
    var r := SortTable(b, P, P);
    NeglogpSift(nums, v, a, b, r);
    NeglogpDerived(v, a, b, r);
    NeglogpRows(nums, a.rows, b.rows, r.rows);
  }

  /** Validating NEGLOGP, writing P and sorting hold the rows the row-level check makes. */
  lemma NeglogpSift(nums: Numerics, v: Table, a: Table, b: Table, r: Table)
    requires WellFormed(v) && NEGLOGP in v.cols
    requires a == MungeNeglogp(nums, v) && b == SetColumn(a, P, PCell(nums)) && r == SortTable(b, P, P)
    ensures multiset(r.rows) == multiset(Sift(v.rows, Then(CheckRow(NEGLOGP, NeglogpCheck(nums)), SetRow(P, PCell(nums)))))
  {
    ValidateColumnSift(v, NEGLOGP, NeglogpCheck(nums));
    SetColumnSift(a, P, PCell(nums));
    SiftThen(v.rows, CheckRow(NEGLOGP, NeglogpCheck(nums)), SetRow(P, PCell(nums)));
  }

  /** Validating NEGLOGP, writing P and sorting change only those two columns. */
  lemma NeglogpDerived(v: Table, a: Table, b: Table, r: Table)
    requires Trace(a.rows, v.rows, {NEGLOGP}) && Trace(b.rows, a.rows, {P})
    requires multiset(r.rows) == multiset(b.rows)
    ensures Derived(r.rows, v.rows, {P, NEGLOGP})
  {
    TraceTrans(b.rows, a.rows, v.rows, {P}, {NEGLOGP});
    TraceDerived(b.rows, v.rows, {P} + {NEGLOGP});
    PermutedDerived(r.rows, b.rows);
    DerivedTrans(r.rows, b.rows, v.rows, {}, {P} + {NEGLOGP});
    PNeglogpUnion();
  }

  lemma PNeglogpUnion()
    ensures {} + ({P} + {NEGLOGP}) == {P, NEGLOGP}
  {
  }

  lemma NeglogpRows(nums: Numerics, a: seq<Row>, b: seq<Row>, r: seq<Row>)
    requires forall w :: w in a ==> NEGLOGP in w && IsAbove(w[NEGLOGP], NEGLOGP_MIN)
    requires |b| == |a| && forall k :: 0 <= k < |a| ==> b[k] == a[k][P := PCell(nums)(a[k])]
    requires multiset(r) == multiset(b)
    ensures forall o :: o in r ==> NEGLOGP in o && IsAbove(o[NEGLOGP], NEGLOGP_MIN) && P in o && o[P] == Num(nums.pow10neg(RealOf(o[NEGLOGP])))
  {
    forall o | o in r ensures NEGLOGP in o && IsAbove(o[NEGLOGP], NEGLOGP_MIN) && P in o && o[P] == Num(nums.pow10neg(RealOf(o[NEGLOGP]))) {
      assert o in multiset(b);
      var k :| 0 <= k < |b| && b[k] == o;
      assert a[k] in a;
    }
  }

  lemma DerivedWider(out: seq<Row>, src: seq<Row>, x: set<string>, y: set<string>)
    requires Derived(out, src, x) && x <= y
    ensures Derived(out, src, y)
  {
    forall o | o in out ensures exists i :: i in src && AgreeExcept(o, i, y) {
      var i :| i in src && AgreeExcept(o, i, x);
    }
  }

  // ---------------------------------------------------------------------------
  // Duplicates: drop_duplicates on SNPID, then sort on CHR and BP
  // ---------------------------------------------------------------------------

  /** One row per key, the first met, then the rows ordered by chromosome and position. */
  function Deduplicated(s: Table): (r: Table)
    requires WellFormed(s)
    ensures WellFormed(r) && r.cols == s.cols
    ensures DistinctOn(r.rows, SNPID)
    ensures SortedBy(r.rows, CHR, BP)
    ensures forall o :: o in r.rows ==> o in s.rows
    ensures forall i :: i in s.rows ==> exists o :: o in r.rows && CellAt(o, SNPID) == CellAt(i, SNPID)
    ensures forall o :: o in r.rows <==> FirstOf(s.rows, o, SNPID)
  {
    var d := DropDuplicates(s, SNPID);
    var r := SortTable(d, CHR, BP);
    SortRowsDistinct(d.rows, CHR, BP, SNPID);
    forall o | o in r.rows ensures o in s.rows {
      assert o in multiset(d.rows);
    }
    forall i | i in s.rows ensures exists o :: o in r.rows && CellAt(o, SNPID) == CellAt(i, SNPID) {
      var o :| o in d.rows && CellAt(o, SNPID) == CellAt(i, SNPID);
      assert o in multiset(r.rows);
    }
    SameMembers(r.rows, d.rows, s.rows);
    r
  }

  /** A reordering of the kept rows holds the same rows. */
  lemma SameMembers(out: seq<Row>, kept: seq<Row>, src: seq<Row>)
    requires multiset(out) == multiset(kept)
    requires forall o :: o in kept <==> FirstOf(src, o, SNPID)
    ensures forall o :: o in out <==> FirstOf(src, o, SNPID)
  {
    forall o ensures o in out <==> FirstOf(src, o, SNPID) {
      assert o in out <==> o in multiset(kept);
    }
  }

  /** When the rows arrive sorted by p-value, the row kept for a key has the least
      p-value among the rows with that key. */
  lemma DeduplicatedMinimal(s: Table)
    requires WellFormed(s) && SortedBy(s.rows, P, P)
    ensures forall o, i :: o in Deduplicated(s).rows && i in s.rows && CellAt(i, SNPID) == CellAt(o, SNPID) ==>
      RealOf(CellAt(o, P)) <= RealOf(CellAt(i, P))
  {
    var d := DropDuplicates(s, SNPID);
    KeepFirstMinimal(s.rows, SNPID, P, P);
    MinimalCarries(d.rows, Deduplicated(s).rows, s.rows);
  }

  lemma MinimalCarries(kept: seq<Row>, out: seq<Row>, src: seq<Row>)
    requires multiset(out) == multiset(kept)
    requires forall o, i :: o in kept && i in src && CellAt(i, SNPID) == CellAt(o, SNPID) ==>
      PairLe(ColsKey(o, P, P), ColsKey(i, P, P))
    ensures forall o, i :: o in out && i in src && CellAt(i, SNPID) == CellAt(o, SNPID) ==>
      RealOf(CellAt(o, P)) <= RealOf(CellAt(i, P))
  {
    forall o, i | o in out && i in src && CellAt(i, SNPID) == CellAt(o, SNPID)
      ensures RealOf(CellAt(o, P)) <= RealOf(CellAt(i, P))
    {
      assert o in multiset(kept);
      assert PairLe(ColsKey(o, P, P), ColsKey(i, P, P));
    }
  }

  // ---------------------------------------------------------------------------
  // Effect sizes: BETA and SE, or OR and ORSE converted
  // ---------------------------------------------------------------------------

  /** The row-level form of `munge_beta` then `munge_se`. */
  function BetaSeCheck(nums: Numerics): Row -> Option<Row> {
    Then(CheckRow(BETA, NumericCheck(nums)), CheckRow(SE, SeCheck(nums)))
  }

  /** A row passes the effect checks exactly when BETA is a number and SE a positive
      number; it leaves with both stored as numbers and nothing else changed. */
  lemma BetaSeCells(nums: Numerics, i: Row)
    ensures BetaSeCheck(nums)(i).Some? <==>
      && BETA in i && ToNumber(nums, i[BETA]).Some?
      && SE in i && ToNumber(nums, i[SE]).Some? && SE_MIN < ToNumber(nums, i[SE]).value
    ensures BetaSeCheck(nums)(i).Some? ==>
      BetaSeCheck(nums)(i).value == i[BETA := Num(ToNumber(nums, i[BETA]).value)][SE := Num(ToNumber(nums, i[SE]).value)]
  {
    if BETA in i && NumericCell(nums, i[BETA]).Some? {
      var a := i[BETA := NumericCell(nums, i[BETA]).value];
      assert CheckRow(BETA, NumericCheck(nums))(i) == Some(a);
      assert SE in a <==> SE in i;
      if SE in i {
        assert a[SE] == i[SE];
      }
    }
  }

  /** `munge_beta` then `munge_se`. */
  function CheckedEffects(nums: Numerics, c: Table): (r: Table)
    requires WellFormed(c) && BETA in c.cols && SE in c.cols
    ensures WellFormed(r) && r.cols == c.cols
    ensures Trace(r.rows, c.rows, {BETA, SE})
    ensures forall o :: o in r.rows ==> BETA in o && IsNumber(o[BETA]) && SE in o && IsSe(o[SE])
  {
    var e := MungeBeta(nums, c);
    var f := MungeSe(nums, e);
    TraceTrans(f.rows, e.rows, c.rows, {SE}, {BETA});
    assert {SE} + {BETA} == {BETA, SE};
    TraceKeeps(f.rows, e.rows, {SE}, BETA, IsNumber);
    f
  }

  /** `munge_beta` then `munge_se` are `BetaSeCheck` applied to every row, in order. */
  lemma CheckedEffectsSifted(nums: Numerics, c: Table)
    requires WellFormed(c) && BETA in c.cols && SE in c.cols
    ensures CheckedEffects(nums, c).rows == Sift(c.rows, BetaSeCheck(nums))
  {
    ValidateColumnSift(c, BETA, NumericCheck(nums));
    ValidateColumnSift(MungeBeta(nums, c), SE, SeCheck(nums));
    SiftThen(c.rows, CheckRow(BETA, NumericCheck(nums)), CheckRow(SE, SeCheck(nums)));
  }

  /** Numbers already in BETA (and in SE, where present) pass validation unchanged, so
      every checked row is an input row. */
  lemma CheckedUnchanged(nums: Numerics, c: Table)
    requires WellFormed(c) && BETA in c.cols && SE in c.cols
    requires forall y :: y in c.rows ==> CellAt(y, BETA).Num? && (CellAt(y, SE).Num? || CellAt(y, SE) == Null)
    ensures forall o :: o in CheckedEffects(nums, c).rows ==> o in c.rows
  {
    var e := MungeBeta(nums, c);
    var f := MungeSe(nums, e);
    forall x | x in f.rows ensures x in c.rows {
      var z := ValidatedUnchanged(nums, c, e, f, x);
    }
  }

  lemma UpdateSame(row: Row, c: string)
    requires c in row
    ensures row[c := row[c]] == row
  {
  }

  lemma NumericFixed(nums: Numerics, c: Cell)
    requires c.Num?
    ensures NumericCheck(nums)(c) == Some(c)
  {
  }

  lemma SeFixed(nums: Numerics, c: Cell)
    requires c.Num? || c == Null
    requires SeCheck(nums)(c).Some?
    ensures SeCheck(nums)(c) == Some(c)
  {
  }

  /** A row that passed BETA and SE validation when both cells were numbers already (or SE
      missing) is an input row unchanged. */
  lemma ValidatedUnchanged(nums: Numerics, c: Table, e: Table, f: Table, x: Row) returns (z: Row)
    requires WellFormed(c) && BETA in c.cols && SE in c.cols
    requires e == MungeBeta(nums, c) && f == MungeSe(nums, e) && x in f.rows
    requires forall y :: y in c.rows ==> CellAt(y, BETA).Num? && (CellAt(y, SE).Num? || CellAt(y, SE) == Null)
    ensures z in c.rows && x == z
  {
    assert Accepted(x, e.rows, SE, SeCheck(nums));
    var w :| w in e.rows && SE in w && SeCheck(nums)(w[SE]) == Some(x[SE]) && x == w[SE := x[SE]];
    assert Accepted(w, c.rows, BETA, NumericCheck(nums));
    z :| z in c.rows && BETA in z && NumericCheck(nums)(z[BETA]) == Some(w[BETA]) && w == z[BETA := w[BETA]];
    assert CellAt(z, BETA).Num?;
    NumericFixed(nums, z[BETA]);
    assert w[BETA] == z[BETA];
    UpdateSame(z, BETA);
    assert CellAt(w, SE) == CellAt(z, SE);
    SeFixed(nums, w[SE]);
    assert x[SE] == w[SE];
    UpdateSame(w, SE);
  }

  /** OR and ORSE of `y` are the parsed OR and ORSE of `i`; nothing else differs. */
  ghost predicate OddsParsed(nums: Numerics, y: Row, i: Row) {
    && AgreeExcept(y, i, {OR, ORSE})
    && ToNumber(nums, CellAt(i, OR)).Some? && CellAt(y, OR) == Num(ToNumber(nums, CellAt(i, OR)).value)
    && ToNumber(nums, CellAt(i, ORSE)).Some? && CellAt(y, ORSE) == Num(ToNumber(nums, CellAt(i, ORSE)).value)
  }

  /** The row-level form of `munge_or` then `munge_orse`. */
  function OddsValid(nums: Numerics): Row -> Option<Row> {
    Then(CheckRow(OR, NumericCheck(nums)), CheckRow(ORSE, OrseCheck(nums)))
  }

  /** `munge_or` then `munge_orse`. */
  function ValidOdds(nums: Numerics, d: Table): (r: Table)
    requires WellFormed(d) && OR in d.cols && ORSE in d.cols
    ensures WellFormed(r) && r.cols == d.cols
    ensures Trace(r.rows, d.rows, {OR, ORSE})
    ensures forall y :: y in r.rows ==> exists i :: i in d.rows && OddsParsed(nums, y, i)
  {
    var a := MungeOr(nums, d);
    var b := MungeOrse(nums, a);
    TraceTrans(b.rows, a.rows, d.rows, {ORSE}, {OR});
    assert {ORSE} + {OR} == {OR, ORSE};
    forall y | y in b.rows ensures exists i :: i in d.rows && OddsParsed(nums, y, i) {
      var i := ParsedOdds(nums, d.rows, a.rows, y);
    }
    b
  }

  /** `munge_or` then `munge_orse` are `OddsValid` applied to every row, in order. */
  lemma ValidOddsSifted(nums: Numerics, d: Table)
    requires WellFormed(d) && OR in d.cols && ORSE in d.cols
    ensures ValidOdds(nums, d).rows == Sift(d.rows, OddsValid(nums))
  {
    ValidateColumnSift(d, OR, NumericCheck(nums));
    ValidateColumnSift(MungeOr(nums, d), ORSE, OrseCheck(nums));
    SiftThen(d.rows, CheckRow(OR, NumericCheck(nums)), CheckRow(ORSE, OrseCheck(nums)));
  }

  /** A row that passed OR and ORSE validation holds both as parsed numbers. */
  lemma ParsedOdds(nums: Numerics, d: seq<Row>, a: seq<Row>, y: Row) returns (i: Row)
    requires Accepted(y, a, ORSE, OrseCheck(nums))
    requires forall w :: w in a ==> Accepted(w, d, OR, NumericCheck(nums))
    ensures i in d && OddsParsed(nums, y, i)
  {
    var w := AcceptedSource(y, a, ORSE, OrseCheck(nums));
    i := AcceptedSource(w, d, OR, NumericCheck(nums));
    assert AboveCell(nums, w[ORSE], ORSE_MIN) == Some(y[ORSE]);
    assert NumericCell(nums, i[OR]) == Some(w[OR]);
    assert CellAt(i, ORSE) == CellAt(w, ORSE);
    assert CellAt(y, OR) == CellAt(w, OR);
  }

  /** `ORSE / OR` of one row. A zero odds ratio gives a missing value here. */
  function SeFromOdds(row: Row): Cell {
    var or, orse := CellAt(row, OR), CellAt(row, ORSE);
    if or.Num? && orse.Num? && or.v != 0.0 then Num(orse.v / or.v) else Null
  }

  /** The odds ratio as the value of the new BETA column. */
  function OrCell(row: Row): Cell {
    CellAt(row, OR)
  }

  /** The row-level form of BETA := OR, then SE := ORSE / OR. */
  function OddsSet(): Row -> Option<Row> {
    Then(SetRow(BETA, OrCell), SetRow(SE, SeFromOdds))
  }

  /** BETA := OR and SE := ORSE / OR on every row. */
  function OddsColumns(y: Table): (r: Table)
    requires WellFormed(y)
    ensures WellFormed(r) && |r.rows| == |y.rows|
    ensures forall c :: c in r.cols <==> c in y.cols || c == BETA || c == SE
    ensures forall k :: 0 <= k < |y.rows| ==> r.rows[k] == y.rows[k][BETA := CellAt(y.rows[k], OR)][SE := SeFromOdds(y.rows[k])]
    ensures Trace(r.rows, y.rows, {BETA, SE})
  {
    var a := SetColumn(y, BETA, OrCell);
    var b := SetColumn(a, SE, SeFromOdds);
    OddsColumnsRows(y, a, b);
    b
  }

  /** Writing BETA and SE is `OddsSet` applied to every row, in order. */
  lemma OddsColumnsSifted(y: Table)
    requires WellFormed(y)
    ensures OddsColumns(y).rows == Sift(y.rows, OddsSet())
  {
    var a := SetColumn(y, BETA, OrCell);
    OddsColumnsSift(y, a, SetColumn(a, SE, SeFromOdds));
  }

  lemma OddsColumnsRows(y: Table, a: Table, b: Table)
    requires WellFormed(y) && a == SetColumn(y, BETA, OrCell) && b == SetColumn(a, SE, SeFromOdds)
    ensures forall k :: 0 <= k < |y.rows| ==> b.rows[k] == y.rows[k][BETA := CellAt(y.rows[k], OR)][SE := SeFromOdds(y.rows[k])]
    ensures Trace(b.rows, y.rows, {BETA, SE})
  {
    TraceTrans(b.rows, a.rows, y.rows, {SE}, {BETA});
    assert {SE} + {BETA} == {BETA, SE};
    forall k | 0 <= k < |y.rows| ensures b.rows[k] == y.rows[k][BETA := CellAt(y.rows[k], OR)][SE := SeFromOdds(y.rows[k])] {
      assert OrCell(y.rows[k]) == CellAt(y.rows[k], OR);
      OddsIgnoreBeta(y.rows[k], CellAt(y.rows[k], OR));
    }
  }

  lemma OddsColumnsSift(y: Table, a: Table, b: Table)
    requires WellFormed(y) && a == SetColumn(y, BETA, OrCell) && b == SetColumn(a, SE, SeFromOdds)
    ensures b.rows == Sift(y.rows, OddsSet())
  {
    SetColumnSift(y, BETA, OrCell);
    SetColumnSift(a, SE, SeFromOdds);
    SiftThen(y.rows, SetRow(BETA, OrCell), SetRow(SE, SeFromOdds));
  }

  /** The standard error from the odds columns does not read BETA. */
  lemma OddsIgnoreBeta(row: Row, v: Cell)
    ensures SeFromOdds(row[BETA := v]) == SeFromOdds(row)
  {
    assert CellAt(row[BETA := v], OR) == CellAt(row, OR);
    assert CellAt(row[BETA := v], ORSE) == CellAt(row, ORSE);
  }

  /** `del t[OR]; del t[ORSE]`. */
  function DropOdds(f: Table): (r: Table)
    requires WellFormed(f)
    ensures WellFormed(r) && |r.rows| == |f.rows|
    ensures forall c :: c in r.cols <==> c in f.cols && c != OR && c != ORSE
    ensures forall k :: 0 <= k < |f.rows| ==> r.rows[k] == f.rows[k] - {OR} - {ORSE}
    ensures Trace(r.rows, f.rows, {OR, ORSE})
  {
    var g1 := DropColumn(f, OR);
    var g := DropColumn(g1, ORSE);
    TraceTrans(g.rows, g1.rows, f.rows, {ORSE}, {OR});
    assert {ORSE} + {OR} == {OR, ORSE};
    assert forall c :: c in g.cols <==> c in ColSet(g.cols);
    assert forall c :: c in f.cols <==> c in ColSet(f.cols);
    g
  }

  /** Dropping OR and ORSE is `DropRow` of each applied to every row, in order. */
  lemma DropOddsSifted(f: Table)
    requires WellFormed(f)
    ensures DropOdds(f).rows == Sift(f.rows, Then(DropRow(OR), DropRow(ORSE)))
  {
    var g1 := DropColumn(f, OR);
    DropOddsSift(f, g1, DropColumn(g1, ORSE));
  }

  lemma DropOddsSift(f: Table, g1: Table, g: Table)
    requires WellFormed(f) && g1 == DropColumn(f, OR) && g == DropColumn(g1, ORSE)
    ensures g.rows == Sift(f.rows, Then(DropRow(OR), DropRow(ORSE)))
  {
    DropColumnSift(f, OR);
    DropColumnSift(g1, ORSE);
    SiftThen(f.rows, DropRow(OR), DropRow(ORSE));
  }

  /** Both odds-ratio cells of `i` parse as numbers; `o` holds the first as BETA and the
      ratio of the second to the first as SE. */
  ghost predicate ConvertedFrom(nums: Numerics, o: Row, i: Row) {
    && ToNumber(nums, CellAt(i, OR)).Some? && ToNumber(nums, CellAt(i, ORSE)).Some?
    && ToNumber(nums, CellAt(i, OR)).value != 0.0
    && CellAt(o, BETA) == Num(ToNumber(nums, CellAt(i, OR)).value)
    && CellAt(o, SE) == Num(ToNumber(nums, CellAt(i, ORSE)).value / ToNumber(nums, CellAt(i, OR)).value)
  }

  /** The row-level form of the odds-ratio branch. */
  function OddsCheck(nums: Numerics): Row -> Option<Row> {
    Then(Then(Then(OddsValid(nums), OddsSet()), BetaSeCheck(nums)), Then(DropRow(OR), DropRow(ORSE)))
  }

  /** A row passes the odds-ratio branch exactly when OR is a nonzero number, ORSE a
      positive number and their ratio positive; it leaves with BETA := OR and SE :=
      ORSE / OR, without OR and ORSE, and nothing else changed. */
  lemma OddsCells(nums: Numerics, i: Row)
    ensures OddsCheck(nums)(i).Some? <==>
      && OR in i && ToNumber(nums, i[OR]).Some? && ToNumber(nums, i[OR]).value != 0.0
      && ORSE in i && ToNumber(nums, i[ORSE]).Some? && ORSE_MIN < ToNumber(nums, i[ORSE]).value
      && SE_MIN < ToNumber(nums, i[ORSE]).value / ToNumber(nums, i[OR]).value
    ensures OddsCheck(nums)(i).Some? ==> OddsReplaced(nums, OddsCheck(nums)(i).value, i)
  {
    ConvertCells(nums, i);
    var x := Then(Then(OddsValid(nums), OddsSet()), BetaSeCheck(nums))(i);
    assert OddsCheck(nums)(i) == if x.Some? then Then(DropRow(OR), DropRow(ORSE))(x.value) else None;
    if x.Some? {
      var o := x.value - {OR} - {ORSE};
      assert Then(DropRow(OR), DropRow(ORSE))(x.value) == Some(o);
      DroppedConverted(nums, i, x.value, o);
    }
  }

  /** `o` is `i` with BETA and SE taken from its odds ratio and OR and ORSE removed. */
  ghost predicate OddsReplaced(nums: Numerics, o: Row, i: Row) {
    AgreeExcept(o, i, {BETA, SE, OR, ORSE}) && OR !in o && ORSE !in o && ConvertedFrom(nums, o, i)
  }

  lemma DroppedConverted(nums: Numerics, i: Row, x: Row, o: Row)
    requires OR in i && ORSE in i && ToNumber(nums, i[OR]).Some? && ToNumber(nums, i[ORSE]).Some?
    requires ToNumber(nums, i[OR]).value != 0.0
    requires x == i[OR := Num(ToNumber(nums, i[OR]).value)][ORSE := Num(ToNumber(nums, i[ORSE]).value)]
      [BETA := Num(ToNumber(nums, i[OR]).value)][SE := Num(ToNumber(nums, i[ORSE]).value / ToNumber(nums, i[OR]).value)]
    requires o == x - {OR} - {ORSE}
    ensures OddsReplaced(nums, o, i)
  {
    assert CellAt(o, BETA) == x[BETA];
    assert CellAt(o, SE) == x[SE];
  }

  /** Validating the odds, converting them and checking BETA and SE. */
  lemma ConvertCells(nums: Numerics, i: Row)
    ensures Then(Then(OddsValid(nums), OddsSet()), BetaSeCheck(nums))(i).Some? <==>
      && OR in i && ToNumber(nums, i[OR]).Some? && ToNumber(nums, i[OR]).value != 0.0
      && ORSE in i && ToNumber(nums, i[ORSE]).Some? && ORSE_MIN < ToNumber(nums, i[ORSE]).value
      && SE_MIN < ToNumber(nums, i[ORSE]).value / ToNumber(nums, i[OR]).value
    ensures Then(Then(OddsValid(nums), OddsSet()), BetaSeCheck(nums))(i).Some? ==>
      Then(Then(OddsValid(nums), OddsSet()), BetaSeCheck(nums))(i).value ==
        i[OR := Num(ToNumber(nums, i[OR]).value)][ORSE := Num(ToNumber(nums, i[ORSE]).value)]
         [BETA := Num(ToNumber(nums, i[OR]).value)][SE := Num(ToNumber(nums, i[ORSE]).value / ToNumber(nums, i[OR]).value)]
  {
    OddsValidCells(nums, i);
    if OddsValid(nums)(i).Some? {
      var or, orse := ToNumber(nums, i[OR]).value, ToNumber(nums, i[ORSE]).value;
      var b := OddsValid(nums)(i).value;
      assert b[OR] == Num(or) && b[ORSE] == Num(orse);
      OddsSetCells(b);
      var c := b[BETA := Num(or)][SE := SeFromOdds(b)];
      assert Then(OddsValid(nums), OddsSet())(i) == Some(c);
      ConvertedCells(nums, b, or, orse);
    }
  }

  /** The converted row passes the BETA and SE checks exactly when the odds ratio is
      nonzero and the ratio positive, and then it is unchanged by them. */
  lemma ConvertedCells(nums: Numerics, b: Row, or: real, orse: real)
    requires OR in b && ORSE in b && b[OR] == Num(or) && b[ORSE] == Num(orse)
    ensures BetaSeCheck(nums)(b[BETA := Num(or)][SE := SeFromOdds(b)]).Some? <==> or != 0.0 && SE_MIN < orse / or
    ensures BetaSeCheck(nums)(b[BETA := Num(or)][SE := SeFromOdds(b)]).Some? ==>
      BetaSeCheck(nums)(b[BETA := Num(or)][SE := SeFromOdds(b)]).value == b[BETA := Num(or)][SE := Num(orse / or)]
  {
    var c := b[BETA := Num(or)][SE := SeFromOdds(b)];
    BetaSeCells(nums, c);
    assert c[BETA] == Num(or) && c[SE] == SeFromOdds(b);
    if or != 0.0 {
      assert SeFromOdds(b) == Num(orse / or);
      if SE_MIN < orse / or {
        assert c[BETA := Num(or)] == c;
        assert c[BETA := Num(or)][SE := Num(orse / or)] == c;
      }
    }
  }

  /** The odds checks pass exactly when OR is a number and ORSE a positive number. */
  lemma OddsValidCells(nums: Numerics, i: Row)
    ensures OddsValid(nums)(i).Some? <==>
      OR in i && ORSE in i && ToNumber(nums, i[OR]).Some? && ToNumber(nums, i[ORSE]).Some? && ORSE_MIN < ToNumber(nums, i[ORSE]).value
    ensures OddsValid(nums)(i).Some? ==>
      OddsValid(nums)(i).value == i[OR := Num(ToNumber(nums, i[OR]).value)][ORSE := Num(ToNumber(nums, i[ORSE]).value)]
  {
    if OR in i && NumericCell(nums, i[OR]).Some? {
      var a := i[OR := NumericCell(nums, i[OR]).value];
      assert CheckRow(OR, NumericCheck(nums))(i) == Some(a);
      assert ORSE in a <==> ORSE in i;
      if ORSE in i {
        assert a[ORSE] == i[ORSE];
      }
    }
  }

  lemma OddsSetCells(b: Row)
    ensures OddsSet()(b) == Some(b[BETA := CellAt(b, OR)][SE := SeFromOdds(b)])
  {
    var a := b[BETA := OrCell(b)];
    assert SetRow(BETA, OrCell)(b) == Some(a);
    OddsIgnoreBeta(b, CellAt(b, OR));
    assert SetRow(SE, SeFromOdds)(a) == Some(a[SE := SeFromOdds(a)]);
  }

  /** The odds-ratio branch of `munge`: validate OR and ORSE, convert them to BETA and SE,
      validate those, and drop OR and ORSE. */
  function FromOddsRatio(nums: Numerics, d: Table): (r: Table)
    requires WellFormed(d) && OR in d.cols && ORSE in d.cols
    ensures WellFormed(r)
    ensures forall c :: c in r.cols <==> (c in d.cols && c != OR && c != ORSE) || c == BETA || c == SE
    ensures Trace(r.rows, d.rows, {BETA, SE, OR, ORSE})
    ensures forall o :: o in r.rows ==> BETA in o && IsNumber(o[BETA]) && SE in o && IsSe(o[SE])
    ensures forall o :: o in r.rows ==> exists i :: i in d.rows && AgreeExcept(o, i, {BETA, SE, OR, ORSE}) && ConvertedFrom(nums, o, i)
  {
    var b := ValidOdds(nums, d);
    var c := OddsColumns(b);
    var f := CheckedEffects(nums, c);
    var g := DropOdds(f);
    OddsRows(nums, d, b, c, f, g);
    g
  }

  /** The odds-ratio branch is `OddsCheck` applied to every row, in order. */
  lemma FromOddsRatioSifted(nums: Numerics, d: Table)
    requires WellFormed(d) && OR in d.cols && ORSE in d.cols
    ensures FromOddsRatio(nums, d).rows == Sift(d.rows, OddsCheck(nums))
  {
    var b := ValidOdds(nums, d);
    var c := OddsColumns(b);
    var f := CheckedEffects(nums, c);
    ValidOddsSifted(nums, d);
    OddsColumnsSifted(b);
    CheckedEffectsSifted(nums, c);
    DropOddsSifted(f);
    OddsSift(nums, d.rows, b.rows, c.rows, f.rows, DropOdds(f).rows);
  }

  lemma OddsRows(nums: Numerics, d: Table, b: Table, c: Table, f: Table, g: Table)
    requires WellFormed(d) && OR in d.cols && ORSE in d.cols
    requires b == ValidOdds(nums, d) && c == OddsColumns(b) && f == CheckedEffects(nums, c) && g == DropOdds(f)
    ensures Trace(g.rows, d.rows, {BETA, SE, OR, ORSE})
    ensures forall o :: o in g.rows ==> BETA in o && IsNumber(o[BETA]) && SE in o && IsSe(o[SE])
    ensures forall o :: o in g.rows ==> exists i :: i in d.rows && AgreeExcept(o, i, {BETA, SE, OR, ORSE}) && ConvertedFrom(nums, o, i)
  {
    OddsRowsTrace(d.rows, b.rows, c.rows, f.rows, g.rows);
    OddsRowsConverted(nums, d, b, c, f, g);
  }

  lemma OddsRowsTrace(d: seq<Row>, b: seq<Row>, c: seq<Row>, f: seq<Row>, g: seq<Row>)
    requires Trace(b, d, {OR, ORSE}) && Trace(c, b, {BETA, SE})
    requires Trace(f, c, {BETA, SE}) && Trace(g, f, {OR, ORSE})
    requires forall o :: o in f ==> BETA in o && IsNumber(o[BETA]) && SE in o && IsSe(o[SE])
    ensures Trace(g, d, {BETA, SE, OR, ORSE})
    ensures forall o :: o in g ==> BETA in o && IsNumber(o[BETA]) && SE in o && IsSe(o[SE])
  {
    OddsTrace(d, b, c, f, g);
    TraceKeeps(g, f, {OR, ORSE}, BETA, IsNumber);
    TraceKeeps(g, f, {OR, ORSE}, SE, IsSe);
  }

  lemma OddsRowsConverted(nums: Numerics, d: Table, b: Table, c: Table, f: Table, g: Table)
    requires WellFormed(d) && OR in d.cols && ORSE in d.cols
    requires b == ValidOdds(nums, d) && c == OddsColumns(b) && f == CheckedEffects(nums, c) && g == DropOdds(f)
    ensures forall o :: o in g.rows ==> exists i :: i in d.rows && AgreeExcept(o, i, {BETA, SE, OR, ORSE}) && ConvertedFrom(nums, o, i)
  {
    assert ConvertedRows(c.rows, b.rows);
    OddsColumnsNumeric(nums, d.rows, b.rows, c.rows);
    CheckedUnchanged(nums, c);
    OddsConverted(nums, d.rows, b.rows, c.rows, f.rows, g.rows);
  }

  lemma OddsSift(nums: Numerics, d: seq<Row>, b: seq<Row>, c: seq<Row>, f: seq<Row>, g: seq<Row>)
    requires b == Sift(d, OddsValid(nums)) && c == Sift(b, OddsSet())
    requires f == Sift(c, BetaSeCheck(nums)) && g == Sift(f, Then(DropRow(OR), DropRow(ORSE)))
    ensures g == Sift(d, OddsCheck(nums))
  {
    SiftThen(d, OddsValid(nums), OddsSet());
    SiftThen(d, Then(OddsValid(nums), OddsSet()), BetaSeCheck(nums));
    SiftThen(d, Then(Then(OddsValid(nums), OddsSet()), BetaSeCheck(nums)), Then(DropRow(OR), DropRow(ORSE)));
  }

  lemma OddsTrace(d: seq<Row>, b: seq<Row>, c: seq<Row>, f: seq<Row>, g: seq<Row>)
    requires Trace(b, d, {OR, ORSE}) && Trace(c, b, {BETA, SE})
    requires Trace(f, c, {BETA, SE}) && Trace(g, f, {OR, ORSE})
    ensures Trace(g, d, {BETA, SE, OR, ORSE})
  {
    TraceTrans(c, b, d, {BETA, SE}, {OR, ORSE});
    TraceTrans(g, f, c, {OR, ORSE}, {BETA, SE});
    TraceTrans(g, c, d, {OR, ORSE} + {BETA, SE}, {BETA, SE} + {OR, ORSE});
    assert ({OR, ORSE} + {BETA, SE}) + ({BETA, SE} + {OR, ORSE}) == {BETA, SE, OR, ORSE};
  }

  /** Each converted row holds BETA := OR and SE := SeFromOdds of its row of `b`. */
  ghost predicate ConvertedRows(c: seq<Row>, b: seq<Row>) {
    |c| == |b| && forall k :: 0 <= k < |b| ==> c[k] == b[k][BETA := CellAt(b[k], OR)][SE := SeFromOdds(b[k])]
  }

  lemma OddsColumnsNumeric(nums: Numerics, d: seq<Row>, b: seq<Row>, c: seq<Row>)
    requires ConvertedRows(c, b)
    requires forall y :: y in b ==> exists i :: i in d && OddsParsed(nums, y, i)
    ensures forall y :: y in c ==> CellAt(y, BETA).Num? && (CellAt(y, SE).Num? || CellAt(y, SE) == Null)
  {
    forall y | y in c ensures CellAt(y, BETA).Num? && (CellAt(y, SE).Num? || CellAt(y, SE) == Null) {
      var m :| 0 <= m < |c| && c[m] == y;
      assert b[m] in b;
      var i :| i in d && OddsParsed(nums, b[m], i);
    }
  }

  /** A converted row comes from an input row with parsed odds. */
  lemma OddsSource(nums: Numerics, d: seq<Row>, b: seq<Row>, c: seq<Row>, x: Row) returns (i: Row)
    requires ConvertedRows(c, b)
    requires forall y :: y in b ==> exists i :: i in d && OddsParsed(nums, y, i)
    requires x in c
    ensures i in d && AgreeExcept(x, i, {BETA, SE, OR, ORSE})
    ensures ToNumber(nums, CellAt(i, OR)).Some? && ToNumber(nums, CellAt(i, ORSE)).Some?
    ensures CellAt(x, BETA) == Num(ToNumber(nums, CellAt(i, OR)).value)
    ensures ToNumber(nums, CellAt(i, OR)).value != 0.0 ==>
      CellAt(x, SE) == Num(ToNumber(nums, CellAt(i, ORSE)).value / ToNumber(nums, CellAt(i, OR)).value)
    ensures ToNumber(nums, CellAt(i, OR)).value == 0.0 ==> CellAt(x, SE) == Null
  {
    var m :| 0 <= m < |c| && c[m] == x;
    var y := b[m];
    assert y in b;
    i :| i in d && OddsParsed(nums, y, i);
    assert x == y[BETA := CellAt(y, OR)][SE := SeFromOdds(y)];
  }

  lemma OddsConverted(nums: Numerics, d: seq<Row>, b: seq<Row>, c: seq<Row>, f: seq<Row>, g: seq<Row>)
    requires ConvertedRows(c, b)
    requires forall y :: y in b ==> exists i :: i in d && OddsParsed(nums, y, i)
    requires forall x :: x in f ==> x in c && SE in x && IsSe(x[SE])
    requires |g| == |f| && forall k :: 0 <= k < |f| ==> g[k] == f[k] - {OR} - {ORSE}
    ensures forall o :: o in g ==> exists i :: i in d && AgreeExcept(o, i, {BETA, SE, OR, ORSE}) && ConvertedFrom(nums, o, i)
  {
    forall o | o in g ensures exists i :: i in d && AgreeExcept(o, i, {BETA, SE, OR, ORSE}) && ConvertedFrom(nums, o, i) {
      var k :| 0 <= k < |g| && g[k] == o;
      assert f[k] in f;
      var i := OddsSource(nums, d, b, c, f[k]);
      OddsDropped(nums, f[k], o, i);
    }
  }

  lemma OddsDropped(nums: Numerics, x: Row, o: Row, i: Row)
    requires o == x - {OR} - {ORSE} && AgreeExcept(x, i, {BETA, SE, OR, ORSE})
    requires SE in x && IsSe(x[SE])
    requires ToNumber(nums, CellAt(i, OR)).Some? && ToNumber(nums, CellAt(i, ORSE)).Some?
    requires CellAt(x, BETA) == Num(ToNumber(nums, CellAt(i, OR)).value)
    requires ToNumber(nums, CellAt(i, OR)).value != 0.0 ==>
      CellAt(x, SE) == Num(ToNumber(nums, CellAt(i, ORSE)).value / ToNumber(nums, CellAt(i, OR)).value)
    requires ToNumber(nums, CellAt(i, OR)).value == 0.0 ==> CellAt(x, SE) == Null
    ensures AgreeExcept(o, i, {BETA, SE, OR, ORSE}) && ConvertedFrom(nums, o, i)
  {
  }

  /** The odds-ratio branch is taken: no BETA and SE pair, but an OR and ORSE pair. */
  predicate UsesOdds(d: Table) {
    !(BETA in d.cols && SE in d.cols) && OR in d.cols && ORSE in d.cols
  }

  /** The row-level form of the effect-size stage. */
  function EffectCheck(nums: Numerics, hasBetaSe: bool, hasOdds: bool): Row -> Option<Row> {
    if hasBetaSe then BetaSeCheck(nums) else if hasOdds then OddsCheck(nums) else Pass()
  }

  /** The effect-size stage of `munge`: check BETA and SE when both are present, else
      convert OR and ORSE when both are present, else leave the table alone. */
  function Effects(nums: Numerics, d: Table): (r: Table)
    requires WellFormed(d)
    ensures WellFormed(r)
    ensures forall c :: c in r.cols <==>
      if UsesOdds(d) then (c in d.cols && c != OR && c != ORSE) || c == BETA || c == SE else c in d.cols
    ensures Trace(r.rows, d.rows, {BETA, SE, OR, ORSE})
    ensures (BETA in d.cols && SE in d.cols) || (OR in d.cols && ORSE in d.cols) ==>
      forall o :: o in r.rows ==> BETA in o && IsNumber(o[BETA]) && SE in o && IsSe(o[SE])
    ensures UsesOdds(d) ==>
      forall o :: o in r.rows ==> exists i :: i in d.rows && AgreeExcept(o, i, {BETA, SE, OR, ORSE}) && ConvertedFrom(nums, o, i)
    ensures !(BETA in d.cols && SE in d.cols) && !(OR in d.cols && ORSE in d.cols) ==> r == d
  {
    if BETA in d.cols && SE in d.cols then
      var r := CheckedEffects(nums, d);
      TraceWider(r.rows, d.rows, {BETA, SE}, {BETA, SE, OR, ORSE});
      r
    else if OR in d.cols && ORSE in d.cols then
      FromOddsRatio(nums, d)
    else
      TraceSame(d.rows, d.rows, {BETA, SE, OR, ORSE});
      d
  }

  /** The effect-size stage is `EffectCheck` applied to every row, in order. */
  lemma EffectsSifted(nums: Numerics, d: Table)
    requires WellFormed(d)
    ensures Effects(nums, d).rows == Sift(d.rows, EffectCheck(nums, BETA in d.cols && SE in d.cols, OR in d.cols && ORSE in d.cols))
  {
    if BETA in d.cols && SE in d.cols {
      CheckedEffectsSifted(nums, d);
    } else if OR in d.cols && ORSE in d.cols {
      FromOddsRatioSifted(nums, d);
    } else {
      SiftPass(d.rows);
    }
  }

  // ---------------------------------------------------------------------------
  // Z score and allele frequencies
  // ---------------------------------------------------------------------------

  /** The row-level form of `munge_z`. */
  function ZCheck(nums: Numerics, hasZ: bool): Row -> Option<Row> {
    if hasZ then CheckRow(Z, NumericCheck(nums)) else Pass()
  }

  /** `munge_z` when a Z column is present. */
  function CheckedZ(nums: Numerics, e: Table): (r: Table)
    requires WellFormed(e)
    ensures WellFormed(r) && r.cols == e.cols
    ensures Trace(r.rows, e.rows, {Z})
    ensures Z in e.cols ==> forall o :: o in r.rows ==> Z in o && IsNumber(o[Z])
    ensures Z !in e.cols ==> r == e
  {
    if Z in e.cols then
      MungeZ(nums, e)
    else
      TraceSame(e.rows, e.rows, {Z});
      e
  }

  /** `munge_z` is `ZCheck` applied to every row, in order. */
  lemma CheckedZSifted(nums: Numerics, e: Table)
    requires WellFormed(e)
    ensures CheckedZ(nums, e).rows == Sift(e.rows, ZCheck(nums, Z in e.cols))
  {
    if Z in e.cols {
      ValidateColumnSift(e, Z, NumericCheck(nums));
    } else {
      SiftPass(e.rows);
    }
  }

  /** The effect allele frequency as the value of the new MAF column. */
  function EafCell(row: Row): Cell {
    CellAt(row, EAF)
  }

  /** The row-level form of `munge_eaf`, MAF := EAF, `munge_maf`. */
  function EafMafCheck(nums: Numerics): Row -> Option<Row> {
    Then(Then(CheckRow(EAF, EafCheck(nums)), SetRow(MAF, EafCell)), CheckRow(MAF, MafCheck(nums)))
  }

  /** A row passes the frequency checks exactly when EAF is a number in [0, 1]; it leaves
      with EAF stored as that number and MAF as its fold, nothing else changed. */
  lemma EafMafCells(nums: Numerics, i: Row)
    ensures EafMafCheck(nums)(i).Some? <==>
      EAF in i && ToNumber(nums, i[EAF]).Some? && EAF_MIN <= ToNumber(nums, i[EAF]).value <= EAF_MAX
    ensures EafMafCheck(nums)(i).Some? ==>
      EafMafCheck(nums)(i).value == i[EAF := Num(ToNumber(nums, i[EAF]).value)][MAF := Num(Fold(ToNumber(nums, i[EAF]).value))]
  {
    if EAF in i && WithinCell(nums, i[EAF], EAF_MIN, EAF_MAX).Some? {
      var x := ToNumber(nums, i[EAF]).value;
      var a := i[EAF := Num(x)];
      assert CheckRow(EAF, EafCheck(nums))(i) == Some(a);
      var b := a[MAF := Num(x)];
      assert EafCell(a) == Num(x);
      assert SetRow(MAF, EafCell)(a) == Some(a[MAF := EafCell(a)]);
      assert MafCell(nums, b[MAF]) == Some(Num(Fold(x)));
      assert CheckRow(MAF, MafCheck(nums))(b) == Some(b[MAF := Num(Fold(x))]);
    }
  }

  /** `munge_eaf`, then MAF := EAF, then `munge_maf`. */
  function EafToMaf(nums: Numerics, y: Table): (r: Table)
    requires WellFormed(y) && EAF in y.cols
    ensures WellFormed(r)
    ensures forall c :: c in r.cols <==> c in y.cols || c == MAF
    ensures Trace(r.rows, y.rows, {EAF, MAF})
    ensures forall o :: o in r.rows ==> EAF in o && IsEaf(o[EAF]) && MAF in o && o[MAF] == Num(Fold(RealOf(o[EAF])))
    ensures forall o :: o in r.rows ==> MAF in o && IsMaf(o[MAF])
  {
    var a := MungeEaf(nums, y);
    var b := SetColumn(a, MAF, EafCell);
    var m := MungeMaf(nums, b);
    TraceTrans(b.rows, a.rows, y.rows, {MAF}, {EAF});
    TraceTrans(m.rows, b.rows, y.rows, {MAF}, {MAF} + {EAF});
    assert {MAF} + ({MAF} + {EAF}) == {EAF, MAF};
    EafCopied(a.rows, b.rows);
    TraceKeeps(m.rows, b.rows, {MAF}, EAF, IsEaf);
    MafFolded(nums, b.rows, m.rows);
    m
  }

  /** `munge_eaf`, MAF := EAF and `munge_maf` are `EafMafCheck` applied to every row, in order. */
  lemma EafToMafSifted(nums: Numerics, y: Table)
    requires WellFormed(y) && EAF in y.cols
    ensures EafToMaf(nums, y).rows == Sift(y.rows, EafMafCheck(nums))
  {
    var a := MungeEaf(nums, y);
    var b := SetColumn(a, MAF, EafCell);
    EafMafSift(nums, y, a, b, MungeMaf(nums, b));
  }

  lemma EafMafSift(nums: Numerics, y: Table, a: Table, b: Table, m: Table)
    requires WellFormed(y) && EAF in y.cols
    requires a == MungeEaf(nums, y) && b == SetColumn(a, MAF, EafCell) && m == MungeMaf(nums, b)
    ensures m.rows == Sift(y.rows, EafMafCheck(nums))
  {
    ValidateColumnSift(y, EAF, EafCheck(nums));
    SetColumnSift(a, MAF, EafCell);
    ValidateColumnSift(b, MAF, MafCheck(nums));
    SiftThen(y.rows, CheckRow(EAF, EafCheck(nums)), SetRow(MAF, EafCell));
    SiftThen(y.rows, Then(CheckRow(EAF, EafCheck(nums)), SetRow(MAF, EafCell)), CheckRow(MAF, MafCheck(nums)));
  }

  /** The row-level form of the frequency stage. */
  function FreqOnlyCheck(nums: Numerics, hasEaf: bool, hasMaf: bool): Row -> Option<Row> {
    if hasEaf then EafMafCheck(nums) else if hasMaf then CheckRow(MAF, MafCheck(nums)) else Pass()
  }

  /** The frequency stage: EAF first (which also fills MAF), else MAF alone. */
  function CheckedFrequencies(nums: Numerics, y: Table): (r: Table)
    requires WellFormed(y)
    ensures WellFormed(r)
    ensures forall c :: c in r.cols <==> c in y.cols || (c == MAF && EAF in y.cols)
    ensures Trace(r.rows, y.rows, {EAF, MAF})
    ensures EAF in y.cols ==>
      forall o :: o in r.rows ==> EAF in o && IsEaf(o[EAF]) && MAF in o && o[MAF] == Num(Fold(RealOf(o[EAF])))
    ensures EAF in y.cols || MAF in y.cols ==> forall o :: o in r.rows ==> MAF in o && IsMaf(o[MAF])
    ensures EAF !in y.cols && MAF !in y.cols ==> r == y
  {
    if EAF in y.cols then
      EafToMaf(nums, y)
    else if MAF in y.cols then
      var m := MungeMaf(nums, y);
      TraceWider(m.rows, y.rows, {MAF}, {EAF, MAF});
      m
    else
      TraceSame(y.rows, y.rows, {EAF, MAF});
      y
  }

  /** The frequency stage is `FreqOnlyCheck` applied to every row, in order. */
  lemma CheckedFrequenciesSifted(nums: Numerics, y: Table)
    requires WellFormed(y)
    ensures CheckedFrequencies(nums, y).rows == Sift(y.rows, FreqOnlyCheck(nums, EAF in y.cols, MAF in y.cols))
  {
    if EAF in y.cols {
      EafToMafSifted(nums, y);
    } else if MAF in y.cols {
      ValidateColumnSift(y, MAF, MafCheck(nums));
    } else {
      SiftPass(y.rows);
    }
  }

  lemma EafCopied(a: seq<Row>, b: seq<Row>)
    requires forall o :: o in a ==> EAF in o && IsEaf(o[EAF])
    requires |b| == |a| && forall k :: 0 <= k < |a| ==> b[k] == a[k][MAF := CellAt(a[k], EAF)]
    ensures forall w :: w in b ==> EAF in w && IsEaf(w[EAF]) && MAF in w && w[MAF] == w[EAF]
  {
    forall w | w in b ensures EAF in w && IsEaf(w[EAF]) && MAF in w && w[MAF] == w[EAF] {
      var k :| 0 <= k < |b| && b[k] == w;
      assert a[k] in a;
    }
  }

  /** A frequency copied into MAF and passed through `munge_maf` is the folded frequency. */
  lemma MafFolded(nums: Numerics, b: seq<Row>, m: seq<Row>)
    requires forall w :: w in b ==> EAF in w && IsEaf(w[EAF]) && MAF in w && w[MAF] == w[EAF]
    requires forall o :: o in m ==> Accepted(o, b, MAF, MafCheck(nums))
    ensures forall o :: o in m ==> EAF in o && MAF in o && o[MAF] == Num(Fold(RealOf(o[EAF])))
  {
    forall o | o in m ensures EAF in o && MAF in o && o[MAF] == Num(Fold(RealOf(o[EAF]))) {
      var w := AcceptedSource(o, b, MAF, MafCheck(nums));
      assert MafCell(nums, w[MAF]) == Some(o[MAF]);
      assert CellAt(o, EAF) == CellAt(w, EAF);
    }
  }

  /** The row-level form of the Z-score and frequency stages. */
  function FreqCheck(nums: Numerics, hasZ: bool, hasEaf: bool, hasMaf: bool): Row -> Option<Row> {
    Then(ZCheck(nums, hasZ), FreqOnlyCheck(nums, hasEaf, hasMaf))
  }

  /** The Z-score and frequency stages of `munge`. */
  function Frequencies(nums: Numerics, e: Table): (r: Table)
    requires WellFormed(e)
    ensures WellFormed(r)
    ensures forall c :: c in r.cols <==> c in e.cols || (c == MAF && EAF in e.cols)
    ensures Trace(r.rows, e.rows, {Z, EAF, MAF})
    ensures Z in e.cols ==> forall o :: o in r.rows ==> Z in o && IsNumber(o[Z])
    ensures EAF in e.cols ==>
      forall o :: o in r.rows ==> EAF in o && IsEaf(o[EAF]) && MAF in o && o[MAF] == Num(Fold(RealOf(o[EAF])))
    ensures EAF in e.cols || MAF in e.cols ==> forall o :: o in r.rows ==> MAF in o && IsMaf(o[MAF])
  {
    var y := CheckedZ(nums, e);
    var r := CheckedFrequencies(nums, y);
    TraceTrans(r.rows, y.rows, e.rows, {EAF, MAF}, {Z});
    assert {EAF, MAF} + {Z} == {Z, EAF, MAF};
    ZKept(r.rows, y.rows, Z in e.cols);
    r
  }

  /** The Z-score and frequency stages are `FreqCheck` applied to every row, in order. */
  lemma FrequenciesSifted(nums: Numerics, e: Table)
    requires WellFormed(e)
    ensures Frequencies(nums, e).rows == Sift(e.rows, FreqCheck(nums, Z in e.cols, EAF in e.cols, MAF in e.cols))
  {
    var y := CheckedZ(nums, e);
    CheckedZSifted(nums, e);
    CheckedFrequenciesSifted(nums, y);
    SiftThen(e.rows, ZCheck(nums, Z in e.cols), FreqOnlyCheck(nums, EAF in e.cols, MAF in e.cols));
  }

  lemma ZKept(r: seq<Row>, y: seq<Row>, present: bool)
    requires Trace(r, y, {EAF, MAF})
    requires present ==> forall o :: o in y ==> Z in o && IsNumber(o[Z])
    ensures present ==> forall o :: o in r ==> Z in o && IsNumber(o[Z])
  {
    if present {
      TraceKeeps(r, y, {EAF, MAF}, Z, IsNumber);
    }
  }
}
