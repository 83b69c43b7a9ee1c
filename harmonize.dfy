/** `harmonize`: two summary statistics joined on the variant key, with the second
    study's effect expressed relative to the first study's effect allele. */
module Harmonize {
  import opened Wrappers
  import opened Seqs
  import opened Columns
  import opened Frame
  import opened Validate
  import opened SnpId

  /** Columns the result takes from the first table only: the join key, and the
      variant columns whose second-table copies are deleted after the merge. */
  const SHARED: set<string> := {SNPID, CHR, BP, EA, NEA}
  const LEFT := "_1"
  const RIGHT := "_2"
  const BETA2 := BETA + RIGHT

  /** `merged["BETA_2"]` when either table lacks a BETA column. */
  const MISSING_BETA := "KeyError: BETA_2"
  /** Unary minus on a text effect. */
  const TEXT_BETA := "TypeError: bad operand type for unary -: 'str'"

  /** A column name that does not already end with one of the merge suffixes. */
  predicate Plain(c: string) {
    |c| < 2 || (c[|c| - 2..] != LEFT && c[|c| - 2..] != RIGHT)
  }

  /** What `make_SNPID_unique` and the merge need of an input table. */
  ghost predicate Mergeable(t: Table) {
    && WellFormed(t)
    && CHR in t.cols && BP in t.cols && EA in t.cols && NEA in t.cols
    && TextAlleles(t.rows)
    && forall c :: c in t.cols ==> Plain(c)
  }

  // ---------------------------------------------------------------------------
  // Column names of the result
  // ---------------------------------------------------------------------------

  /** A first-table column keeps its name unless the second table has it too;
      the variant columns are renamed back after the merge. */
  function LeftName(c: string, right: seq<string>): string {
    if c in right && c !in SHARED then c + LEFT else c
  }

  function RightName(c: string, left: seq<string>): string {
    if c in left then c + RIGHT else c
  }

  /** The second table's columns that survive: all but the join key and the four
      variant columns deleted after the merge. */
  function RightKept(right: seq<string>): (r: seq<string>)
    ensures forall c :: c in r <==> c in right && c !in SHARED
    ensures Distinct(right) ==> Distinct(r)
  {
    var r := Without(Without(Without(Without(Without(right, SNPID), CHR), BP), EA), NEA);
    assert forall c :: c in r <==> c in ColSet(r);
    r
  }

  function LeftNames(left: seq<string>, right: seq<string>): seq<string> {
    seq(|left|, k requires 0 <= k < |left| => LeftName(left[k], right))
  }

  function RightNames(left: seq<string>, right: seq<string>): seq<string> {
    var kept := RightKept(right);
    seq(|kept|, k requires 0 <= k < |kept| => RightName(kept[k], left))
  }

  function HarmonizedCols(left: seq<string>, right: seq<string>): seq<string> {
    LeftNames(left, right) + RightNames(left, right)
  }

  lemma SuffixCancel(a: string, s: string, b: string, t: string)
    requires |s| == |t| && a + s == b + t
    ensures a == b && s == t
  {
    assert a == (a + s)[..|a|] && b == (b + t)[..|b|];
    assert s == (a + s)[|a|..] && t == (b + t)[|b|..];
  }

  lemma SuffixedNotPlain(a: string, s: string)
    requires s == LEFT || s == RIGHT
    ensures !Plain(a + s) && (a + s)[..|a + s| - 2] == a
  {
    assert (a + s)[|a + s| - 2..] == s;
  }

  lemma LeftNameInjective(a: string, b: string, right: seq<string>)
    requires Plain(a) && Plain(b) && LeftName(a, right) == LeftName(b, right)
    ensures a == b
  {
    var sa, sb := a in right && a !in SHARED, b in right && b !in SHARED;
    if sa && sb {
      SuffixCancel(a, LEFT, b, LEFT);
    } else if sa {
      SuffixedNotPlain(a, LEFT);
    } else if sb {
      SuffixedNotPlain(b, LEFT);
    }
  }

  lemma RightNameInjective(a: string, b: string, left: seq<string>)
    requires Plain(a) && Plain(b) && RightName(a, left) == RightName(b, left)
    ensures a == b
  {
    if a in left && b in left {
      SuffixCancel(a, RIGHT, b, RIGHT);
    } else if a in left {
      SuffixedNotPlain(a, RIGHT);
    } else if b in left {
      SuffixedNotPlain(b, RIGHT);
    }
  }

  /** A renamed first-table column never collides with a kept second-table column. */
  lemma SidesApart(a: string, b: string, left: seq<string>, right: seq<string>)
    requires a in left && b in right && b !in SHARED && Plain(a) && Plain(b)
    ensures LeftName(a, right) != RightName(b, left)
  {
    var sa, sb := a in right && a !in SHARED, b in left;
    if sa && sb {
      if a + LEFT == b + RIGHT {
        SuffixCancel(a, LEFT, b, RIGHT);
      }
    } else if sa {
      SuffixedNotPlain(a, LEFT);
    } else if sb {
      SuffixedNotPlain(b, RIGHT);
    }
  }

  /** The result has no two columns of the same name. */
  lemma HarmonizedColsDistinct(left: seq<string>, right: seq<string>)
    requires Distinct(left) && Distinct(right)
    requires forall c :: c in left ==> Plain(c)
    requires forall c :: c in right ==> Plain(c)
    ensures Distinct(HarmonizedCols(left, right))
  {
    var l, rn, kept := LeftNames(left, right), RightNames(left, right), RightKept(right);
    var h := HarmonizedCols(left, right);
    forall i, j | 0 <= i < j < |h| ensures h[i] != h[j] {
      if j < |l| {
        if h[i] == h[j] {
          assert left[i] in left && left[j] in left;
          LeftNameInjective(left[i], left[j], right);
        }
      } else if i < |l| {
        assert left[i] in left && kept[j - |l|] in kept;
        SidesApart(left[i], kept[j - |l|], left, right);
      } else {
        if h[i] == h[j] {
          assert kept[i - |l|] in kept && kept[j - |l|] in kept;
          RightNameInjective(kept[i - |l|], kept[j - |l|], left);
        }
      }
    }
  }

  // ---------------------------------------------------------------------------
  // Cells of the result
  // ---------------------------------------------------------------------------

  /** Unary minus; a missing effect stays missing. */
  function Negated(c: Cell): Cell {
    if c.Num? then Num(-c.v) else c
  }

  /** `BETA_2.where(EA_1 == EA_2, -BETA_2)`: the second effect keeps its sign when
      both studies report the same effect allele and is negated otherwise. */
  function Aligned(x: Row, y: Row): Cell {
    if CellAt(x, EA) == CellAt(y, EA) then CellAt(y, BETA) else Negated(CellAt(y, BETA))
  }

  function Base(n: string): string {
    if |n| >= 2 then n[..|n| - 2] else n
  }

  /** The cell the result holds in column `n` for the matched pair `(x, y)`. */
  function Pick(x: Row, y: Row, n: string, left: seq<string>, right: seq<string>): Cell {
    if n in left && (n in SHARED || n !in right) then CellAt(x, n)
    else if n in right && n !in left then CellAt(y, n)
    else if |n| >= 2 && n[|n| - 2..] == LEFT then CellAt(x, Base(n))
    else if n == BETA2 then Aligned(x, y)
    else CellAt(y, Base(n))
  }

  /** One row of the merge: first-table row `x` beside second-table row `y`. */
  function HarmonizedRow(x: Row, y: Row, left: seq<string>, right: seq<string>): (r: Row)
    ensures r.Keys == ColSet(HarmonizedCols(left, right))
  {
    map n | n in ColSet(HarmonizedCols(left, right)) :: Pick(x, y, n, left, right)
  }

  /** A first-table column lands under its result name with the first table's cell. */
  lemma LeftCell(x: Row, y: Row, c: string, left: seq<string>, right: seq<string>)
    requires c in left && Plain(c)
    requires forall c :: c in left ==> Plain(c)
    requires forall c :: c in right ==> Plain(c)
    ensures
      var o := HarmonizedRow(x, y, left, right);
      LeftName(c, right) in o && o[LeftName(c, right)] == CellAt(x, c)
  {
    var k :| 0 <= k < |left| && left[k] == c;
    assert LeftName(c, right) == HarmonizedCols(left, right)[k];
    PickLeft(x, y, c, left, right);
  }

  lemma PickLeft(x: Row, y: Row, c: string, left: seq<string>, right: seq<string>)
    requires c in left && Plain(c)
    requires forall c :: c in left ==> Plain(c)
    requires forall c :: c in right ==> Plain(c)
    ensures Pick(x, y, LeftName(c, right), left, right) == CellAt(x, c)
  {
    if c in right && c !in SHARED {
      var n := c + LEFT;
      SuffixedNotPlain(c, LEFT);
      assert n !in left && n !in right;
      assert n[|n| - 2..] == LEFT;
      assert Base(n) == c;
    }
  }

  /** A kept second-table column lands under its result name with the second table's
      cell; the effect is re-signed to the first table's effect allele. */
  lemma RightCell(x: Row, y: Row, c: string, left: seq<string>, right: seq<string>)
    requires c in right && c !in SHARED && Plain(c)
    requires forall c :: c in left ==> Plain(c)
    requires forall c :: c in right ==> Plain(c)
    ensures
      var o := HarmonizedRow(x, y, left, right);
      RightName(c, left) in o && o[RightName(c, left)] == (if c == BETA && c in left then Aligned(x, y) else CellAt(y, c))
  {
    var kept := RightKept(right);
    assert c in kept;
    var k :| 0 <= k < |kept| && kept[k] == c;
    assert RightName(c, left) == HarmonizedCols(left, right)[|LeftNames(left, right)| + k];
    PickRight(x, y, c, left, right);
  }

  lemma PickRight(x: Row, y: Row, c: string, left: seq<string>, right: seq<string>)
    requires c in right && c !in SHARED && Plain(c)
    requires forall c :: c in left ==> Plain(c)
    requires forall c :: c in right ==> Plain(c)
    ensures Pick(x, y, RightName(c, left), left, right) == (if c == BETA && c in left then Aligned(x, y) else CellAt(y, c))
  {
    if c in left {
      var n := c + RIGHT;
      SuffixedNotPlain(c, RIGHT);
      assert n !in left && n !in right;
      assert n[|n| - 2..] == RIGHT != LEFT;
      assert Base(n) == c;
      if c != BETA && n == BETA2 {
        SuffixCancel(c, RIGHT, BETA, RIGHT);
      }
    }
  }

  // ---------------------------------------------------------------------------
  // The inner merge
  // ---------------------------------------------------------------------------

  predicate SameKey(x: Row, y: Row) {
    CellAt(x, SNPID) == CellAt(y, SNPID)
  }

  /** The result rows for first-table row `x`, in second-table order. */
  function Matches(x: Row, b: seq<Row>, left: seq<string>, right: seq<string>): seq<Row> {
    if b == [] then []
    else
      var init := Matches(x, b[..|b| - 1], left, right);
      if SameKey(x, b[|b| - 1]) then init + [HarmonizedRow(x, b[|b| - 1], left, right)] else init
  }

  /** `pd.merge(a, b, on=SNPID, how="inner")`: every pair of rows with equal keys,
      first-table order outermost. */
  function Joined(a: seq<Row>, b: seq<Row>, left: seq<string>, right: seq<string>): seq<Row> {
    if a == [] then []
    else Joined(a[..|a| - 1], b, left, right) + Matches(a[|a| - 1], b, left, right)
  }

  /** Some matched pair carries a text effect in the second table. */
  predicate TextEffect(a: seq<Row>, b: seq<Row>) {
    exists i, j :: 0 <= i < |a| && 0 <= j < |b| && SameKey(a[i], b[j]) && CellAt(b[j], BETA).Str?
  }

  lemma {:induction false} MatchesSound(x: Row, b: seq<Row>, left: seq<string>, right: seq<string>)
    ensures forall o :: o in Matches(x, b, left, right) ==>
      exists j :: 0 <= j < |b| && SameKey(x, b[j]) && o == HarmonizedRow(x, b[j], left, right)
  {
    if b != [] {
      var init := b[..|b| - 1];
      MatchesSound(x, init, left, right);
      forall o | o in Matches(x, b, left, right)
        ensures exists j :: 0 <= j < |b| && SameKey(x, b[j]) && o == HarmonizedRow(x, b[j], left, right)
      {
        if o in Matches(x, init, left, right) {
          var j :| 0 <= j < |init| && SameKey(x, init[j]) && o == HarmonizedRow(x, init[j], left, right);
          assert init[j] == b[j];
        } else {
          assert o == HarmonizedRow(x, b[|b| - 1], left, right);
        }
      }
    }
  }

  lemma {:induction false} MatchesComplete(x: Row, b: seq<Row>, left: seq<string>, right: seq<string>)
    ensures forall j :: 0 <= j < |b| && SameKey(x, b[j]) ==> HarmonizedRow(x, b[j], left, right) in Matches(x, b, left, right)
  {
    if b != [] {
      var init := b[..|b| - 1];
      MatchesComplete(x, init, left, right);
      forall j | 0 <= j < |b| && SameKey(x, b[j])
        ensures HarmonizedRow(x, b[j], left, right) in Matches(x, b, left, right)
      {
        if j < |init| {
          assert init[j] == b[j];
        }
      }
    }
  }

  /** Every result row is the merge of a first-table row and a second-table row
      with the same key. */
  lemma {:induction false} JoinedSound(a: seq<Row>, b: seq<Row>, left: seq<string>, right: seq<string>)
    ensures forall o :: o in Joined(a, b, left, right) ==>
      exists i, j :: 0 <= i < |a| && 0 <= j < |b| && SameKey(a[i], b[j]) && o == HarmonizedRow(a[i], b[j], left, right)
  {
    if a != [] {
      var init, x := a[..|a| - 1], a[|a| - 1];
      JoinedSound(init, b, left, right);
      MatchesSound(x, b, left, right);
      forall o | o in Joined(a, b, left, right)
        ensures exists i, j :: 0 <= i < |a| && 0 <= j < |b| && SameKey(a[i], b[j]) && o == HarmonizedRow(a[i], b[j], left, right)
      {
        if o in Joined(init, b, left, right) {
          var i, j :| 0 <= i < |init| && 0 <= j < |b| && SameKey(init[i], b[j]) && o == HarmonizedRow(init[i], b[j], left, right);
          assert init[i] == a[i];
        } else {
          var j :| 0 <= j < |b| && SameKey(x, b[j]) && o == HarmonizedRow(x, b[j], left, right);
          assert a[|a| - 1] == x;
        }
      }
    }
  }

  /** Every pair of rows with the same key appears in the result. */
  lemma {:induction false} JoinedComplete(a: seq<Row>, b: seq<Row>, left: seq<string>, right: seq<string>)
    ensures forall i, j :: 0 <= i < |a| && 0 <= j < |b| && SameKey(a[i], b[j]) ==>
      HarmonizedRow(a[i], b[j], left, right) in Joined(a, b, left, right)
  {
    if a != [] {
      var init := a[..|a| - 1];
      JoinedComplete(init, b, left, right);
      MatchesComplete(a[|a| - 1], b, left, right);
      forall i, j | 0 <= i < |a| && 0 <= j < |b| && SameKey(a[i], b[j])
        ensures HarmonizedRow(a[i], b[j], left, right) in Joined(a, b, left, right)
      {
        if i < |init| {
          assert init[i] == a[i];
        }
      }
    }
  }

  lemma JoinedKeys(a: seq<Row>, b: seq<Row>, left: seq<string>, right: seq<string>)
    ensures forall o :: o in Joined(a, b, left, right) ==> o.Keys == ColSet(HarmonizedCols(left, right))
  {
    JoinedSound(a, b, left, right);
  }

  // ---------------------------------------------------------------------------
  // harmonize
  // ---------------------------------------------------------------------------

  /** The inner merge of the keyed rows, stopping at the first matched pair whose
      second-table effect is text, where the negation fails. */
  method Merge(a: seq<Row>, b: seq<Row>, left: seq<string>, right: seq<string>) returns (r: Result<seq<Row>>)
    ensures r.Failure? <==> TextEffect(a, b)
    ensures r.Failure? ==> r.error == TEXT_BETA
    ensures r.Success? ==> r.value == Joined(a, b, left, right)
  {
    var rows: seq<Row> := [];
    for i := 0 to |a|
      invariant rows == Joined(a[..i], b, left, right)
      invariant forall i', j :: 0 <= i' < i && 0 <= j < |b| && SameKey(a[i'], b[j]) ==> !CellAt(b[j], BETA).Str?
    {
      var found := MergeRow(a[i], b, left, right);
      if found.Failure? {
        return Failure(found.error);
      }
      assert a[..i + 1][..i] == a[..i] && a[..i + 1][i] == a[i];
      rows := rows + found.value;
    }
    assert a[..|a|] == a;
    r := Success(rows);
  }

  /** The merged rows for one first-table row. */
  method MergeRow(x: Row, b: seq<Row>, left: seq<string>, right: seq<string>) returns (r: Result<seq<Row>>)
    ensures r.Failure? <==> exists j :: 0 <= j < |b| && SameKey(x, b[j]) && CellAt(b[j], BETA).Str?
    ensures r.Failure? ==> r.error == TEXT_BETA
    ensures r.Success? ==> r.value == Matches(x, b, left, right)
  {
    var found: seq<Row> := [];
    for j := 0 to |b|
      invariant found == Matches(x, b[..j], left, right)
      invariant forall j' :: 0 <= j' < j && SameKey(x, b[j']) ==> !CellAt(b[j'], BETA).Str?
    {
      var y := b[j];
      assert b[..j + 1][..j] == b[..j] && b[..j + 1][j] == y;
      if SameKey(x, y) {
        if CellAt(y, BETA).Str? {
          return Failure(TEXT_BETA);
        }
        found := found + [HarmonizedRow(x, y, left, right)];
      }
    }
    assert b[..|b|] == b;
    r := Success(found);
  }

  /** `harmonize(sumstat1, sumstat2)`: both tables are keyed, merged on the key,
      the second effect re-signed, the second copies of the variant columns deleted
      and the first copies renamed back. */
  method Harmonize(nums: Numerics, t1: Table, t2: Table) returns (r: Result<Table>)
    requires Mergeable(t1) && Mergeable(t2)
    ensures r.Failure? <==>
      || !(BETA in t1.cols && BETA in t2.cols)
      || TextEffect(MakeSnpIdUnique(nums, t1).rows, MakeSnpIdUnique(nums, t2).rows)
    ensures r.Failure? ==> r.error == (if BETA in t1.cols && BETA in t2.cols then TEXT_BETA else MISSING_BETA)
    ensures r.Success? ==>
      var k1, k2 := MakeSnpIdUnique(nums, t1), MakeSnpIdUnique(nums, t2);
      && WellFormed(r.value)
      && r.value.cols == HarmonizedCols(k1.cols, k2.cols)
      && r.value.rows == Joined(k1.rows, k2.rows, k1.cols, k2.cols)
  {
    var k1 := MakeSnpIdUnique(nums, t1);
    var k2 := MakeSnpIdUnique(nums, t2);
    KeyedCols(nums, t1);
    KeyedCols(nums, t2);
    if !(BETA in k1.cols && BETA in k2.cols) {
      return Failure(MISSING_BETA);
    }
    var merged := Merge(k1.rows, k2.rows, k1.cols, k2.cols);
    if merged.Failure? {
      return Failure(merged.error);
    }
    MergedWellFormed(k1, k2, merged.value);
    r := Success(Table(HarmonizedCols(k1.cols, k2.cols), merged.value));
  }

  lemma MergedWellFormed(k1: Table, k2: Table, rows: seq<Row>)
    requires WellFormed(k1) && WellFormed(k2)
    requires forall c :: c in k1.cols ==> Plain(c)
    requires forall c :: c in k2.cols ==> Plain(c)
    requires rows == Joined(k1.rows, k2.rows, k1.cols, k2.cols)
    ensures WellFormed(Table(HarmonizedCols(k1.cols, k2.cols), rows))
  {
    HarmonizedColsDistinct(k1.cols, k2.cols);
    JoinedKeys(k1.rows, k2.rows, k1.cols, k2.cols);
  }

  // ---------------------------------------------------------------------------
  // What a harmonized row says about the two studies
  // ---------------------------------------------------------------------------

  /** The cells of the merge of rows `x` and `y` that the harmonized output is about. */
  lemma PairCells(x: Row, y: Row, left: seq<string>, right: seq<string>)
    requires forall c :: c in left ==> Plain(c)
    requires forall c :: c in right ==> Plain(c)
    requires SNPID in left && CHR in left && BP in left && EA in left && NEA in left
    requires BETA in left && BETA in right
    ensures
      var o := HarmonizedRow(x, y, left, right);
      && SNPID in o && o[SNPID] == CellAt(x, SNPID)
      && CHR in o && o[CHR] == CellAt(x, CHR) && BP in o && o[BP] == CellAt(x, BP)
      && EA in o && o[EA] == CellAt(x, EA) && NEA in o && o[NEA] == CellAt(x, NEA)
      && BETA + LEFT in o && o[BETA + LEFT] == CellAt(x, BETA)
      && BETA2 in o && o[BETA2] == Aligned(x, y)
  {
    assert LeftName(SNPID, right) == SNPID && LeftName(CHR, right) == CHR && LeftName(BP, right) == BP;
    assert LeftName(EA, right) == EA && LeftName(NEA, right) == NEA;
    assert LeftName(BETA, right) == BETA + LEFT && RightName(BETA, left) == BETA2;
    LeftCell(x, y, SNPID, left, right);
    LeftCell(x, y, CHR, left, right);
    LeftCell(x, y, BP, left, right);
    LeftCell(x, y, EA, left, right);
    LeftCell(x, y, NEA, left, right);
    LeftCell(x, y, BETA, left, right);
    RightCell(x, y, BETA, left, right);
  }

  /** The merge of two keyed rows, read back in terms of the rows before keying. */
  lemma KeyedPair(nums: Numerics, x: Row, y: Row, kx: Row, ky: Row, left: seq<string>, right: seq<string>)
    requires kx == x[SNPID := Str(Key(nums, x))] && ky == y[SNPID := Str(Key(nums, y))]
    requires forall c :: c in left ==> Plain(c)
    requires forall c :: c in right ==> Plain(c)
    requires SNPID in left && CHR in left && BP in left && EA in left && NEA in left
    requires BETA in left && BETA in right
    ensures
      var o := HarmonizedRow(kx, ky, left, right);
      && CellAt(o, SNPID) == Str(Key(nums, x))
      && CellAt(o, CHR) == CellAt(x, CHR) && CellAt(o, BP) == CellAt(x, BP)
      && CellAt(o, EA) == CellAt(x, EA) && CellAt(o, NEA) == CellAt(x, NEA)
      && CellAt(o, BETA + LEFT) == CellAt(x, BETA)
      && CellAt(o, BETA2) == Aligned(x, y)
  {
    PairCells(kx, ky, left, right);
    assert CellAt(kx, EA) == CellAt(x, EA) && CellAt(ky, EA) == CellAt(y, EA) && CellAt(ky, BETA) == CellAt(y, BETA);
  }

  /** Keyed rows: each row of `a` with its variant key in the SNPID column. */
  ghost predicate KeyedFrom(nums: Numerics, ka: seq<Row>, a: seq<Row>) {
    |ka| == |a| && forall k :: 0 <= k < |a| ==> ka[k] == a[k][SNPID := Str(Key(nums, a[k]))]
  }

  /** What one harmonized row says, given the unkeyed rows `x` and `y` it merges. */
  ghost predicate PairedFrom(nums: Numerics, o: Row, x: Row, y: Row) {
    && Key(nums, x) == Key(nums, y)
    && CellAt(o, SNPID) == Str(Key(nums, x))
    && CellAt(o, CHR) == CellAt(x, CHR) && CellAt(o, BP) == CellAt(x, BP)
    && CellAt(o, EA) == CellAt(x, EA) && CellAt(o, NEA) == CellAt(x, NEA)
    && CellAt(o, BETA + LEFT) == CellAt(x, BETA)
    && CellAt(o, BETA2) == Aligned(x, y)
  }

  lemma JoinedFrom(nums: Numerics, a: seq<Row>, b: seq<Row>, ka: seq<Row>, kb: seq<Row>, left: seq<string>, right: seq<string>, o: Row)
    requires KeyedFrom(nums, ka, a) && KeyedFrom(nums, kb, b)
    requires forall c :: c in left ==> Plain(c)
    requires forall c :: c in right ==> Plain(c)
    requires SNPID in left && CHR in left && BP in left && EA in left && NEA in left
    requires BETA in left && BETA in right
    requires o in Joined(ka, kb, left, right)
    ensures exists x, y :: x in a && y in b && PairedFrom(nums, o, x, y)
  {
    JoinedSound(ka, kb, left, right);
    var i, j :| 0 <= i < |ka| && 0 <= j < |kb| && SameKey(ka[i], kb[j]) && o == HarmonizedRow(ka[i], kb[j], left, right);
    var x, y := a[i], b[j];
    assert x in a && y in b;
    KeyedPair(nums, x, y, ka[i], kb[j], left, right);
    assert CellAt(ka[i], SNPID) == Str(Key(nums, x)) && CellAt(kb[j], SNPID) == Str(Key(nums, y));
    assert PairedFrom(nums, o, x, y);
  }

  lemma KeyedCols(nums: Numerics, t: Table)
    requires Mergeable(t)
    ensures forall c :: c in MakeSnpIdUnique(nums, t).cols ==> Plain(c)
    ensures KeyedFrom(nums, MakeSnpIdUnique(nums, t).rows, t.rows)
  {
  }

  /** A harmonized row pairs a first-study row and a second-study row with the same
      variant key: the key and the variant columns come from the first study, the first
      study's effect sits in `BETA_1` and the second study's in `BETA_2`, its sign taken
      relative to the first study's effect allele. */
  lemma HarmonizedFrom(nums: Numerics, t1: Table, t2: Table, o: Row)
    requires Mergeable(t1) && Mergeable(t2) && BETA in t1.cols && BETA in t2.cols
    requires
      var k1, k2 := MakeSnpIdUnique(nums, t1), MakeSnpIdUnique(nums, t2);
      o in Joined(k1.rows, k2.rows, k1.cols, k2.cols)
    ensures exists x, y :: x in t1.rows && y in t2.rows && PairedFrom(nums, o, x, y)
  {
    var k1, k2 := MakeSnpIdUnique(nums, t1), MakeSnpIdUnique(nums, t2);
    assert SNPID in k1.cols && CHR in k1.cols && BP in k1.cols && EA in k1.cols && NEA in k1.cols;
    assert BETA in k1.cols && BETA in k2.cols;
    KeyedCols(nums, t1);
    KeyedCols(nums, t2);
    JoinedFrom(nums, t1.rows, t2.rows, k1.rows, k2.rows, k1.cols, k2.cols, o);
  }

  /** For validated rows of the same key the alleles agree up to order, so `BETA_2`
      is the second study's effect of the first study's effect allele: unchanged when
      both name the same effect allele, negated when the alleles are swapped. */
  lemma AlignedEffect(nums: Numerics, x: Row, y: Row)
    requires Canonical(x) && Canonical(y) && Key(nums, x) == Key(nums, y)
    ensures || (y[EA] == x[EA] && y[NEA] == x[NEA] && Aligned(x, y) == CellAt(y, BETA))
            || (y[EA] == x[NEA] && y[NEA] == x[EA] && x[EA] != y[EA] && Aligned(x, y) == Negated(CellAt(y, BETA)))
  {
    KeyInjective(nums, x, y);
    var xe, xn, ye, yn := x[EA].s, x[NEA].s, y[EA].s, y[NEA].s;
    assert {xe, xn} == {ye, yn};
    if xe == ye {
      assert yn == xn by { assert yn in {xe, xn}; assert xn in {ye, yn}; }
    } else {
      assert ye == xn by { assert ye in {xe, xn}; }
      assert yn == xe by { assert xe in {ye, yn}; }
    }
  }
}
