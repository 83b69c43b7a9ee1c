/** `annotate_rsid`: a position-sorted summary statistics file is read in chunks,
    each chunk split by chromosome, each chromosome scanned in fixed windows of
    positions, and every row given the rsID the reference index lists at its position. */
module Annotate {
  import opened Wrappers
  import opened Seqs
  import opened Frame
  import opened Validate

  /** Rows per piece of `pd.read_csv(..., chunksize=100000)`. */
  const READ_CHUNK := 100000
  /** The chromosome label of every index query. */
  const QUERY_LABEL := "1"

  // ---------------------------------------------------------------------------
  // Positions and window starts
  // ---------------------------------------------------------------------------

  function Pos(row: Row, posCol: string): int {
    RealOf(CellAt(row, posCol)).Floor
  }

  /** The position column is an integer column, as `range` needs. */
  predicate IntPositions(rows: seq<Row>, posCol: string) {
    forall row :: row in rows ==> CellAt(row, posCol).Num? && IsInt(CellAt(row, posCol).v)
  }

  function MinPos(g: seq<Row>, posCol: string): (m: int)
    requires g != []
    ensures forall row :: row in g ==> m <= Pos(row, posCol)
    ensures exists row :: row in g && Pos(row, posCol) == m
  {
    if |g| == 1 then Pos(g[0], posCol)
    else
      var m := MinPos(g[1..], posCol);
      assert forall row :: row in g ==> row == g[0] || row in g[1..];
      if Pos(g[0], posCol) <= m then Pos(g[0], posCol) else m
  }

  function MaxPos(g: seq<Row>, posCol: string): (m: int)
    requires g != []
    ensures forall row :: row in g ==> Pos(row, posCol) <= m
    ensures exists row :: row in g && Pos(row, posCol) == m
  {
    if |g| == 1 then Pos(g[0], posCol)
    else
      var m := MaxPos(g[1..], posCol);
      assert forall row :: row in g ==> row == g[0] || row in g[1..];
      if m <= Pos(g[0], posCol) then Pos(g[0], posCol) else m
  }

  /** `range(lo, hi, step)`. */
  function Starts(lo: int, hi: int, step: int): seq<int>
    requires step > 0
    decreases hi - lo
  {
    if lo >= hi then [] else [lo] + Starts(lo + step, hi, step)
  }

  /** Position `p` lies in the window of one of the starts of `range(lo, hi, step)`. */
  predicate InSomeWindow(lo: int, hi: int, step: int, p: int)
    requires step > 0
  {
    exists s :: s in Starts(lo, hi, step) && s <= p < s + step
  }

  lemma {:induction false} StartsBounds(lo: int, hi: int, step: int)
    requires step > 0
    ensures forall s :: s in Starts(lo, hi, step) ==> lo <= s < hi
    ensures forall s, t :: s in Starts(lo, hi, step) && t in Starts(lo, hi, step) && s < t ==> s + step <= t
    decreases hi - lo
  {
    if lo < hi {
      StartsBounds(lo + step, hi, step);
    }
  }

  /** Every position from `lo` up to but excluding `hi` falls in some window. */
  lemma {:induction false} StartsCover(lo: int, hi: int, step: int, p: int)
    requires step > 0 && lo <= p < hi
    ensures InSomeWindow(lo, hi, step, p)
    decreases hi - lo
  {
    assert Starts(lo, hi, step) == [lo] + Starts(lo + step, hi, step);
    if p >= lo + step {
      StartsCover(lo + step, hi, step, p);
      var s :| s in Starts(lo + step, hi, step) && s <= p < s + step;
      assert s in Starts(lo, hi, step);
    } else {
      assert lo in Starts(lo, hi, step);
    }
  }

  lemma MulPositive(b: int, k: int)
    requires b > 0 && k > 0
    ensures b * k >= b
  {
  }

  lemma ModUnique(x: int, b: int, q: int, r: int)
    requires b > 0 && x == b * q + r && 0 <= r < b
    ensures x % b == r
  {
    var q2, r2 := x / b, x % b;
    assert x == b * q2 + r2 && 0 <= r2 < b;
    var d := q - q2;
    assert b * q - b * q2 == r2 - r;
    assert b * d == b * q - b * q2;
    if d > 0 {
      MulPositive(b, d);
    } else if d < 0 {
      assert b * (-d) == -(b * d);
      MulPositive(b, -d);
    }
  }

  lemma ModShift(a: int, b: int)
    requires b > 0
    ensures (a - b) % b == a % b
  {
    var q, r := a / b, a % b;
    assert a == b * q + r;
    assert b * (q - 1) == b * q - b;
    ModUnique(a - b, b, q - 1, r);
  }

  /** `d` is a whole number of steps, zero included. */
  predicate Multiple(d: int, step: int)
    requires step > 0
    decreases if d < 0 then 0 else d
  {
    if d <= 0 then d == 0 else Multiple(d - step, step)
  }

  /** For a span that is not negative, being a whole number of steps is what the
      remainder test `d % step == 0` checks. */
  lemma {:induction false} MultipleMod(d: int, step: int)
    requires d >= 0 && step > 0
    ensures Multiple(d, step) <==> d % step == 0
    decreases d
  {
    if d == 0 {
    } else if d < step {
      ModUnique(d, step, 0, d);
    } else {
      MultipleMod(d - step, step);
      ModShift(d, step);
    }
  }

  /** Position `hi` itself falls in a window exactly when `hi - lo` is not a whole
      number of steps. */
  lemma {:induction false} StartsReachEnd(lo: int, hi: int, step: int)
    requires step > 0 && lo <= hi
    ensures InSomeWindow(lo, hi, step, hi) <==> !Multiple(hi - lo, step)
    decreases hi - lo
  {
    StartsBounds(lo, hi, step);
    if hi - lo < step {
      if lo < hi {
        assert lo in Starts(lo, hi, step);
        assert Multiple(hi - lo, step) == Multiple(hi - lo - step, step);
        assert !Multiple(hi - lo - step, step);
      } else {
        assert Multiple(hi - lo, step);
      }
    } else {
      var rest := Starts(lo + step, hi, step);
      assert Starts(lo, hi, step) == [lo] + rest;
      StartsReachEnd(lo + step, hi, step);
      assert hi - (lo + step) == (hi - lo) - step;
      assert Multiple(hi - lo, step) == Multiple(hi - (lo + step), step);
      assert forall s :: s in Starts(lo, hi, step) && s <= hi < s + step ==> s in rest;
      if !Multiple(hi - lo, step) {
        var s :| s in rest && s <= hi < s + step;
        assert s in Starts(lo, hi, step);
      }
    }
  }

  lemma StartsMissEnd(lo: int, hi: int, step: int)
    requires step > 0 && lo <= hi && Multiple(hi - lo, step)
    ensures forall s :: s in Starts(lo, hi, step) ==> s + step <= hi
  {
    StartsReachEnd(lo, hi, step);
    StartsBounds(lo, hi, step);
  }

  // ---------------------------------------------------------------------------
  // Windows of one chromosome group
  // ---------------------------------------------------------------------------

  /** The rows of one non-empty window and the position it starts at. */
  datatype Window = Window(start: int, rows: seq<Row>)

  function InWindow(s: int, step: int, posCol: string): Row -> bool {
    row => s <= Pos(row, posCol) < s + step
  }

  /** `chr_df[(pos >= i) & (pos < i + chunksize)]`: the window starting at `s`, or
      nothing when it is empty. */
  function WindowAt(g: seq<Row>, s: int, step: int, posCol: string): seq<Window> {
    var w := KeepWhere(g, InWindow(s, step, posCol));
    if w == [] then [] else [Window(s, w)]
  }

  /** The non-empty windows for the given starts, in order. */
  function Scan(g: seq<Row>, starts: seq<int>, step: int, posCol: string): seq<Window> {
    if starts == [] then []
    else Scan(g, starts[..|starts| - 1], step, posCol) + WindowAt(g, starts[|starts| - 1], step, posCol)
  }

  lemma {:induction false} ScanMembers(g: seq<Row>, starts: seq<int>, step: int, posCol: string)
    ensures forall w :: w in Scan(g, starts, step, posCol) ==>
      w.start in starts && w.rows == KeepWhere(g, InWindow(w.start, step, posCol)) && w.rows != []
    ensures forall s :: s in starts && KeepWhere(g, InWindow(s, step, posCol)) != [] ==>
      Window(s, KeepWhere(g, InWindow(s, step, posCol))) in Scan(g, starts, step, posCol)
  {
    if starts != [] {
      var init := starts[..|starts| - 1];
      ScanMembers(g, init, step, posCol);
      assert forall s :: s in starts <==> s in init || s == starts[|starts| - 1];
    }
  }

  lemma AppendAssociative<T>(a: seq<T>, b: seq<T>, c: seq<T>)
    ensures (a + b) + c == a + (b + c)
  {
  }

  lemma ScanStep(g: seq<Row>, starts: seq<int>, k: nat, step: int, posCol: string)
    requires k < |starts|
    ensures Scan(g, starts[..k + 1], step, posCol) == Scan(g, starts[..k], step, posCol) + WindowAt(g, starts[k], step, posCol)
  {
    assert starts[..k + 1][..k] == starts[..k];
  }

  /** The non-empty windows of a group, for starts min, min + step, ... < max. */
  function GroupWindows(g: seq<Row>, step: int, posCol: string): seq<Window>
    requires g != [] && step > 0
  {
    Scan(g, Starts(MinPos(g, posCol), MaxPos(g, posCol), step), step, posCol)
  }

  lemma WindowOf(g: seq<Row>, step: int, posCol: string, w: Window)
    requires g != [] && step > 0 && w in GroupWindows(g, step, posCol)
    ensures w.start in Starts(MinPos(g, posCol), MaxPos(g, posCol), step)
    ensures w.rows == KeepWhere(g, InWindow(w.start, step, posCol)) && w.rows != []
  {
    ScanMembers(g, Starts(MinPos(g, posCol), MaxPos(g, posCol), step), step, posCol);
  }

  /** Each window holds only rows of the group within its range, in ascending
      position when the group is sorted, and is never empty. */
  lemma WindowRows(g: seq<Row>, step: int, posCol: string)
    requires g != [] && step > 0
    ensures forall w :: w in GroupWindows(g, step, posCol) ==>
      && w.rows != []
      && (forall row :: row in w.rows ==> row in g && w.start <= Pos(row, posCol) < w.start + step)
      && (SortedBy(g, posCol, posCol) ==> SortedBy(w.rows, posCol, posCol))
  {
    forall w | w in GroupWindows(g, step, posCol)
      ensures w.rows != []
      ensures forall row :: row in w.rows ==> row in g && w.start <= Pos(row, posCol) < w.start + step
      ensures SortedBy(g, posCol, posCol) ==> SortedBy(w.rows, posCol, posCol)
    {
      WindowOf(g, step, posCol, w);
      if SortedBy(g, posCol, posCol) {
        TraceSorted(w.rows, g, {}, posCol, posCol);
      }
    }
  }

  /** No row is emitted twice: two windows sharing a row are the same window. */
  lemma WindowsDisjoint(g: seq<Row>, step: int, posCol: string)
    requires g != [] && step > 0
    ensures forall w1, w2, row ::
      (w1 in GroupWindows(g, step, posCol) && w2 in GroupWindows(g, step, posCol) && row in w1.rows && row in w2.rows) ==> w1 == w2
  {
    var lo, hi := MinPos(g, posCol), MaxPos(g, posCol);
    StartsBounds(lo, hi, step);
    forall w1, w2, row | w1 in GroupWindows(g, step, posCol) && w2 in GroupWindows(g, step, posCol)
      && row in w1.rows && row in w2.rows
      ensures w1 == w2
    {
      WindowOf(g, step, posCol, w1);
      WindowOf(g, step, posCol, w2);
      assert w1.start == w2.start;
    }
  }

  /** Some window of the group holds the row. */
  predicate Emits(g: seq<Row>, step: int, posCol: string, row: Row)
    requires g != [] && step > 0
  {
    exists w :: w in GroupWindows(g, step, posCol) && row in w.rows
  }

  /** A row inside the range of one of the group's windows is emitted with it. */
  lemma RowInWindow(g: seq<Row>, step: int, posCol: string, row: Row, s: int)
    requires g != [] && step > 0 && row in g
    requires s in Starts(MinPos(g, posCol), MaxPos(g, posCol), step) && s <= Pos(row, posCol) < s + step
    ensures Emits(g, step, posCol, row)
  {
    assert InWindow(s, step, posCol)(row);
    var w := KeepWhere(g, InWindow(s, step, posCol));
    assert row in w;
    ScanMembers(g, Starts(MinPos(g, posCol), MaxPos(g, posCol), step), step, posCol);
    assert Window(s, w) in GroupWindows(g, step, posCol);
  }

  lemma PosBounds(g: seq<Row>, posCol: string, row: Row)
    requires g != [] && row in g
    ensures MinPos(g, posCol) <= Pos(row, posCol) <= MaxPos(g, posCol)
  {
  }

  /** A row of the group is emitted exactly when its position lies in the range of
      one of the window starts. */
  lemma EmitsIff(g: seq<Row>, step: int, posCol: string, row: Row)
    requires g != [] && step > 0 && row in g
    ensures Emits(g, step, posCol, row) <==>
      InSomeWindow(MinPos(g, posCol), MaxPos(g, posCol), step, Pos(row, posCol))
  {
    if InSomeWindow(MinPos(g, posCol), MaxPos(g, posCol), step, Pos(row, posCol)) {
      var s :| s in Starts(MinPos(g, posCol), MaxPos(g, posCol), step) && s <= Pos(row, posCol) < s + step;
      RowInWindow(g, step, posCol, row, s);
    }
    if Emits(g, step, posCol, row) {
      var w :| w in GroupWindows(g, step, posCol) && row in w.rows;
      WindowOf(g, step, posCol, w);
      assert InWindow(w.start, step, posCol)(row);
    }
  }

  /** A position between `lo` and `hi` lies in some window exactly when it is below
      `hi`, or the span is not a whole number of steps. */
  lemma PositionCovered(lo: int, hi: int, step: int, p: int)
    requires step > 0 && lo <= p <= hi
    ensures InSomeWindow(lo, hi, step, p) <==> (p < hi || !Multiple(hi - lo, step))
  {
    if p < hi {
      StartsCover(lo, hi, step, p);
    } else {
      StartsReachEnd(lo, hi, step);
    }
  }

  /** Which rows of a group are emitted: a row is emitted exactly when its position
      lies below the group's largest position, or the span between the group's
      smallest and largest position is not a whole number of windows. */
  lemma RowCovered(g: seq<Row>, step: int, posCol: string, row: Row)
    requires g != [] && step > 0 && row in g
    ensures Emits(g, step, posCol, row) <==>
      (Pos(row, posCol) < MaxPos(g, posCol) || !Multiple(MaxPos(g, posCol) - MinPos(g, posCol), step))
  {
    var lo, hi, p := MinPos(g, posCol), MaxPos(g, posCol), Pos(row, posCol);
    PosBounds(g, posCol, row);
    EmitsIff(g, step, posCol, row);
    PositionCovered(lo, hi, step, p);
    IffTrans(Emits(g, step, posCol, row), InSomeWindow(lo, hi, step, p), p < hi || !Multiple(hi - lo, step));
  }

  lemma IffTrans(a: bool, b: bool, c: bool)
    requires a == b && b == c
    ensures a == c
  {
  }

  lemma SinglePositionSilent(g: seq<Row>, step: int, posCol: string)
    requires g != [] && step > 0 && MinPos(g, posCol) == MaxPos(g, posCol)
    ensures GroupWindows(g, step, posCol) == []
  {
    assert Starts(MinPos(g, posCol), MaxPos(g, posCol), step) == [];
  }

  // ---------------------------------------------------------------------------
  // Chromosome groups
  // ---------------------------------------------------------------------------

  /** Chromosome cells are numbers, or missing (such rows fall out of `groupby`). */
  predicate NumericChromosomes(rows: seq<Row>, chromCol: string) {
    forall row :: row in rows ==> CellAt(row, chromCol).Num? || CellAt(row, chromCol) == Null
  }

  predicate Increasing(s: seq<real>) {
    forall i, j :: 0 <= i < j < |s| ==> s[i] < s[j]
  }

  function InsertKey(v: real, s: seq<real>): (r: seq<real>)
    requires Increasing(s)
    ensures Increasing(r)
    ensures forall x :: x in r <==> x == v || x in s
  {
    if s == [] then [v]
    else if v < s[0] then [v] + s
    else if v == s[0] then s
    else
      var rest := InsertKey(v, s[1..]);
      assert forall x :: x in rest ==> s[0] < x;
      ConsIncreasing(s[0], rest);
      [s[0]] + rest
  }

  lemma ConsIncreasing(x: real, s: seq<real>)
    requires Increasing(s) && forall y :: y in s ==> x < y
    ensures Increasing([x] + s)
  {
    var r := [x] + s;
    forall i, j | 0 <= i < j < |r| ensures r[i] < r[j] {
      assert r[j] == s[j - 1] && s[j - 1] in s;
      if i > 0 { assert r[i] == s[i - 1]; }
    }
  }

  /** The `groupby` keys: the distinct chromosome values, in ascending order. */
  function ChromKeys(rows: seq<Row>, chromCol: string): (r: seq<real>)
    ensures Increasing(r)
    ensures forall v :: v in r <==> exists row :: row in rows && CellAt(row, chromCol) == Num(v)
  {
    if rows == [] then []
    else
      var rest := ChromKeys(rows[1..], chromCol);
      assert forall row :: row in rows <==> row == rows[0] || row in rows[1..];
      var c := CellAt(rows[0], chromCol);
      if c.Num? then InsertKey(c.v, rest) else rest
  }

  function OnChromosome(v: real, chromCol: string): Row -> bool {
    row => CellAt(row, chromCol) == Num(v)
  }

  /** One group, `chr_df.sort_values(pos_col)`. */
  function Group(rows: seq<Row>, v: real, chromCol: string, posCol: string): seq<Row> {
    SortRows(KeepWhere(rows, OnChromosome(v, chromCol)), posCol, posCol)
  }

  /** The windows of every group of one input chunk, group by group. */
  function ChunkGroups(rows: seq<Row>, step: int, chromCol: string, posCol: string): seq<seq<Window>>
    requires step > 0
  {
    var keys := ChromKeys(rows, chromCol);
    seq(|keys|, k requires 0 <= k < |keys| =>
      var g := Group(rows, keys[k], chromCol, posCol);
      if g == [] then [] else GroupWindows(g, step, posCol))
  }

  /** The windows of the whole file, chunk by chunk. */
  function FileChunks(rows: seq<Row>, step: int, chromCol: string, posCol: string): seq<seq<Window>>
    requires step > 0
  {
    var chunks := Chunks(rows, READ_CHUNK);
    seq(|chunks|, n requires 0 <= n < |chunks| => Flatten(ChunkGroups(chunks[n], step, chromCol, posCol)))
  }

  function Windows(rows: seq<Row>, step: int, chromCol: string, posCol: string): seq<Window>
    requires step > 0
  {
    Flatten(FileChunks(rows, step, chromCol, posCol))
  }

  /** Every group's rows share its chromosome and come in ascending position. */
  lemma GroupRows(rows: seq<Row>, v: real, chromCol: string, posCol: string)
    ensures var g := Group(rows, v, chromCol, posCol);
      && SortedBy(g, posCol, posCol)
      && (forall row :: row in g ==> row in rows && CellAt(row, chromCol) == Num(v))
      && (forall row :: row in rows && CellAt(row, chromCol) == Num(v) ==> row in g)
  {
    var f := KeepWhere(rows, OnChromosome(v, chromCol));
    var g := SortRows(f, posCol, posCol);
    assert forall row :: row in g <==> row in f by {
      forall row ensures row in g <==> row in f {
        assert row in g <==> row in multiset(g);
      }
    }
  }

  // ---------------------------------------------------------------------------
  // Reference lookup
  // ---------------------------------------------------------------------------

  /** One record of the reference index: chromosome, position, rsID, alleles. */
  datatype Ref = Ref(chr: string, bp: int, rsid: string, refAllele: string, altAllele: string)

  /** An index query: label and the half-open bounds handed to `tb.query`. */
  datatype Region = Region(contig: string, lo: int, hi: int)

  /** `tb.query('1', i - 1, i + chunksize)`, whatever the group's chromosome. */
  function RegionOf(s: int, step: int): (q: Region)
    ensures q.contig == QUERY_LABEL && q.lo == s - 1 && q.hi == s + step
  {
    Region(QUERY_LABEL, s - 1, s + step)
  }

  /** The rsID of the first record at position `p`, or missing. */
  function RsidAt(refs: seq<Ref>, p: int): Cell {
    if refs == [] then Null
    else if refs[0].bp == p then Str(refs[0].rsid)
    else RsidAt(refs[1..], p)
  }

  /** `drop_duplicates(subset=['bp'])`: the first record of each position. */
  function DedupFrom(refs: seq<Ref>, seen: set<int>): seq<Ref> {
    if refs == [] then []
    else if refs[0].bp in seen then DedupFrom(refs[1..], seen)
    else [refs[0]] + DedupFrom(refs[1..], seen + {refs[0].bp})
  }

  function DedupRefs(refs: seq<Ref>): seq<Ref> {
    DedupFrom(refs, {})
  }

  /** Deduplicating keeps only records of the input at positions not yet seen. */
  lemma {:induction false} DedupMembers(refs: seq<Ref>, seen: set<int>)
    ensures forall r :: r in DedupFrom(refs, seen) ==> r in refs && r.bp !in seen
  {
    if refs != [] {
      var x := refs[0];
      if x.bp in seen {
        DedupMembers(refs[1..], seen);
      } else {
        DedupMembers(refs[1..], seen + {x.bp});
        var d := DedupFrom(refs, seen);
        assert forall r :: r in d ==> r == x || r in DedupFrom(refs[1..], seen + {x.bp});
      }
    }
  }

  /** Deduplicated records have pairwise distinct positions. */
  lemma {:induction false} DedupDistinct(refs: seq<Ref>, seen: set<int>)
    ensures forall i, j :: 0 <= i < j < |DedupFrom(refs, seen)| ==> DedupFrom(refs, seen)[i].bp != DedupFrom(refs, seen)[j].bp
  {
    if refs != [] {
      var x := refs[0];
      if x.bp in seen {
        DedupDistinct(refs[1..], seen);
      } else {
        var rest := DedupFrom(refs[1..], seen + {x.bp});
        DedupDistinct(refs[1..], seen + {x.bp});
        DedupMembers(refs[1..], seen + {x.bp});
        var d := [x] + rest;
        forall i, j | 0 <= i < j < |d| ensures d[i].bp != d[j].bp {
          assert d[j] == rest[j - 1];
          if i > 0 {
            assert d[i] == rest[i - 1];
          } else {
            assert rest[j - 1] in rest;
          }
        }
      }
    }
  }

  /** Looking up an unseen position in the deduplicated records finds what it finds
      in the records themselves. */
  lemma {:induction false} DedupLookup(refs: seq<Ref>, seen: set<int>)
    ensures forall p :: p !in seen ==> RsidAt(DedupFrom(refs, seen), p) == RsidAt(refs, p)
  {
    if refs != [] {
      var x := refs[0];
      if x.bp in seen {
        DedupLookup(refs[1..], seen);
        forall p | p !in seen ensures RsidAt(DedupFrom(refs, seen), p) == RsidAt(refs, p) {
          assert x.bp != p;
        }
      } else {
        var rest := DedupFrom(refs[1..], seen + {x.bp});
        DedupLookup(refs[1..], seen + {x.bp});
        var d := [x] + rest;
        forall p | p !in seen ensures RsidAt(d, p) == RsidAt(refs, p) {
          if p != x.bp {
            assert d[1..] == rest;
          }
        }
      }
    }
  }

  /** The deduplicated records have distinct positions, so the position-indexed
      series is a function; looking a position up in it finds the rsID of the first
      record at that position in the query result. */
  lemma DedupKeepsFirst(refs: seq<Ref>)
    ensures forall i, j :: 0 <= i < j < |DedupRefs(refs)| ==> DedupRefs(refs)[i].bp != DedupRefs(refs)[j].bp
    ensures forall p :: RsidAt(DedupRefs(refs), p) == RsidAt(refs, p)
  {
    DedupDistinct(refs, {});
    DedupLookup(refs, {});
  }

  /** `chunk_df[rsid_col] = chunk_df[pos_col].map(rsid_map)`: every row's rsID is
      overwritten with the rsID of the first record at its position, or missing;
      the other columns are unchanged. */
  function AnnotateRows(rows: seq<Row>, refs: seq<Ref>, posCol: string, rsidCol: string): (r: seq<Row>)
    ensures |r| == |rows|
    ensures forall k :: 0 <= k < |rows| ==> r[k] == rows[k][rsidCol := RsidAt(refs, Pos(rows[k], posCol))]
  {
    var series := DedupRefs(refs);
    DedupKeepsFirst(refs);
    seq(|rows|, k requires 0 <= k < |rows| => rows[k][rsidCol := RsidAt(series, Pos(rows[k], posCol))])
  }

  // ---------------------------------------------------------------------------
  // The index store and the output file
  // ---------------------------------------------------------------------------

  /** The opened tabix index: the records it returns for each region, and the log of
      the queries issued against it. */
  class TabixStore {
    const records: Region -> seq<Ref>
    var log: seq<Region>

    constructor(records: Region -> seq<Ref>)
      ensures this.records == records && log == []
    {
      this.records := records;
      log := [];
    }

    /** `tb.query(contig, lo, hi)`. */
    method Query(q: Region) returns (r: seq<Ref>)
      modifies this
      ensures r == records(q) && log == old(log) + [q]
    {
      r := records(q);
      log := log + [q];
    }
  }

  /** The output file: its header line, once one was written, and its data rows. */
  class OutFile {
    var header: Option<seq<string>>
    var body: seq<Row>

    constructor()
      ensures header == None && body == []
    {
      header := None;
      body := [];
    }

    /** `to_csv(outfile, mode='w')`: the file is replaced by a header and the rows. */
    method Write(cols: seq<string>, rows: seq<Row>)
      modifies this
      ensures header == Some(cols) && body == rows
    {
      header := Some(cols);
      body := rows;
    }

    /** `to_csv(outfile, mode='a', header=False)`: the rows are appended. */
    method Append(rows: seq<Row>)
      modifies this
      ensures header == old(header) && body == old(body) + rows
    {
      body := body + rows;
    }
  }

  // ---------------------------------------------------------------------------
  // annotate_rsid
  // ---------------------------------------------------------------------------

  /** The columns of every written chunk: the input's, with the rsID column added at
      the end when the input has none. */
  function OutCols(cols: seq<string>, rsidCol: string): (r: seq<string>)
    ensures forall c :: c in r <==> c in cols || c == rsidCol
    ensures rsidCol in cols ==> r == cols
  {
    if rsidCol in cols then cols else cols + [rsidCol]
  }

  /** The queries issued for the windows `ws`, one per window. */
  function Regions(ws: seq<Window>, step: int): (r: seq<Region>)
    ensures |r| == |ws|
    ensures forall k :: 0 <= k < |ws| ==> r[k] == RegionOf(ws[k].start, step)
  {
    if ws == [] then [] else Regions(ws[..|ws| - 1], step) + [RegionOf(ws[|ws| - 1].start, step)]
  }

  /** The data rows written for the windows `ws`: each window's rows, annotated from
      the records its query returned, one window after another. */
  function Body(ws: seq<Window>, records: Region -> seq<Ref>, step: int, posCol: string, rsidCol: string): seq<Row> {
    if ws == [] then []
    else
      var w := ws[|ws| - 1];
      Body(ws[..|ws| - 1], records, step, posCol, rsidCol) + AnnotateRows(w.rows, records(RegionOf(w.start, step)), posCol, rsidCol)
  }

  /** The state after the windows `ws` were processed: one query per window, and the
      file untouched when there were none, otherwise a header and every window's rows. */
  ghost predicate Emitted(out: OutFile, store: TabixStore, ws: seq<Window>, h0: Option<seq<string>>, b0: seq<Row>,
                          log0: seq<Region>, cols: seq<string>, step: int, posCol: string, rsidCol: string)
    reads out, store
  {
    && store.log == log0 + Regions(ws, step)
    && (ws == [] ==> out.header == h0 && out.body == b0)
    && (ws != [] ==> out.header == Some(cols) && out.body == Body(ws, store.records, step, posCol, rsidCol))
  }

  lemma EmitStep(ws: seq<Window>, w: Window, records: Region -> seq<Ref>, step: int, posCol: string, rsidCol: string)
    ensures Regions(ws + [w], step) == Regions(ws, step) + [RegionOf(w.start, step)]
    ensures Body(ws + [w], records, step, posCol, rsidCol)
      == Body(ws, records, step, posCol, rsidCol) + AnnotateRows(w.rows, records(RegionOf(w.start, step)), posCol, rsidCol)
  {
    assert (ws + [w])[..|ws|] == ws;
  }

  /** One pass of the window loop: an empty window is skipped without a query;
      otherwise the index is queried once, the rows annotated and written, with the
      header only when this is the first chunk written. */
  method EmitWindow(store: TabixStore, out: OutFile, g: seq<Row>, i: int, ith: nat, ghost done: seq<Window>,
                    ghost h0: Option<seq<string>>, ghost b0: seq<Row>, ghost log0: seq<Region>,
                    cols: seq<string>, step: int, posCol: string, rsidCol: string) returns (next: nat)
    requires ith == |done| && Emitted(out, store, done, h0, b0, log0, cols, step, posCol, rsidCol)
    modifies store, out
    ensures next == |done + WindowAt(g, i, step, posCol)|
    ensures Emitted(out, store, done + WindowAt(g, i, step, posCol), h0, b0, log0, cols, step, posCol, rsidCol)
  {
    var chunk := KeepWhere(g, InWindow(i, step, posCol));
    if |chunk| == 0 {
      assert done + WindowAt(g, i, step, posCol) == done;
      return ith;
    }
    var refs := store.Query(RegionOf(i, step));
    var annotated := AnnotateRows(chunk, refs, posCol, rsidCol);
    next := ith + 1;
    if next == 1 {
      out.Write(cols, annotated);
    } else {
      out.Append(annotated);
    }
    EmitStep(done, Window(i, chunk), store.records, step, posCol, rsidCol);
  }

  /** The window loop of one chromosome group. */
  method AnnotateGroup(store: TabixStore, out: OutFile, g: seq<Row>, ith: nat, ghost done: seq<Window>,
                       ghost h0: Option<seq<string>>, ghost b0: seq<Row>, ghost log0: seq<Region>,
                       cols: seq<string>, step: int, posCol: string, rsidCol: string) returns (next: nat)
    requires g != [] && step > 0
    requires ith == |done| && Emitted(out, store, done, h0, b0, log0, cols, step, posCol, rsidCol)
    modifies store, out
    ensures next == |done + GroupWindows(g, step, posCol)|
    ensures Emitted(out, store, done + GroupWindows(g, step, posCol), h0, b0, log0, cols, step, posCol, rsidCol)
  {
    var starts := Starts(MinPos(g, posCol), MaxPos(g, posCol), step);
    next := ScanWindows(store, out, g, starts, ith, done, h0, b0, log0, cols, step, posCol, rsidCol);
  }

  /** `for i in range(...)` over the given window starts. */
  method ScanWindows(store: TabixStore, out: OutFile, g: seq<Row>, starts: seq<int>, ith: nat, ghost done: seq<Window>,
                     ghost h0: Option<seq<string>>, ghost b0: seq<Row>, ghost log0: seq<Region>,
                     cols: seq<string>, step: int, posCol: string, rsidCol: string) returns (next: nat)
    requires step > 0
    requires ith == |done| && Emitted(out, store, done, h0, b0, log0, cols, step, posCol, rsidCol)
    modifies store, out
    ensures next == |done + Scan(g, starts, step, posCol)|
    ensures Emitted(out, store, done + Scan(g, starts, step, posCol), h0, b0, log0, cols, step, posCol, rsidCol)
  {
    next := ith;
    assert done + Scan(g, starts[..0], step, posCol) == done;
    for k := 0 to |starts|
      invariant next == |done + Scan(g, starts[..k], step, posCol)|
      invariant Emitted(out, store, done + Scan(g, starts[..k], step, posCol), h0, b0, log0, cols, step, posCol, rsidCol)
    {
      ghost var before := done + Scan(g, starts[..k], step, posCol);
      next := EmitWindow(store, out, g, starts[k], next, before, h0, b0, log0, cols, step, posCol, rsidCol);
      ScanStep(g, starts, k, step, posCol);
      AppendAssociative(done, Scan(g, starts[..k], step, posCol), WindowAt(g, starts[k], step, posCol));
    }
    assert starts[..|starts|] == starts;
  }

  lemma FlattenStep<T>(ss: seq<seq<T>>, k: nat)
    requires k < |ss|
    ensures Flatten(ss[..k + 1]) == Flatten(ss[..k]) + ss[k]
  {
    assert ss[..k + 1] == ss[..k] + [ss[k]];
    FlattenAppend(ss[..k], [ss[k]]);
    assert Flatten([ss[k]]) == ss[k] + Flatten([]);
  }

  /** The group of a chromosome value that occurs in the chunk is not empty. */
  lemma GroupNonEmpty(rows: seq<Row>, k: nat, chromCol: string, posCol: string)
    requires k < |ChromKeys(rows, chromCol)|
    ensures Group(rows, ChromKeys(rows, chromCol)[k], chromCol, posCol) != []
  {
    var v := ChromKeys(rows, chromCol)[k];
    assert v in ChromKeys(rows, chromCol);
    var row :| row in rows && CellAt(row, chromCol) == Num(v);
    GroupRows(rows, v, chromCol, posCol);
  }

  /** The group loop of one input chunk. */
  method AnnotateChunk(store: TabixStore, out: OutFile, rows: seq<Row>, ith: nat, ghost done: seq<Window>,
                       ghost h0: Option<seq<string>>, ghost b0: seq<Row>, ghost log0: seq<Region>,
                       cols: seq<string>, step: int, chromCol: string, posCol: string, rsidCol: string) returns (next: nat)
    requires step > 0
    requires ith == |done| && Emitted(out, store, done, h0, b0, log0, cols, step, posCol, rsidCol)
    modifies store, out
    ensures next == |done + Flatten(ChunkGroups(rows, step, chromCol, posCol))|
    ensures Emitted(out, store, done + Flatten(ChunkGroups(rows, step, chromCol, posCol)), h0, b0, log0, cols, step, posCol, rsidCol)
  {
    var keys := ChromKeys(rows, chromCol);
    ghost var groups := ChunkGroups(rows, step, chromCol, posCol);
    next := ith;
    assert done + Flatten(groups[..0]) == done;
    for k := 0 to |keys|
      invariant next == |done + Flatten(groups[..k])|
      invariant Emitted(out, store, done + Flatten(groups[..k]), h0, b0, log0, cols, step, posCol, rsidCol)
    {
      var g := Group(rows, keys[k], chromCol, posCol);
      GroupNonEmpty(rows, k, chromCol, posCol);
      assert groups[k] == GroupWindows(g, step, posCol);
      next := AnnotateGroup(store, out, g, next, done + Flatten(groups[..k]), h0, b0, log0, cols, step, posCol, rsidCol);
      FlattenStep(groups, k);
      AppendAssociative(done, Flatten(groups[..k]), groups[k]);
    }
    assert groups[..|keys|] == groups;
  }

  /** `annotate_rsid(infile, outfile, database, chunksize)`: the input rows are read in
      pieces of 100000; every piece is split by chromosome and every group scanned in
      windows of `chunksize` positions. Each non-empty window issues exactly one index
      query, for label '1' and the range around the window, and its rows, rsID
      annotated, go to the output file, the first of them with a header. When no
      window is emitted the output file is never written. */
  method AnnotateRsid(store: TabixStore, out: OutFile, t: Table, chunksize: int,
                      rsidCol: string, chromCol: string, posCol: string)
    requires chunksize > 0
    requires IntPositions(t.rows, posCol) && NumericChromosomes(t.rows, chromCol)
    modifies store, out
    ensures var ws := Windows(t.rows, chunksize, chromCol, posCol);
      && store.log == old(store.log) + Regions(ws, chunksize)
      && (ws == [] ==> out.header == old(out.header) && out.body == old(out.body))
      && (ws != [] ==> out.header == Some(OutCols(t.cols, rsidCol))
                       && out.body == Body(ws, store.records, chunksize, posCol, rsidCol))
  {
    var chunks := Chunks(t.rows, READ_CHUNK);
    ghost var pieces := FileChunks(t.rows, chunksize, chromCol, posCol);
    ghost var h0, b0, log0 := out.header, out.body, store.log;
    var cols := OutCols(t.cols, rsidCol);
    var ith := 0;
    assert pieces[..0] == [];
    for n := 0 to |chunks|
      invariant ith == |Flatten(pieces[..n])|
      invariant Emitted(out, store, Flatten(pieces[..n]), h0, b0, log0, cols, chunksize, posCol, rsidCol)
    {
      assert pieces[n] == Flatten(ChunkGroups(chunks[n], chunksize, chromCol, posCol));
      ith := AnnotateChunk(store, out, chunks[n], ith, Flatten(pieces[..n]), h0, b0, log0, cols, chunksize, chromCol, posCol, rsidCol);
      FlattenStep(pieces, n);
    }
    assert pieces[..|chunks|] == pieces;
  }
}
