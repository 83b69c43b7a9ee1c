/** The column-name guesser: the raw columns found in a lookup table of common
    spellings are mapped to canonical names, the canonical output columns left
    unmapped are reported, and the guess is inverted (canonical name to raw column)
    for the interactive correction. */
module MapHeader {
  import opened Seqs
  import opened Columns

  /** The raw columns that the lookup table knows, in the order a dict built by
      assignment remembers them: first appearance in the frame. */
  function Guessed(cols: seq<string>, common: map<string, string>): seq<string> {
    if cols == [] then []
    else
      var init := Guessed(cols[..|cols| - 1], common);
      var c := cols[|cols| - 1];
      if c in common && c !in init then init + [c] else init
  }

  lemma {:induction false} GuessedFacts(cols: seq<string>, common: map<string, string>)
    ensures Distinct(Guessed(cols, common))
    ensures forall c :: c in Guessed(cols, common) <==> c in cols && c in common
  {
    if cols != [] {
      var init := cols[..|cols| - 1];
      GuessedFacts(init, common);
      assert cols == init + [cols[|cols| - 1]];
    }
  }

  /** `guess_colnames`: loops over the frame's columns and records the table's
      canonical name for each one it knows. */
  method GuessColnames(cols: seq<string>, common: map<string, string>)
    returns (m: map<string, string>, order: seq<string>)
    ensures forall c :: c in m <==> c in cols && c in common
    ensures forall c :: c in m ==> c in common && m[c] == common[c]
    ensures order == Guessed(cols, common)
    ensures Distinct(order) && forall c :: c in order <==> c in m
  {
    m := map[];
    order := [];
    for i := 0 to |cols|
      invariant forall c :: c in m <==> c in cols[..i] && c in common
      invariant forall c :: c in m ==> c in common && m[c] == common[c]
      invariant order == Guessed(cols[..i], common)
    {
      var col := cols[i];
      assert cols[..i + 1][..i] == cols[..i] && cols[..i + 1] == cols[..i] + [col];
      GuessedFacts(cols[..i], common);
      if col in common {
        if col !in m {
          order := order + [col];
        }
        m := m[col := common[col]];
      }
    }
    assert cols[..|cols|] == cols;
    GuessedFacts(cols, common);
  }

  /** The canonical output columns that no raw column is mapped to. */
  function MissingColnames(m: map<string, string>): (r: set<string>)
    ensures forall c :: c in r <==> c in OUTCOLS && forall k :: k in m ==> m[k] != c
  {
    set c | c in OUTCOLS && c !in m.Values
  }

  /** For a guessed map, a canonical output column is reported missing exactly when
      no column of the frame is a table spelling of it. */
  lemma GuessMissing(cols: seq<string>, common: map<string, string>, m: map<string, string>, c: string)
    requires forall k :: k in m <==> k in cols && k in common
    requires forall k :: k in m ==> k in common && m[k] == common[k]
    ensures c in MissingColnames(m) <==>
      c in OUTCOLS && forall col :: col in cols && col in common ==> common[col] != c
  {
    if c in OUTCOLS && c !in MissingColnames(m) {
      var k :| k in m && m[k] == c;
      assert k in cols && k in common && common[k] == c;
    }
  }

  /** The last position in `order` whose raw column is mapped to `v`. */
  predicate LastMappedTo(m: map<string, string>, order: seq<string>, i: int, v: string)
    requires forall k :: k in order ==> k in m
  {
    0 <= i < |order| && m[order[i]] == v && forall j :: i < j < |order| ==> m[order[j]] != v
  }

  /** `{v: k for k, v in guessed_map.items()}`: each canonical name is taken back to
      a raw column; when two raw columns guess the same name, the later one in the
      dict's order wins. */
  method InverseMap(m: map<string, string>, order: seq<string>) returns (inv: map<string, string>)
    requires forall k :: k in order ==> k in m
    ensures forall v :: v in inv <==> exists k :: k in order && m[k] == v
    ensures forall v :: v in inv ==> exists i :: LastMappedTo(m, order, i, v) && order[i] == inv[v]
  {
    inv := map[];
    for n := 0 to |order|
      invariant forall v :: v in inv <==> exists k :: k in order[..n] && m[k] == v
      invariant forall v :: v in inv ==> exists i :: LastMappedTo(m, order[..n], i, v) && order[i] == inv[v]
    {
      var k := order[n];
      assert order[..n + 1] == order[..n] + [k];
      forall v | v in inv && v != m[k]
        ensures exists i :: LastMappedTo(m, order[..n + 1], i, v) && order[i] == inv[v]
      {
        var i :| LastMappedTo(m, order[..n], i, v) && order[i] == inv[v];
        assert LastMappedTo(m, order[..n + 1], i, v);
      }
      assert LastMappedTo(m, order[..n + 1], n, m[k]);
      inv := inv[m[k] := k];
    }
    assert order[..|order|] == order;
  }
}
