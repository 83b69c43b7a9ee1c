/** The record logic of the dbSNP reference builder: renaming the first 24 contigs,
    dropping every other record, the stop at the first chunk that keeps nothing, the
    two output row layouts (position to rsID and rsID to a synthetic position), the
    ordering of the second one, and the lines written for merged rsIDs. */
module DbSnp {
  import opened Wrappers
  import opened Seqs
  import opened Text

  /** Rows per chunk of the VCF reader. */
  const VCF_CHUNK: nat := 100000

  /** The names given, in order, to the first 24 contigs the index lists. */
  const CONTIG_NAMES: seq<string> :=
    ["1", "2", "3", "4", "5", "6", "7", "8", "9", "10", "11", "12",
     "13", "14", "15", "16", "17", "18", "19", "20", "21", "22", "X", "Y"]

  /** One line of the normalised VCF, the five columns read; `None` is a field the
      reader takes as missing. */
  datatype VcfRecord = VcfRecord(
    chrom: Option<string>, pos: Option<int>, id: Option<string>,
    refAllele: Option<string>, altAllele: Option<string>)

  /** A row of the position-to-rsID table. */
  datatype Pos2Snp = Pos2Snp(chrom: string, pos: int, id: string, refAllele: string, altAllele: string)

  /** A row of the rsID-to-position table: a synthetic chromosome (the first digit of
      the rsID number) and a synthetic position (the whole number). */
  datatype Snp2Pos = Snp2Pos(
    first: string, rsid: string, chrom: string, pos: int, refAllele: string, altAllele: string)

  // ---------------------------------------------------------------------------
  // Contig renaming and the records kept
  // ---------------------------------------------------------------------------

  /** What the contig map needs: 24 listed contigs, no two the same. */
  predicate ContigIndex(contigs: seq<string>) {
    |contigs| >= 24 && Distinct(contigs[..24])
  }

  function IndexIn(s: seq<string>, c: string): (k: nat)
    requires c in s
    ensures k < |s| && s[k] == c
  {
    if s[0] == c then 0 else 1 + IndexIn(s[1..], c)
  }

  /** The contig map: the k-th listed contig is renamed to the k-th name; any other
      contig has no name. */
  function ContigName(contigs: seq<string>, c: string): (r: Option<string>)
    requires ContigIndex(contigs)
    ensures r.Some? <==> c in contigs[..24]
    ensures forall k :: 0 <= k < 24 && contigs[k] == c ==> r == Some(CONTIG_NAMES[k])
  {
    if c in contigs[..24] then Some(CONTIG_NAMES[IndexIn(contigs[..24], c)]) else None
  }

  /** A record after renaming and dropping: kept only when its contig has a name and
      no field is missing. */
  function Located(contigs: seq<string>, r: VcfRecord): (p: Option<Pos2Snp>)
    requires ContigIndex(contigs)
    ensures p.Some? <==>
      (r.chrom.Some? && r.chrom.value in contigs[..24] && r.pos.Some? && r.id.Some?
       && r.refAllele.Some? && r.altAllele.Some?)
    ensures p.Some? ==>
      (exists k :: (0 <= k < 24 && contigs[k] == r.chrom.value && p.value.chrom == CONTIG_NAMES[k]))
    ensures p.Some? ==>
      p.value.pos == r.pos.value && p.value.id == r.id.value
      && p.value.refAllele == r.refAllele.value && p.value.altAllele == r.altAllele.value
  {
    if r.chrom.None? then None
    else
      match ContigName(contigs, r.chrom.value)
      case None => None
      case Some(name) =>
        if r.pos.None? || r.id.None? || r.refAllele.None? || r.altAllele.None? then None
        else Some(Pos2Snp(name, r.pos.value, r.id.value, r.refAllele.value, r.altAllele.value))
  }

  /** The rows of one chunk that survive the renaming and the drop, in order. */
  function Kept(contigs: seq<string>, chunk: seq<VcfRecord>): seq<Pos2Snp>
    requires ContigIndex(contigs)
  {
    if chunk == [] then []
    else
      match Located(contigs, chunk[0])
      case None => Kept(contigs, chunk[1..])
      case Some(p) => [p] + Kept(contigs, chunk[1..])
  }

  lemma {:induction false} KeptAppend(contigs: seq<string>, a: seq<VcfRecord>, b: seq<VcfRecord>)
    requires ContigIndex(contigs)
    ensures Kept(contigs, a + b) == Kept(contigs, a) + Kept(contigs, b)
  {
    if a == [] {
      assert a + b == b;
    } else {
      assert (a + b)[0] == a[0] && (a + b)[1..] == a[1..] + b;
      KeptAppend(contigs, a[1..], b);
    }
  }

  /** A written row comes from a record of the chunk, and every located record of
      the chunk is written. */
  lemma {:induction false} KeptMember(contigs: seq<string>, chunk: seq<VcfRecord>, p: Pos2Snp)
    requires ContigIndex(contigs)
    ensures p in Kept(contigs, chunk) <==> exists r :: r in chunk && Located(contigs, r) == Some(p)
  {
    if chunk != [] {
      KeptMember(contigs, chunk[1..], p);
      if exists r :: r in chunk && Located(contigs, r) == Some(p) {
        var r :| r in chunk && Located(contigs, r) == Some(p);
        if r != chunk[0] {
          assert r in chunk[1..];
        }
      }
    }
  }

  /** The kept rows of each chunk, up to (not including) the first chunk that keeps
      nothing: the reader loop breaks there. */
  function Taken(contigs: seq<string>, chunks: seq<seq<VcfRecord>>): (r: seq<seq<Pos2Snp>>)
    requires ContigIndex(contigs)
    ensures |r| <= |chunks|
  {
    if chunks == [] then []
    else
      var kept := Kept(contigs, chunks[0]);
      if kept == [] then [] else [kept] + Taken(contigs, chunks[1..])
  }

  /** The chunks processed are a prefix of the input, each keeps at least one row, and
      the chunk right after them, if any, keeps none. */
  lemma {:induction false} TakenShape(contigs: seq<string>, chunks: seq<seq<VcfRecord>>)
    requires ContigIndex(contigs)
    ensures |Taken(contigs, chunks)| <= |chunks|
    ensures forall j :: 0 <= j < |Taken(contigs, chunks)| ==>
      Taken(contigs, chunks)[j] == Kept(contigs, chunks[j]) != []
    ensures |Taken(contigs, chunks)| < |chunks| ==>
      Kept(contigs, chunks[|Taken(contigs, chunks)|]) == []
  {
    if chunks != [] && Kept(contigs, chunks[0]) != [] {
      TakenShape(contigs, chunks[1..]);
    }
  }

  /** What is written is exactly the kept rows of the records before the stopping
      chunk, in input order. */
  lemma {:induction false} TakenIsPrefix(contigs: seq<string>, chunks: seq<seq<VcfRecord>>)
    requires ContigIndex(contigs)
    ensures Flatten(Taken(contigs, chunks)) == Kept(contigs, Flatten(chunks[..|Taken(contigs, chunks)|]))
  {
    if chunks != [] && Kept(contigs, chunks[0]) != [] {
      var n := |Taken(contigs, chunks[1..])|;
      TakenIsPrefix(contigs, chunks[1..]);
      assert chunks[..n + 1] == [chunks[0]] + chunks[1..][..n];
      assert Flatten(chunks[..n + 1]) == chunks[0] + Flatten(chunks[1..][..n]);
      KeptAppend(contigs, chunks[0], Flatten(chunks[1..][..n]));
    }
  }

  /** When no chunk is dropped entirely, every record on a named contig with no
      missing field is written. */
  lemma NoStopKeepsAll(contigs: seq<string>, records: seq<VcfRecord>)
    requires ContigIndex(contigs)
    requires forall c :: c in Chunks(records, VCF_CHUNK) ==> Kept(contigs, c) != []
    ensures Flatten(Taken(contigs, Chunks(records, VCF_CHUNK))) == Kept(contigs, records)
  {
    var chunks := Chunks(records, VCF_CHUNK);
    TakenShape(contigs, chunks);
    var n := |Taken(contigs, chunks)|;
    if n < |chunks| {
      assert false;
    }
    assert chunks[..n] == chunks;
    TakenIsPrefix(contigs, chunks);
  }

  // ---------------------------------------------------------------------------
  // The rsID-to-position layout
  // ---------------------------------------------------------------------------

  /** IDs long enough for the slices `ID[2:]` and `ID[2]`. */
  predicate LongIds(ps: seq<Pos2Snp>) {
    forall p :: p in ps ==> |p.id| >= 3
  }

  /** The rsID-to-position row of a kept record: the ID without its two-letter prefix
      is the synthetic position, and its first digit the synthetic chromosome. */
  function Snp2PosOf(p: Pos2Snp): (s: Snp2Pos)
    requires |p.id| >= 3
    ensures s.rsid == p.id[2..] && |s.first| == 1 && s.first == s.rsid[..1]
    ensures s.chrom == p.chrom && s.pos == p.pos
    ensures s.refAllele == p.refAllele && s.altAllele == p.altAllele
  {
    Snp2Pos(p.id[2..3], p.id[2..], p.chrom, p.pos, p.refAllele, p.altAllele)
  }

  function Snp2PosRows(ps: seq<Pos2Snp>): (r: seq<Snp2Pos>)
    requires LongIds(ps)
    ensures |r| == |ps| && forall k :: 0 <= k < |ps| ==> r[k] == Snp2PosOf(ps[k])
  {
    seq(|ps|, k requires 0 <= k < |ps| => Snp2PosOf(ps[k]))
  }

  lemma {:induction false} Snp2PosRowsAppend(a: seq<Pos2Snp>, b: seq<Pos2Snp>)
    requires LongIds(a) && LongIds(b)
    ensures LongIds(a + b) && Snp2PosRows(a + b) == Snp2PosRows(a) + Snp2PosRows(b)
  {
    assert LongIds(a + b);
  }

  /** The ordering of `sort -k1,1 -k2,2n`: the synthetic chromosome as text, then the
      synthetic position as a number. */
  predicate KeyLe(a: Snp2Pos, b: Snp2Pos) {
    if a.first == b.first then LeadingNumber(a.rsid) <= LeadingNumber(b.rsid)
    else LexLe(a.first, b.first)
  }

  lemma KeyLeTotal(a: Snp2Pos, b: Snp2Pos)
    ensures KeyLe(a, b) || KeyLe(b, a)
  {
    LexLeTotal(a.first, b.first);
  }

  lemma KeyLeTransitive(a: Snp2Pos, b: Snp2Pos, c: Snp2Pos)
    requires KeyLe(a, b) && KeyLe(b, c)
    ensures KeyLe(a, c)
  {
    if a.first != b.first && b.first != c.first {
      LexLeTransitive(a.first, b.first, c.first);
      if a.first == c.first {
        LexLeAntisymmetric(a.first, b.first);
      }
    }
  }

  predicate SortedByKey(s: seq<Snp2Pos>) {
    forall i, j :: 0 <= i < j < |s| ==> KeyLe(s[i], s[j])
  }

  function InsertByKey(x: Snp2Pos, s: seq<Snp2Pos>): (r: seq<Snp2Pos>)
    requires SortedByKey(s)
    ensures SortedByKey(r) && multiset(r) == multiset(s) + multiset{x}
  {
    if s == [] then [x]
    else if KeyLe(x, s[0]) then
      KeyFirst(x, s);
      ConsSortedByKey(x, s);
      [x] + s
    else
      KeyLeTotal(x, s[0]);
      var rest := InsertByKey(x, s[1..]);
      KeyBehind(x, s, rest);
      ConsSortedByKey(s[0], rest);
      [s[0]] + rest
  }

  /** A row ordered before the head of a sorted table is ordered before all of it. */
  lemma KeyFirst(x: Snp2Pos, s: seq<Snp2Pos>)
    requires SortedByKey(s) && s != [] && KeyLe(x, s[0])
    ensures forall y :: y in s ==> KeyLe(x, y)
  {
    forall y | y in s ensures KeyLe(x, y) {
      var j :| 0 <= j < |s| && s[j] == y;
      if j > 0 {
        KeyLeTransitive(x, s[0], s[j]);
      }
    }
  }

  /** Inserting behind the head keeps the head first and the rows it had. */
  lemma KeyBehind(x: Snp2Pos, s: seq<Snp2Pos>, rest: seq<Snp2Pos>)
    requires SortedByKey(s) && s != [] && KeyLe(s[0], x)
    requires multiset(rest) == multiset(s[1..]) + multiset{x}
    ensures forall y :: y in rest ==> KeyLe(s[0], y)
    ensures multiset([s[0]] + rest) == multiset(s) + multiset{x}
  {
    assert s == [s[0]] + s[1..];
    forall y | y in rest ensures KeyLe(s[0], y) {
      assert y in multiset(rest);
      if y != x {
        assert y in multiset(s[1..]);
        var i :| 0 <= i < |s[1..]| && s[1..][i] == y;
        assert s[i + 1] == y;
      }
    }
  }

  lemma ConsSortedByKey(x: Snp2Pos, s: seq<Snp2Pos>)
    requires SortedByKey(s) && forall y :: y in s ==> KeyLe(x, y)
    ensures SortedByKey([x] + s)
  {
    var r := [x] + s;
    forall i, j | 0 <= i < j < |r| ensures KeyLe(r[i], r[j]) {
      assert r[j] == s[j - 1] && s[j - 1] in s;
      if i > 0 { assert r[i] == s[i - 1]; }
    }
  }

  /** The sorted rsID-to-position table: ordered by the key of `sort -k1,1 -k2,2n`
      and holding exactly the unsorted rows. */
  function SortSnp2Pos(s: seq<Snp2Pos>): (r: seq<Snp2Pos>)
    ensures SortedByKey(r) && multiset(r) == multiset(s)
  {
    if s == [] then []
    else
      assert s == [s[0]] + s[1..];
      InsertByKey(s[0], SortSnp2Pos(s[1..]))
  }

  // ---------------------------------------------------------------------------
  // Merged rsIDs
  // ---------------------------------------------------------------------------

  /** One line of the merged-rsID JSON: the retired rsID, the rsIDs it was merged
      into, and the `merged_rsid` of each of its dbSNP1 merges. */
  datatype RefSnpMerge = RefSnpMerge(refsnpId: string, mergedInto: seq<string>, dbsnp1Merges: seq<string>)

  /** A line of the merged file: first character, rsID, target rsID. */
  datatype MergedLine = MergedLine(first: string, rsid: string, target: string)

  predicate NonEmptyIds(ids: seq<string>) {
    forall m :: m in ids ==> |m| > 0
  }

  /** The first characters `[0]` takes exist wherever a line is written. */
  predicate Writable(o: RefSnpMerge) {
    o.mergedInto != [] ==> |o.refsnpId| > 0 && NonEmptyIds(o.dbsnp1Merges)
  }

  function LineFor(id: string, target: string): (l: MergedLine)
    requires |id| > 0
    ensures l.rsid == id && l.target == target && |l.first| == 1 && l.first == l.rsid[..1]
  {
    MergedLine(id[..1], id, target)
  }

  /** The lines for the dbSNP1 merges under one target, in order. */
  function MergeLines(merges: seq<string>, target: string): seq<MergedLine>
    requires NonEmptyIds(merges)
  {
    if merges == [] then []
    else MergeLines(merges[..|merges| - 1], target) + [LineFor(merges[|merges| - 1], target)]
  }

  /** The block written for one target: the record's own line, then its merges. */
  function TargetLines(id: string, merges: seq<string>, target: string): seq<MergedLine>
    requires |id| > 0 && NonEmptyIds(merges)
  {
    [LineFor(id, target)] + MergeLines(merges, target)
  }

  /** The blocks for a record's targets, in order. */
  function ObjectLines(id: string, targets: seq<string>, merges: seq<string>): seq<MergedLine>
    requires targets != [] ==> |id| > 0 && NonEmptyIds(merges)
  {
    if targets == [] then []
    else ObjectLines(id, targets[..|targets| - 1], merges) + TargetLines(id, merges, targets[|targets| - 1])
  }

  function MergedLines(objs: seq<RefSnpMerge>): seq<MergedLine>
    requires forall o :: o in objs ==> Writable(o)
  {
    if objs == [] then []
    else
      var o := objs[|objs| - 1];
      assert o in objs && Writable(o);
      MergedLines(objs[..|objs| - 1]) + ObjectLines(o.refsnpId, o.mergedInto, o.dbsnp1Merges)
  }

  /** The number of lines a record produces. */
  function LineCount(objs: seq<RefSnpMerge>): nat {
    if objs == [] then 0
    else
      var o := objs[|objs| - 1];
      LineCount(objs[..|objs| - 1]) + |o.mergedInto| * (1 + |o.dbsnp1Merges|)
  }

  lemma {:induction false} MergeLinesFacts(merges: seq<string>, target: string)
    requires NonEmptyIds(merges)
    ensures |MergeLines(merges, target)| == |merges|
    ensures forall l :: l in MergeLines(merges, target) ==>
      l.target == target && l.rsid in merges && l.first == l.rsid[..1]
    ensures forall m :: m in merges ==> LineFor(m, target) in MergeLines(merges, target)
  {
    if merges != [] {
      var init := merges[..|merges| - 1];
      assert merges == init + [merges[|merges| - 1]];
      MergeLinesFacts(init, target);
    }
  }

  lemma {:induction false} ObjectLinesLength(id: string, targets: seq<string>, merges: seq<string>)
    requires targets != [] ==> |id| > 0 && NonEmptyIds(merges)
    ensures |ObjectLines(id, targets, merges)| == |targets| * (1 + |merges|)
  {
    if targets != [] {
      var init := targets[..|targets| - 1];
      var last := targets[|targets| - 1];
      ObjectLinesLength(id, init, merges);
      MergeLinesFacts(merges, last);
      assert |TargetLines(id, merges, last)| == 1 + |merges|;
      MulSucc(|init|, 1 + |merges|);
    }
  }

  lemma MulSucc(a: nat, b: nat)
    ensures (a + 1) * b == a * b + b
  {
  }

  lemma {:induction false} ObjectLinesSound(id: string, targets: seq<string>, merges: seq<string>)
    requires targets != [] ==> |id| > 0 && NonEmptyIds(merges)
    ensures forall l :: l in ObjectLines(id, targets, merges) ==>
      l.target in targets && (l.rsid == id || l.rsid in merges) && l.first == l.rsid[..1]
  {
    if targets != [] {
      var init := targets[..|targets| - 1];
      var t := targets[|targets| - 1];
      assert targets == init + [t];
      ObjectLinesSound(id, init, merges);
      MergeLinesFacts(merges, t);
    }
  }

  lemma {:induction false} ObjectLinesComplete(id: string, targets: seq<string>, merges: seq<string>)
    requires targets != [] ==> |id| > 0 && NonEmptyIds(merges)
    ensures forall t :: t in targets ==> LineFor(id, t) in ObjectLines(id, targets, merges)
    ensures forall t, m :: t in targets && m in merges ==> LineFor(m, t) in ObjectLines(id, targets, merges)
  {
    if targets != [] {
      var init := targets[..|targets| - 1];
      var t := targets[|targets| - 1];
      assert targets == init + [t];
      ObjectLinesComplete(id, init, merges);
      MergeLinesFacts(merges, t);
    }
  }

  /** Each record yields one line per target plus one per (target, dbSNP1 merge)
      pair: the merge lines repeat under every target. */
  lemma {:induction false} MergedLinesCount(objs: seq<RefSnpMerge>)
    requires forall o :: o in objs ==> Writable(o)
    ensures |MergedLines(objs)| == LineCount(objs)
  {
    if objs != [] {
      var o := objs[|objs| - 1];
      assert o in objs;
      MergedLinesCount(objs[..|objs| - 1]);
      ObjectLinesLength(o.refsnpId, o.mergedInto, o.dbsnp1Merges);
    }
  }

  /** Every line points a record's own rsID or one of its dbSNP1 merges at a target
      that record lists directly (chains of merges are not followed), and every such
      pair has its line. */
  lemma {:induction false} MergedLinesContent(objs: seq<RefSnpMerge>, l: MergedLine)
    requires forall o :: o in objs ==> Writable(o)
    ensures l in MergedLines(objs) <==>
      (exists o :: (o in objs && l.target in o.mergedInto && |l.rsid| > 0
                    && l.first == l.rsid[..1] && (l.rsid == o.refsnpId || l.rsid in o.dbsnp1Merges)))
  {
    if objs != [] {
      var init := objs[..|objs| - 1];
      var o := objs[|objs| - 1];
      assert objs == init + [o];
      assert o in objs;
      MergedLinesContent(init, l);
      ObjectLinesSound(o.refsnpId, o.mergedInto, o.dbsnp1Merges);
      ObjectLinesComplete(o.refsnpId, o.mergedInto, o.dbsnp1Merges);
      if l in ObjectLines(o.refsnpId, o.mergedInto, o.dbsnp1Merges) {
        assert o in objs && l.target in o.mergedInto;
        assert |l.rsid| > 0;
      }
      if exists p :: (p in objs && l.target in p.mergedInto && |l.rsid| > 0
                      && l.first == l.rsid[..1] && (l.rsid == p.refsnpId || l.rsid in p.dbsnp1Merges)) {
        var p :| p in objs && l.target in p.mergedInto && |l.rsid| > 0
                 && l.first == l.rsid[..1] && (l.rsid == p.refsnpId || l.rsid in p.dbsnp1Merges);
        if p == o {
          assert l == LineFor(l.rsid, l.target);
        } else {
          assert p in init;
        }
      }
    }
  }

  // ---------------------------------------------------------------------------
  // The output files and the build
  // ---------------------------------------------------------------------------

  /** The three text files the builder writes: two opened for appending, the merged
      file opened afresh. */
  class ReferenceFiles {
    var pos2snp: seq<Pos2Snp>
    var snp2posUnsorted: seq<Snp2Pos>
    var merged: seq<MergedLine>

    /** The files as found on disk before the run. */
    constructor(pos2snp0: seq<Pos2Snp>, snp2pos0: seq<Snp2Pos>, merged0: seq<MergedLine>)
      ensures pos2snp == pos2snp0 && snp2posUnsorted == snp2pos0 && merged == merged0
    {
      pos2snp := pos2snp0;
      snp2posUnsorted := snp2pos0;
      merged := merged0;
    }

    /** The two `to_csv(..., mode='a')` calls of one chunk. */
    method AppendChunk(p: seq<Pos2Snp>, s: seq<Snp2Pos>)
      modifies this
      ensures pos2snp == old(pos2snp) + p && snp2posUnsorted == old(snp2posUnsorted) + s
      ensures merged == old(merged)
    {
      pos2snp := pos2snp + p;
      snp2posUnsorted := snp2posUnsorted + s;
    }

    /** `open(..., 'w')` on the merged file. */
    method OpenMerged()
      modifies this
      ensures merged == [] && pos2snp == old(pos2snp) && snp2posUnsorted == old(snp2posUnsorted)
    {
      merged := [];
    }

    /** `f_out.write(...)` of one line. */
    method WriteMerged(l: MergedLine)
      modifies this
      ensures merged == old(merged) + [l]
      ensures pos2snp == old(pos2snp) && snp2posUnsorted == old(snp2posUnsorted)
    {
      merged := merged + [l];
    }
  }

  /** The chunk loop: rename, drop, stop at an empty chunk, append both layouts; then
      the external sort of the rsID-to-position file. */
  method BuildTables(files: ReferenceFiles, contigs: seq<string>, records: seq<VcfRecord>)
    returns (sorted: seq<Snp2Pos>)
    requires ContigIndex(contigs)
    requires forall r :: r in records && Located(contigs, r).Some? ==> |r.id.value| >= 3
    modifies files
    ensures LongIds(Flatten(Taken(contigs, Chunks(records, VCF_CHUNK))))
    ensures files.pos2snp == old(files.pos2snp) + Flatten(Taken(contigs, Chunks(records, VCF_CHUNK)))
    ensures files.snp2posUnsorted ==
      old(files.snp2posUnsorted) + Snp2PosRows(Flatten(Taken(contigs, Chunks(records, VCF_CHUNK))))
    ensures files.merged == old(files.merged)
    ensures SortedByKey(sorted) && multiset(sorted) == multiset(files.snp2posUnsorted)
  {
    var chunks := Chunks(records, VCF_CHUNK);
    KeptLongIds(contigs, records, chunks);
    WriteChunks(files, contigs, chunks);
    sorted := SortSnp2Pos(files.snp2posUnsorted);
  }

  /** Every record a chunk keeps has an ID long enough to slice. */
  predicate ChunksLongIds(contigs: seq<string>, chunks: seq<seq<VcfRecord>>)
    requires ContigIndex(contigs)
  {
    forall k :: 0 <= k < |chunks| ==> LongIds(Kept(contigs, chunks[k]))
  }

  /** The reader loop over the chunks, with its break. */
  method WriteChunks(files: ReferenceFiles, contigs: seq<string>, chunks: seq<seq<VcfRecord>>)
    requires ContigIndex(contigs) && ChunksLongIds(contigs, chunks)
    modifies files
    ensures LongIds(Flatten(Taken(contigs, chunks)))
    ensures files.pos2snp == old(files.pos2snp) + Flatten(Taken(contigs, chunks))
    ensures files.snp2posUnsorted == old(files.snp2posUnsorted) + Snp2PosRows(Flatten(Taken(contigs, chunks)))
    ensures files.merged == old(files.merged)
  {
    ghost var done: seq<seq<Pos2Snp>> := [];
    var n := 0;
    while n < |chunks|
      invariant 0 <= n <= |chunks|
      invariant Taken(contigs, chunks) == done + Taken(contigs, chunks[n..])
      invariant LongIds(Flatten(done))
      invariant files.pos2snp == old(files.pos2snp) + Flatten(done)
      invariant files.snp2posUnsorted == old(files.snp2posUnsorted) + Snp2PosRows(Flatten(done))
      invariant files.merged == old(files.merged)
    {
      var kept := Kept(contigs, chunks[n]);
      if |kept| == 0 {
        TakenStop(contigs, chunks, n, done);
        break;
      }
      TakenStep(contigs, chunks, n, done);
      DoneStep(done, kept);
      AppendKept(files, old(files.pos2snp), old(files.snp2posUnsorted), Flatten(done), kept);
      done := done + [kept];
      n := n + 1;
    }
    if n == |chunks| {
      TakenStop(contigs, chunks, n, done);
    }
  }

  /** The two appends of one chunk, after the rows `prev` already written. */
  method AppendKept(files: ReferenceFiles, ghost p0: seq<Pos2Snp>, ghost s0: seq<Snp2Pos>,
                    ghost prev: seq<Pos2Snp>, kept: seq<Pos2Snp>)
    requires LongIds(prev) && LongIds(kept)
    requires files.pos2snp == p0 + prev && files.snp2posUnsorted == s0 + Snp2PosRows(prev)
    modifies files
    ensures LongIds(prev + kept)
    ensures files.pos2snp == p0 + (prev + kept)
    ensures files.snp2posUnsorted == s0 + Snp2PosRows(prev + kept)
    ensures files.merged == old(files.merged)
  {
    Snp2PosRowsAppend(prev, kept);
    AppendAssoc(p0, prev, kept);
    AppendAssoc(s0, Snp2PosRows(prev), Snp2PosRows(kept));
    files.AppendChunk(kept, Snp2PosRows(kept));
  }

  /** The chunk loop stops at the end of the input or at a chunk that keeps nothing. */
  lemma TakenStop(contigs: seq<string>, chunks: seq<seq<VcfRecord>>, n: nat, done: seq<seq<Pos2Snp>>)
    requires ContigIndex(contigs) && n <= |chunks|
    requires Taken(contigs, chunks) == done + Taken(contigs, chunks[n..])
    requires n < |chunks| ==> Kept(contigs, chunks[n]) == []
    ensures Taken(contigs, chunks) == done
  {
    if n < |chunks| {
      assert chunks[n..][0] == chunks[n];
    }
    assert done + [] == done;
  }

  /** One turn of the chunk loop, seen from `Taken`: a chunk that keeps rows adds them. */
  lemma TakenStep(contigs: seq<string>, chunks: seq<seq<VcfRecord>>, n: nat, done: seq<seq<Pos2Snp>>)
    requires ContigIndex(contigs) && ChunksLongIds(contigs, chunks) && n < |chunks|
    requires Taken(contigs, chunks) == done + Taken(contigs, chunks[n..])
    requires Kept(contigs, chunks[n]) != []
    ensures LongIds(Kept(contigs, chunks[n]))
    ensures Taken(contigs, chunks) == (done + [Kept(contigs, chunks[n])]) + Taken(contigs, chunks[n + 1..])
  {
    assert chunks[n..][0] == chunks[n] && chunks[n..][1..] == chunks[n + 1..];
    AppendAssoc(done, [Kept(contigs, chunks[n])], Taken(contigs, chunks[n + 1..]));
  }

  /** One more chunk appended to both files. */
  lemma DoneStep(done: seq<seq<Pos2Snp>>, kept: seq<Pos2Snp>)
    requires LongIds(Flatten(done)) && LongIds(kept)
    ensures Flatten(done + [kept]) == Flatten(done) + kept
    ensures LongIds(Flatten(done + [kept]))
    ensures Snp2PosRows(Flatten(done + [kept])) == Snp2PosRows(Flatten(done)) + Snp2PosRows(kept)
  {
    FlattenAppend(done, [kept]);
    assert Flatten([kept]) == kept + Flatten([kept][1..]);
    assert [kept][1..] == [];
    Snp2PosRowsAppend(Flatten(done), kept);
  }

  lemma KeptLongIds(contigs: seq<string>, records: seq<VcfRecord>, chunks: seq<seq<VcfRecord>>)
    requires ContigIndex(contigs)
    requires forall r :: r in records && Located(contigs, r).Some? ==> |r.id.value| >= 3
    requires chunks == Chunks(records, VCF_CHUNK)
    ensures ChunksLongIds(contigs, chunks)
  {
    forall k, p | 0 <= k < |chunks| && p in Kept(contigs, chunks[k])
      ensures |p.id| >= 3
    {
      KeptMember(contigs, chunks[k], p);
      var r :| r in chunks[k] && Located(contigs, r) == Some(p);
      FlattenMember(chunks, r);
    }
  }

  /** The merged-rsID loop: one block per target of every record, in order. */
  method BuildMerged(files: ReferenceFiles, objs: seq<RefSnpMerge>)
    requires forall o :: o in objs ==> Writable(o)
    modifies files
    ensures files.merged == MergedLines(objs)
    ensures files.pos2snp == old(files.pos2snp) && files.snp2posUnsorted == old(files.snp2posUnsorted)
  {
    files.OpenMerged();
    var k := 0;
    while k < |objs|
      invariant 0 <= k <= |objs|
      invariant files.merged == MergedLines(objs[..k])
      invariant files.pos2snp == old(files.pos2snp) && files.snp2posUnsorted == old(files.snp2posUnsorted)
    {
      assert objs[k] in objs;
      WriteObject(files, objs[k]);
      assert objs[..k + 1][..k] == objs[..k];
      k := k + 1;
    }
    assert objs[..k] == objs;
  }

  method WriteObject(files: ReferenceFiles, o: RefSnpMerge)
    requires Writable(o)
    modifies files
    ensures files.merged == old(files.merged) + ObjectLines(o.refsnpId, o.mergedInto, o.dbsnp1Merges)
    ensures files.pos2snp == old(files.pos2snp) && files.snp2posUnsorted == old(files.snp2posUnsorted)
  {
    var t := 0;
    while t < |o.mergedInto|
      invariant 0 <= t <= |o.mergedInto|
      invariant files.merged == old(files.merged) + ObjectLines(o.refsnpId, o.mergedInto[..t], o.dbsnp1Merges)
      invariant files.pos2snp == old(files.pos2snp) && files.snp2posUnsorted == old(files.snp2posUnsorted)
    {
      WriteTarget(files, o.refsnpId, o.dbsnp1Merges, o.mergedInto[t]);
      assert o.mergedInto[..t + 1][..t] == o.mergedInto[..t];
      t := t + 1;
    }
    assert o.mergedInto[..t] == o.mergedInto;
  }

  method WriteTarget(files: ReferenceFiles, id: string, merges: seq<string>, target: string)
    requires |id| > 0 && NonEmptyIds(merges)
    modifies files
    ensures files.merged == old(files.merged) + TargetLines(id, merges, target)
    ensures files.pos2snp == old(files.pos2snp) && files.snp2posUnsorted == old(files.snp2posUnsorted)
  {
    files.WriteMerged(LineFor(id, target));
    var m := 0;
    while m < |merges|
      invariant 0 <= m <= |merges|
      invariant files.merged == old(files.merged) + [LineFor(id, target)] + MergeLines(merges[..m], target)
      invariant files.pos2snp == old(files.pos2snp) && files.snp2posUnsorted == old(files.snp2posUnsorted)
    {
      assert merges[m] in merges;
      files.WriteMerged(LineFor(merges[m], target));
      assert merges[..m + 1][..m] == merges[..m];
      m := m + 1;
    }
    assert merges[..m] == merges;
  }
}
