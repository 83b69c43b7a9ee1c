# smunger core, modelled in Dafny

smunger cleans GWAS summary statistics. It takes a table whose columns have been renamed to canonical names (CHR, BP, rsID, EA, NEA, EAF, MAF, BETA, SE, P, plus the optional NEGLOGP, OR, ORSE and Z). It then does four things:

1. It drops columns that hold no value.
2. It validates every column. Chromosomes become integers 1..23, with X mapped to 23. Positions become integers. Alleles become upper-case A/C/G/T text. p-values must lie strictly between 0 and 1, and a p-value can also be derived from `-log10 p`. Standard errors must be positive, frequencies must lie in [0, 1], and so on. A row that fails a check is dropped. The position and allele checks used by the modelled pipeline are the corrected ones described under "## Findings"; the code as written is modelled beside them.
3. It keys every row by a variant identifier `chr-bp-allele1-allele2`, with the alleles in sorted order. Where a variant appears more than once, it keeps the first of its rows. The rows are sorted by p-value first when P or NEGLOGP is present, so the kept row has the smallest p-value; otherwise it is the first in input order.
4. It converts odds ratios into effects, derives MAF from EAF, sorts by chromosome and position, and emits exactly the output columns.

Around this pipeline the model also covers:

- `get_sigdf`, which selects the significant rows.
- `harmonize`, which joins two studies on the variant key and re-signs the second effect when the effect alleles differ.
- `annotate_rsid`, which fills in rsIDs by scanning a position-sorted file in windows and querying a tabix index once per window.
- The dbSNP reference builder `build_dbsnp_tabix.py`. It maps contigs to chromosome names, writes the position-to-rsID and rsID-to-position tables chunk by chunk, sorts the latter, and writes the merged-rsID lines.
- The column-name guesser in `mapheader.py`.

## How the model is built

- **Tables.** A table is `Frame.Table(cols, rows)`. A row is a `map<string, Cell>`, and a cell is `Null`, `Str(text)` or `Num(real)`.
- **Provenance.** Every stage states how its output rows derive from its input rows. `Frame.Trace` covers an order-preserving subsequence in which only the named columns may change. `Frame.Derived` covers the same relation up to reordering, after a sort.
- **Foreign numerics.** The behaviour of pandas/numpy that is not smunger's own logic is a parameter, `Validate.Numerics`. This covers parsing text to a number (`pd.to_numeric(errors="coerce")`), the text of a float and `10 ** -x`. Every property holds for any such functions.
- **Classes for state.** The builder's output files are the fields of the class `DbSnp.ReferenceFiles`. The annotator's tabix handle and output file are `Annotate.TabixStore` and `Annotate.OutFile`. The loops that write them are methods proved against specification functions.
- **Constants.** The column bounds and two column names (SNPID, NEGLOGP) are referenced by `smunger.py` but are not defined in `smunger/constant.py`. The model fixes them in `columns.dfy`:
  - CHR 1..23, BP 0..3e8, P 0..1;
  - NEGLOGP_MIN 0, SE_MIN 0 and ORSE_MIN 0;
  - EAF 0..1, MAF 0..0.5.

### Behaviour of the code worth noting

- **Chromosome prefix.** `munge_chr` deletes every occurrence of `chr` in the text, wherever it stands.
- **-log10 p bound.** `munge_neglogp` keeps values strictly above `NEGLOGP_MIN`, so a value equal to the bound is dropped.
- **Odds ratio.** `munge_or` only requires the OR to be numeric. Zero and negative odds ratios pass.
- **MAF from EAF.** When EAF is present, MAF is always overwritten with EAF before it is folded (`smunger.py:157`). This happens even when a MAF column was supplied.
- **Sorting by p.** When neither P nor NEGLOGP is present, no sort by p takes place. The kept duplicate is then the first in input order (`Pipeline.RankedRows`, `Pipeline.Munge`).
- **Deduplication before the late checks.** Duplicates are dropped before BETA, SE, OR, ORSE, Z, EAF and MAF are checked. A variant whose first row fails one of those checks therefore has no output row, even when a later row of it would pass (`Frame.CheckAfterDedup`).
- **Annotation join.** `annotate_rsid` looks rsIDs up by position only; chromosome and alleles play no part.
- **Annotation queries.** Every index query asks for contig label `'1'`, whatever the group's chromosome.
- **Annotation windows.** The windows come from `range(min, max, chunksize)`. When `max - min` is a multiple of the window size, the rows at the last position are never emitted (`Annotate.RowCovered`, `Annotate.SinglePositionSilent`).
- **Stopping on a dropped chunk.** The dbSNP builder stops at the first chunk in which every record is dropped (no listed contig). It does not skip malformed records and continue.
- **Merge targets.** The merged-rsID file lists the direct `merged_into` targets. It does not resolve merge chains to a final identifier. Each `dbsnp1_merges` entry is written once per target.
- **Sorted output.** Only the rsID-to-position table is sorted. The position-to-rsID table keeps the input order.

## Model

| member | source | states |
|---|---|---|
| Text.NatToStringInjective | smunger/smunger.py:42-50 | different integers render as different decimal texts, so the variant key separates positions |
| Text.LexLeTotal | smunger/smunger.py:39-41 | the text order used to sort two alleles is total |
| Text.LexLeAntisymmetric | smunger/smunger.py:39-41 | two texts that are each ordered before the other are equal |
| Text.LexLeTransitive | smunger/smunger.py:39-41 | the text order is transitive |
| Text.MinMaxSymmetric | smunger/smunger.py:39-41 | the (min, max) allele pair is the same whichever allele comes first |
| Text.SplitAtDash | smunger/smunger.py:42-50 | a `-`-joined text whose parts contain no dash splits back into the same parts |
| Seqs.Chunks | smunger/annotate.py:23 | the pieces of a chunked read are non-empty, every piece but the last has exactly the chunk size, the last is no longer, and they concatenate back to the input |
| Frame.FilterRows | smunger/smunger.py:219-229 | every kept row is an input row whose cell the check accepts, with only that cell replaced by its cleaned value, in input order |
| Frame.FilterRowsComplete | smunger/smunger.py:219-229 | every input row the check accepts appears in the output |
| Frame.FilterRowsIdempotent | smunger/smunger.py:219-229 | a check that accepts its own cleaned values unchanged changes nothing when it is run a second time |
| Frame.SiftMembers | smunger/smunger.py:219-229 | a row-wise check applied to a list of rows yields exactly what it makes of the rows it accepts |
| Frame.SiftThen | smunger/smunger.py:114-116 | running two row-wise checks one after the other equals running their composition once |
| Frame.ValidateColumn | smunger/smunger.py:219-229 | a validator keeps the columns and keeps exactly the accepted rows, in order, with only the checked column changed |
| Frame.ValidateColumnIdempotent | smunger/smunger.py:219-229 | running a validator twice equals running it once |
| Frame.KeepWhere | smunger/smunger.py:214-215 | a boolean mask keeps exactly the rows satisfying it, in order |
| Frame.Where | smunger/smunger.py:214-215 | the masked table keeps its columns and its rows satisfy the mask |
| Frame.SetColumn | smunger/smunger.py:143-144 | assigning a column adds it to the columns and sets that cell of every row, leaving the others alone |
| Frame.Without | smunger/smunger.py:147-148 | removing a name from the column list leaves exactly the other names, still without repeats |
| Frame.DropColumn | smunger/smunger.py:147-148 | `del` removes the column from the table and from every row, and changes nothing else |
| Frame.InsertFront | smunger/smunger.py:51-53 | the new column comes first, the others follow in order, and every row gets its value |
| Frame.Project | smunger/smunger.py:78 | selecting the output columns yields exactly those columns, with every row's values for them |
| Frame.InsertRow | smunger/smunger.py:130 | inserting a row into a sorted sequence keeps it sorted and adds exactly that row |
| Frame.SortRows | smunger/smunger.py:130 | the sort by (CHR, BP) returns a sorted permutation of the rows |
| Frame.SortTable | smunger/smunger.py:120 | sorting a table keeps its columns and permutes its rows into order |
| Frame.SortRowsDistinct | smunger/smunger.py:129-130 | sorting keeps rows distinct on the key when they were distinct before |
| Frame.KeepFirstFrom | smunger/smunger.py:129 | `drop_duplicates(keep="first")` keeps only input rows whose key was not already seen, with pairwise different keys |
| Frame.KeepFirstFromComplete | smunger/smunger.py:129 | every key of the input that was not already seen is represented by a kept row |
| Frame.KeepFirstFromMinimal | smunger/smunger.py:129 | on rows sorted by a column pair, the kept row of each key is the smallest of that key in that order |
| Frame.KeepFirstFromDistinct | smunger/smunger.py:129 | on rows whose keys are already distinct and unseen, nothing is dropped |
| Frame.KeepFirstFromFirst | smunger/smunger.py:129 | a row is kept exactly when its key was not already seen and no earlier row has its key |
| Frame.KeepFirst | smunger/smunger.py:129 | `keep="first"`: the kept rows are exactly the first row of each key, pairwise different on the key |
| Frame.KeepFirstDropsLater | smunger/smunger.py:129 | of two rows with the same key only the earlier one is kept |
| Frame.CheckAfterDedup | smunger/smunger.py:128-159 | because deduplication comes before the effect and frequency checks, a variant whose first row fails them has no output row even when a later row of it passes |
| Frame.DropDuplicates | smunger/smunger.py:129 | deduplication keeps columns, keeps exactly the first input row of each key, in order, and leaves the keys distinct and all represented |
| Frame.KeepFirstProperties | smunger/smunger.py:129 | the kept rows are an ordered sub-sequence of the input, distinct on the key, with every key present |
| Frame.KeepFirstMinimal | smunger/smunger.py:118-129 | after the sort by p, the kept row of each variant has the minimal p-value |
| Frame.KeepFirstIdempotent | smunger/smunger.py:129 | deduplicating again changes nothing |
| Validate.Trunc | smunger/smunger.py:186 | `astype(int)` truncates toward zero: the result is an integer less than one away from the input on the side of zero, and integers are unchanged |
| Validate.ChrCell | smunger/smunger.py:174-186 | a chromosome cell is kept exactly when, after removing `chr` and mapping `X`/`x` to 23, it parses to a value in 1..23; it is stored as the integer part of that value |
| Validate.ChrX | smunger/smunger.py:176-179 | `chrX` and `x` both become chromosome 23 |
| Validate.MungeChr | smunger/smunger.py:171-187 | every kept row has an integral chromosome in 1..23, and the rows are the accepted input rows in order |
| Validate.MungeChrIdempotent | smunger/smunger.py:171-187 | munging the chromosome column twice equals munging it once |
| Validate.BpCellAsWritten | smunger/smunger.py:193-199 | as written, the bounds are tested before truncation, so the stored position may equal the lower bound |
| Validate.BpAsWrittenStoresZero | smunger/smunger.py:196-199 | the position 0.5 passes the as-written test and is stored as 0, outside the open range |
| Validate.BpCell | smunger/smunger.py:190-199 | a position is kept exactly when its truncation lies strictly inside the bounds, and it is stored as that integer |
| Validate.MungeBp | smunger/smunger.py:190-200 | every kept row has an integral position strictly inside (0, 3e8), using the corrected check of `Validate.BpCell` |
| Validate.MungeBpIdempotent | smunger/smunger.py:190-200 | munging positions twice equals munging them once |
| Validate.AlleleCellAsWritten | smunger/smunger.py:208-212 | as written, an upper-cased allele followed by a final newline also matches the pattern |
| Validate.AlleleAsWrittenAcceptsNewline | smunger/smunger.py:212 | `"a\n"` is accepted as written and kept as `"A\n"`, which is not an allele |
| Validate.AlleleCell | smunger/smunger.py:208-212 | an allele cell is kept exactly when its upper-cased text is a non-empty A/C/G/T string, and it is stored upper-cased |
| Validate.UpperIdempotent | smunger/smunger.py:210 | upper-casing twice equals upper-casing once |
| Validate.AlleleSpec | smunger/smunger.py:203-216 | after allele munging, every row has valid EA and NEA alleles that differ |
| Validate.AlleleSound | smunger/smunger.py:203-216 | every output row comes from an input row whose alleles are valid and different, upper-cased |
| Validate.AlleleComplete | smunger/smunger.py:203-216 | every input row with valid, different alleles survives |
| Validate.AlleleRowCells | smunger/smunger.py:203-216 | a row passes the allele checks exactly when both alleles are valid once upper-cased and differ, and leaves with both upper-cased and nothing else changed |
| Validate.AlleleSpecSifted | smunger/smunger.py:203-216 | the allele checks keep, in order, exactly what the row-level allele check makes of each input row |
| Validate.AlleleTrace | smunger/smunger.py:203-216 | only the allele columns change, and the row order is kept |
| Validate.ValidateEachAlleles | smunger/smunger.py:206-214 | the loop over EA and NEA is the two allele checks one after the other |
| Validate.MungeAllele | smunger/smunger.py:203-216 | the method's result is the allele specification of its input, using the corrected check of `Validate.AlleleCell` |
| Validate.NumericCell | smunger/smunger.py:249-250 | a cell is kept exactly when it parses as a number, and it is stored as that number |
| Validate.AboveCell | smunger/smunger.py:261-263 | a cell is kept exactly when it parses to a number strictly above the minimum, and it is stored as that number |
| Validate.BetweenCell | smunger/smunger.py:223-225 | a cell is kept exactly when it parses to a number strictly inside the range, and it is stored as that number |
| Validate.WithinCell | smunger/smunger.py:311-313 | a cell is kept exactly when it parses to a number in the closed range (the EAF bounds), and it is stored as that number |
| Validate.Fold | smunger/smunger.py:326 | a frequency above 0.5 becomes one minus it, so the result lies in [0, 0.5] |
| Validate.FoldIdempotent | smunger/smunger.py:326 | folding twice equals folding once |
| Validate.MafCell | smunger/smunger.py:324-327 | a MAF cell is kept exactly when it parses into [0, 1], and it is stored folded |
| Validate.MungePvalue | smunger/smunger.py:219-229 | every kept p-value is a number strictly between 0 and 1; the kept rows are exactly the accepted input rows, in order |
| Validate.MungeNeglogp | smunger/smunger.py:232-242 | every kept -log10 p is a number strictly above the minimum |
| Validate.MungeBeta | smunger/smunger.py:245-254 | every kept effect is a number |
| Validate.MungeSe | smunger/smunger.py:257-267 | every kept standard error is a number strictly above the minimum |
| Validate.MungeOr | smunger/smunger.py:270-279 | every kept odds ratio is a number |
| Validate.MungeOrse | smunger/smunger.py:282-292 | every kept odds-ratio standard error is strictly above the minimum |
| Validate.MungeZ | smunger/smunger.py:295-304 | every kept z-score is a number |
| Validate.MungeEaf | smunger/smunger.py:307-317 | every kept EAF lies in [0, 1] |
| Validate.MungeMaf | smunger/smunger.py:320-331 | every kept MAF lies in [0, 0.5] |
| Validate.PvalueValidatorsIdempotent | smunger/smunger.py:219-244 | the P and NEGLOGP validators, run a second time, change nothing |
| Validate.EffectValidatorsIdempotent | smunger/smunger.py:245-306 | the BETA, SE and Z validators, run a second time, change nothing |
| Validate.OddsValidatorsIdempotent | smunger/smunger.py:270-294 | the OR and ORSE validators, run a second time, change nothing |
| Validate.FrequencyValidatorsIdempotent | smunger/smunger.py:307-331 | the EAF and MAF validators, run a second time, change nothing |
| SnpId.PairOrder | smunger/smunger.py:39-41 | the key's first allele is the smaller one and the second the larger, whichever was the effect allele |
| SnpId.KeySymmetric | smunger/smunger.py:37-50 | swapping EA and NEA gives the same variant identifier |
| SnpId.SameVariantSameKey | smunger/smunger.py:37-50 | two rows with the same chromosome, position and allele pair get the same identifier |
| SnpId.KeyInjective | smunger/smunger.py:42-50 | rows with the same identifier have the same chromosome, position and unordered allele pair |
| SnpId.RenderInjective | smunger/smunger.py:43-45 | the integer text of chromosome and position separates different values |
| SnpId.MakeSnpIdUnique | smunger/smunger.py:15-54 | the identifier column is put first, every row gets its key, and no other column or row changes |
| SnpId.KeyIgnoresSnpId | smunger/smunger.py:42-50 | the key does not depend on an existing SNPID cell |
| SnpId.MakeSnpIdUniqueKeepsAlleles | smunger/smunger.py:37-41 | keying leaves the allele cells as text, so the table can be keyed again |
| SnpId.MakeSnpIdUniqueStable | smunger/smunger.py:51-53 | keying an already keyed table changes nothing |
| Reshape.BlankTable | smunger/smunger.py:84 | the empty text becomes missing in every cell, and nothing else changes |
| Reshape.ValuedCols | smunger/smunger.py:85-88 | the kept columns are exactly those holding at least one value, in their original order |
| Reshape.AllNaDropped | smunger/smunger.py:81-89 | the specification of `rm_col_allna`: columns with a value are kept, and every kept cell is the input cell with `''` made missing |
| Reshape.RmColAllNa | smunger/smunger.py:81-89 | the loop over columns computes the specification, with columns in order and rows unchanged apart from blanks |
| Reshape.OutColsDistinct | smunger/constant.py:22 | the output column list has no repeated name |
| Reshape.CheckColnames | smunger/smunger.py:72-78 | the output has exactly the output columns in their order; a column absent from the input is all missing, and the others are copied |
| Reshape.Present | smunger/smunger.py:64 | the mapping is restricted to columns that exist in the table |
| Reshape.RenameRow | smunger/smunger.py:65-67 | a renamed row has exactly the target names, each holding its source column's cell |
| Reshape.Selected | smunger/smunger.py:65-67 | the selected and renamed table has the target columns and every row's values under their new names |
| Reshape.ExtractCols | smunger/smunger.py:57-69 | a mapped column survives exactly when its source column has a value; its cells are the source cells with blanks made missing, and nothing unmapped survives |
| Reshape.GetSigdf | smunger/smunger.py:92-99 | fails exactly when P is absent or holds text; otherwise keeps exactly the rows with p below the threshold, in order |
| Stages.Validated | smunger/smunger.py:114-116 | after the chromosome, position and allele checks, every row is canonical with two different alleles, and only those columns changed |
| Stages.EarlyCells | smunger/smunger.py:114-116 | a row passes the chromosome, position and allele checks exactly when all four cells pass and the alleles differ, and leaves with exactly those cells replaced by their checked values |
| Stages.ValidatedSifted | smunger/smunger.py:114-116 | the three key-column validators keep, in order, exactly what the row-level check makes of each input row |
| Stages.KeyedTable | smunger/smunger.py:114-117 | adds SNPID to the columns, and every row carries the key of its own variant |
| Stages.KeyedRows | smunger/smunger.py:116-117 | validated rows have text alleles, so keying them gives every row its variant key |
| Stages.KeyedTableSifted | smunger/smunger.py:114-117 | the keyed table's rows are, in order, the checked and keyed forms of the accepted input rows |
| Stages.RankByP | smunger/smunger.py:118-127 | with P, rows are validated p-values sorted by p; with only NEGLOGP, P is added as 10^-NEGLOGP and sorted; with neither, the table is unchanged |
| Stages.RankByPvalue | smunger/smunger.py:118-120 | the P branch yields valid p-values, derived from the input rows |
| Stages.RankByNeglogp | smunger/smunger.py:121-124 | the NEGLOGP branch yields rows whose P is 10^-NEGLOGP of a value above the minimum |
| Stages.RankByPSifted | smunger/smunger.py:118-127 | ranking by p yields, up to order, exactly what the p-value check makes of each row it accepts |
| Stages.Deduplicated | smunger/smunger.py:128-130 | one row per variant key, exactly the first row of each key in the ranked order, every key kept, and sorted by (CHR, BP) |
| Stages.DeduplicatedMinimal | smunger/smunger.py:118-130 | when rows come sorted by p, each kept row has the smallest p among the rows of its variant |
| Stages.CheckedEffects | smunger/smunger.py:137-139 | every kept row has a numeric BETA and a valid SE, and only those columns changed |
| Stages.BetaSeCells | smunger/smunger.py:137-139 | a row passes the effect checks exactly when BETA is a number and SE a number above the minimum, and leaves with both stored as numbers and nothing else changed |
| Stages.CheckedEffectsSifted | smunger/smunger.py:137-139 | the BETA and SE validators keep, in order, exactly what the row-level effect check makes of each row |
| Stages.CheckedUnchanged | smunger/smunger.py:143-146 | re-checking numbers produced by the odds-ratio conversion keeps rows unchanged |
| Stages.ValidOdds | smunger/smunger.py:140-142 | every kept row has an OR and an ORSE that parse, and an ORSE above the minimum |
| Stages.ValidOddsSifted | smunger/smunger.py:140-142 | the OR and ORSE validators keep, in order, exactly what the row-level odds check makes of each row |
| Stages.OddsColumns | smunger/smunger.py:143-144 | BETA is set to the odds ratio and SE to ORSE/OR (missing when OR is zero) in every row |
| Stages.OddsColumnsSifted | smunger/smunger.py:143-144 | the two column assignments act on every row independently, in order |
| Stages.DropOdds | smunger/smunger.py:147-148 | OR and ORSE are removed from the columns and from every row |
| Stages.DropOddsSifted | smunger/smunger.py:147-148 | the two `del` statements act on every row independently, in order |
| Stages.FromOddsRatio | smunger/smunger.py:140-148 | every output row comes from an input row whose OR and ORSE were converted into a numeric BETA and a valid SE, with the odds columns dropped |
| Stages.OddsSource | smunger/smunger.py:143-144 | a converted row's BETA is the parsed OR and its SE is the parsed ORSE divided by it |
| Stages.OddsConverted | smunger/smunger.py:140-148 | after the re-check and the drop, every row still records its conversion from an input row |
| Stages.OddsCells | smunger/smunger.py:140-148 | a row passes the odds-ratio branch exactly when OR is a nonzero number, ORSE a number above the minimum and ORSE/OR above the SE minimum; it leaves with BETA = OR, SE = ORSE/OR and without the odds columns |
| Stages.FromOddsRatioSifted | smunger/smunger.py:140-148 | the odds-ratio branch keeps, in order, exactly what the row-level branch makes of each row |
| Stages.Effects | smunger/smunger.py:137-150 | with BETA and SE they are validated; otherwise with OR and ORSE they are converted; otherwise the table is unchanged |
| Stages.EffectsSifted | smunger/smunger.py:137-150 | the effect stage keeps, in order, exactly what the row-level check of the branch chosen by the columns makes of each row |
| Stages.CheckedZ | smunger/smunger.py:152-153 | when Z is present, every kept row has a numeric Z |
| Stages.CheckedZSifted | smunger/smunger.py:152-153 | the Z stage keeps, in order, exactly what the row-level Z check makes of each row |
| Stages.EafToMaf | smunger/smunger.py:155-159 | every kept row has a valid EAF and a MAF equal to the folded EAF |
| Stages.EafMafCells | smunger/smunger.py:155-159 | a row passes the EAF branch exactly when EAF is a number in [0, 1], and leaves with EAF as that number and MAF as its fold, nothing else changed |
| Stages.EafToMafSifted | smunger/smunger.py:155-159 | the EAF branch keeps, in order, exactly what the row-level frequency check makes of each row |
| Stages.EafCopied | smunger/smunger.py:157 | after the copy, MAF equals EAF in every row |
| Stages.MafFolded | smunger/smunger.py:158-159 | after the MAF check, every MAF is the folded EAF of its row |
| Stages.CheckedFrequencies | smunger/smunger.py:155-159 | with EAF, MAF is the folded EAF; with MAF only, it is validated and folded; with neither, the table is unchanged |
| Stages.CheckedFrequenciesSifted | smunger/smunger.py:155-159 | the frequency stage keeps, in order, exactly what the row-level check of the branch chosen by the columns makes of each row |
| Stages.Frequencies | smunger/smunger.py:152-159 | the Z, EAF and MAF stages together, with their guarantees |
| Stages.FrequenciesSifted | smunger/smunger.py:152-159 | the Z and frequency stages together keep, in order, exactly what their composed row-level check makes of each row |
| Pipeline.Munge | smunger/smunger.py:102-161 | fails exactly when CHR, BP, EA or NEA has no value; otherwise the output rows are exactly the output-column projections of the late-checked first row of each variant in the ranked order, each traced to an input row whose key cells it carries checked, sorted by (CHR, BP), one row per variant, with valid p-values of minimal p per variant and checked effects and frequencies |
| Pipeline.RankedRows | smunger/smunger.py:114-127 | the rows entering deduplication are, up to order, the key-checked, keyed and p-checked input rows; with neither P nor NEGLOGP they are exactly those rows in input order |
| Pipeline.PromiseVariants | smunger/smunger.py:105-130 | the output rows are canonical, sorted and pairwise different variants |
| Pipeline.PromiseColumns | smunger/smunger.py:75-78 | an output column the input populates neither itself nor through NEGLOGP, OR/ORSE or EAF is missing in every output row |
| Pipeline.DedupStage | smunger/smunger.py:102-130 | the deduplicated table holds exactly the supplied columns, with P present when P or NEGLOGP is supplied |
| Pipeline.PromisePvalue | smunger/smunger.py:118-130 | with P supplied, each output p-value is valid and minimal among the ranked rows of its variant |
| Pipeline.PromiseNeglogp | smunger/smunger.py:121-124 | with only NEGLOGP supplied, every output P is 10^-x for a value x above the minimum |
| Pipeline.PromiseEffects | smunger/smunger.py:137-148 | with BETA/SE or OR/ORSE supplied, every output row has a numeric BETA and a valid SE |
| Pipeline.PromiseFrequencies | smunger/smunger.py:155-159 | with EAF, MAF is the folded EAF; with EAF or MAF, every output MAF is valid |
| Pipeline.AbsentNull | smunger/smunger.py:75-78 | an output column that had no value in the input is missing in every output row |
| Harmonize.RightKept | smunger/smunger.py:351-354 | the second table's columns that survive are exactly those other than the key, CHR, BP, EA and NEA, without repeats |
| Harmonize.HarmonizedColsDistinct | smunger/smunger.py:347-362 | the renamed merged columns are pairwise distinct |
| Harmonize.LeftNameInjective | smunger/smunger.py:347 | first-side names with `_1` suffixes never collide |
| Harmonize.RightNameInjective | smunger/smunger.py:347 | second-side names with `_2` suffixes never collide |
| Harmonize.SidesApart | smunger/smunger.py:347 | no first-side name equals a second-side name |
| Harmonize.HarmonizedRow | smunger/smunger.py:347-362 | a merged row has exactly the harmonized columns |
| Harmonize.LeftCell | smunger/smunger.py:347-362 | each first-table column keeps its value under its final name |
| Harmonize.RightCell | smunger/smunger.py:347-350 | each kept second-table column holds its value, with BETA_2 negated when the effect alleles differ |
| Harmonize.MatchesSound | smunger/smunger.py:347 | every merged row comes from a pair with equal keys |
| Harmonize.MatchesComplete | smunger/smunger.py:347 | every pair with equal keys yields a merged row |
| Harmonize.JoinedSound | smunger/smunger.py:347 | the inner join emits only rows built from matching pairs |
| Harmonize.JoinedComplete | smunger/smunger.py:347 | the inner join emits a row for every matching pair |
| Harmonize.JoinedKeys | smunger/smunger.py:347 | every joined row carries the shared key |
| Harmonize.Merge | smunger/smunger.py:347-350 | the merge loop fails exactly when a matched second-table effect is text (unary minus raises), and otherwise computes the inner join |
| Harmonize.MergeRow | smunger/smunger.py:347-350 | one first-table row fails exactly when a matching second-table effect is text, and otherwise yields its matches in second-table order |
| Harmonize.Harmonize | smunger/smunger.py:343-363 | fails exactly when BETA is missing on a side or a matched effect is text; otherwise returns the keyed inner join with the harmonized columns |
| Harmonize.HarmonizedFrom | smunger/smunger.py:345-362 | every output row pairs a row of each table with the same variant key |
| Harmonize.AlignedEffect | smunger/smunger.py:348-350 | the second effect equals the original when EA_1 = EA_2 and its negation otherwise |
| Annotate.MinPos | smunger/annotate.py:26 | the minimum position of a group is attained and bounds every row's position from below |
| Annotate.MaxPos | smunger/annotate.py:26 | the maximum position of a group is attained and bounds every row's position from above |
| Annotate.StartsBounds | smunger/annotate.py:26 | every window start lies in [min, max), and different starts are at least one step apart |
| Annotate.StartsCover | smunger/annotate.py:26 | every position in [min, max) lies in the window of some start |
| Annotate.MultipleMod | smunger/annotate.py:26 | a span is a whole number of steps exactly when its remainder modulo the step is zero |
| Annotate.StartsReachEnd | smunger/annotate.py:26 | some window contains max exactly when (max - min) is not a whole number of steps |
| Annotate.StartsMissEnd | smunger/annotate.py:26 | when (max - min) is a whole number of steps, every window ends at or before max |
| Annotate.PositionCovered | smunger/annotate.py:26 | a position in [min, max] lies in some window exactly when it is below max or (max - min) is not a whole number of steps |
| Annotate.ScanMembers | smunger/annotate.py:26-29 | the emitted windows are exactly the non-empty ones, in order |
| Annotate.WindowOf | smunger/annotate.py:27 | a window holds exactly the group's rows with positions in [start, start + step) |
| Annotate.WindowRows | smunger/annotate.py:25-27 | a window's rows are group rows, in position order |
| Annotate.WindowsDisjoint | smunger/annotate.py:26-27 | no row lies in two windows |
| Annotate.RowInWindow | smunger/annotate.py:26-27 | a row whose position lies in the window of a start is emitted in some window |
| Annotate.EmitsIff | smunger/annotate.py:26-27 | a row is emitted exactly when its position lies in the window of some start |
| Annotate.RowCovered | smunger/annotate.py:26-27 | a row is emitted exactly when its position is below the maximum or (max - min) is not a whole number of steps |
| Annotate.SinglePositionSilent | smunger/annotate.py:26 | a group whose rows all share one position emits nothing |
| Annotate.InsertKey | smunger/annotate.py:24 | inserting a chromosome value keeps the keys increasing and adds it once |
| Annotate.ConsIncreasing | smunger/annotate.py:24 | a value below every key of an increasing sequence can be put in front of it |
| Annotate.ChromKeys | smunger/annotate.py:24 | the groups are the distinct numeric chromosome values, in ascending order |
| Annotate.GroupRows | smunger/annotate.py:24-25 | a group holds exactly the rows of its chromosome, sorted by position |
| Annotate.RegionOf | smunger/annotate.py:31 | a query asks for label `'1'` from start - 1 to start + step |
| Annotate.DedupMembers | smunger/annotate.py:33 | deduplicating by position keeps only input records at positions not yet seen |
| Annotate.DedupDistinct | smunger/annotate.py:33 | the deduplicated records have pairwise distinct positions |
| Annotate.DedupLookup | smunger/annotate.py:33 | looking up a position in the deduplicated records gives the rsID of its first record |
| Annotate.DedupKeepsFirst | smunger/annotate.py:33-35 | the position-indexed series is a function that returns the rsID of the first record at each position |
| Annotate.AnnotateRows | smunger/annotate.py:36 | each row's rsID is overwritten with the rsID at its position, or missing, and nothing else changes |
| Annotate.TabixStore.Query | smunger/annotate.py:31 | a query returns the index's records for its region and appends the region to the query log |
| Annotate.OutFile.Write | smunger/annotate.py:39-40 | the first write sets the header and replaces the body |
| Annotate.OutFile.Append | smunger/annotate.py:41-42 | later writes append rows and leave the header alone |
| Annotate.OutCols | smunger/annotate.py:36-40 | the written columns are the input columns and the rsID column, and exactly the input columns when the rsID column already exists |
| Annotate.Regions | smunger/annotate.py:30-31 | one query per emitted window, in order |
| Annotate.EmitWindow | smunger/annotate.py:27-42 | one non-empty window issues its query and writes its annotated rows, with a header when it is the first |
| Annotate.AnnotateGroup | smunger/annotate.py:26-42 | a group's windows are emitted in order, extending the log and the body accordingly |
| Annotate.ScanWindows | smunger/annotate.py:26-42 | the loop over the window starts emits exactly the non-empty windows of those starts, in order |
| Annotate.AnnotateChunk | smunger/annotate.py:24-42 | a read chunk's groups are emitted in chromosome order |
| Annotate.AnnotateRsid | smunger/annotate.py:11-42 | the queries are exactly those of the non-empty windows; the file has the header once and every emitted row, annotated; with no window the file is untouched |
| DbSnp.ContigName | build_dbsnp_tabix.py:30-33 | the k-th of the first 24 listed contigs maps to chromosome 1..22, X, Y, and other contigs to nothing |
| DbSnp.Located | build_dbsnp_tabix.py:44-47 | a record survives exactly when its contig is listed and all fields are present, and then its chromosome is renamed |
| DbSnp.KeptMember | build_dbsnp_tabix.py:44-47 | a kept row comes from a located record, and every located record is kept |
| DbSnp.Taken | build_dbsnp_tabix.py:35-50 | the chunks processed before the loop breaks, no more than there are |
| DbSnp.TakenShape | build_dbsnp_tabix.py:47-50 | the processed chunks are a prefix, each with some kept record, and the next chunk keeps nothing |
| DbSnp.TakenIsPrefix | build_dbsnp_tabix.py:35-59 | the rows written are the kept records of that prefix of the input |
| DbSnp.NoStopKeepsAll | build_dbsnp_tabix.py:44-50 | when no chunk is wholly dropped, every located record is written |
| DbSnp.Snp2PosOf | build_dbsnp_tabix.py:53-63 | the rsID field is the ID without its two-character prefix and the first field is that field's first character; chromosome, position and alleles are copied |
| DbSnp.Snp2PosRows | build_dbsnp_tabix.py:53-63 | one rsID-to-position row per written record, in order |
| DbSnp.KeyLeTotal | build_dbsnp_tabix.py:67 | the sort order (field 1, then field 2 numerically) is total |
| DbSnp.KeyLeTransitive | build_dbsnp_tabix.py:67 | the sort order is transitive |
| DbSnp.InsertByKey | build_dbsnp_tabix.py:67 | inserting into a sorted table keeps it sorted and adds the row once |
| DbSnp.SortSnp2Pos | build_dbsnp_tabix.py:67 | the sorted table is ordered by the key and is a permutation of the unsorted one |
| DbSnp.LineFor | build_dbsnp_tabix.py:82-85 | a merged line's first field is the first character of its rsID |
| DbSnp.MergeLinesFacts | build_dbsnp_tabix.py:83-85 | the dbSNP1 loop writes one line per merged id, all pointing at the target |
| DbSnp.ObjectLinesLength | build_dbsnp_tabix.py:81-85 | one object writes (1 + number of dbSNP1 merges) lines per target |
| DbSnp.ObjectLinesSound | build_dbsnp_tabix.py:81-85 | every line of an object names the object or one of its dbSNP1 merges and one of its targets |
| DbSnp.ObjectLinesComplete | build_dbsnp_tabix.py:81-85 | every (id, target) combination of an object is written |
| DbSnp.MergedLinesCount | build_dbsnp_tabix.py:78-85 | the merged file has exactly the sum of the objects' line counts |
| DbSnp.MergedLinesContent | build_dbsnp_tabix.py:78-85 | a line is written exactly when some object has its target and its id is the object's or a dbSNP1 merge |
| DbSnp.ReferenceFiles.constructor | build_dbsnp_tabix.py:57-63 | the files start with the given contents |
| DbSnp.ReferenceFiles.AppendChunk | build_dbsnp_tabix.py:57-63 | a chunk appends its rows to both tables and leaves the merged file alone |
| DbSnp.ReferenceFiles.OpenMerged | build_dbsnp_tabix.py:76 | opening the merged file for writing empties it |
| DbSnp.ReferenceFiles.WriteMerged | build_dbsnp_tabix.py:82-85 | one write appends one line |
| DbSnp.BuildTables | build_dbsnp_tabix.py:35-67 | both tables get exactly the kept records of the processed prefix, and the returned table is that rsID-to-position table sorted |
| DbSnp.WriteChunks | build_dbsnp_tabix.py:35-63 | the chunk loop writes the taken chunks and stops at the first wholly dropped one |
| DbSnp.AppendKept | build_dbsnp_tabix.py:57-63 | one chunk's kept rows go to both files in order |
| DbSnp.BuildMerged | build_dbsnp_tabix.py:76-85 | the merged file holds exactly the merged lines of all objects, in order |
| DbSnp.WriteObject | build_dbsnp_tabix.py:79-85 | one object's lines are appended in order |
| DbSnp.WriteTarget | build_dbsnp_tabix.py:81-85 | one target's lines are appended in order |
| MapHeader.GuessedFacts | smunger/mapheader.py:113-115 | the guessed raw columns are distinct and are exactly the frame columns known to the lookup table |
| MapHeader.GuessColnames | smunger/mapheader.py:109-116 | the guess maps exactly the known frame columns, each to its table spelling, remembering first appearance |
| MapHeader.MissingColnames | smunger/mapheader.py:53 | an output column is missing exactly when no raw column is mapped to it |
| MapHeader.GuessMissing | smunger/mapheader.py:109-116 | after guessing, an output column is missing exactly when no frame column is a table spelling of it |
| MapHeader.InverseMap | smunger/mapheader.py:68 | the inverse has exactly the guessed names, and each goes to the last raw column guessed as it |

## Left out

- `smunger/io.py`, `smunger/liftover.py`, `smunger/plots.py`, `smunger/cli.py`, `smunger/config.py` and `calculate_lambda` are not part of this model. They cover file formats, coordinate liftover, plotting, the command line and genomic inflation, which use floating-point statistics.
- Reading and writing text files is modelled as sequences of rows and cells: delimiter handling, gzip/bz2/JSON decoding, CSV text formatting and the counting of `##` header lines are left out.
- External programs (`bcftools`, `tabix -l`, `sort`, `bgzip`, `tabix`, `rm`) are parameters or left out. The contig list of `tabix -l` is an input of `DbSnp.ContigName`, and the index of `tabix.open` is the record list of `Annotate.TabixStore`.
- `display_df` and `map_colnames` are left out apart from the missing-column set and the inverse map. They draw rich tables and ask interactive questions.
- Logging is left out.
- Floating point is modelled by exact reals, and parsing text to numbers, float text and `10 ** -x` are the parameters in `Validate.Numerics`.
- `COMMON_COLNAMES` is a parameter of `MapHeader.GuessColnames`, not its literal contents.
- An odds ratio of zero makes the source's SE infinite, which `munge_se` then keeps. The model represents it as a missing SE, which `munge_se` drops.
- `Frame.SortRows`: a stable insertion sort, whereas pandas' default quicksort is not stable. Its own contract claims only a sorted permutation, but the two contracts below build on it and so break ties between equal keys in input order.
- Pipeline.Munge: `Emitted` takes the first row of each SNPID after the stable sort by P (smunger.py:120, :124), so among rows of one variant with equal P the earlier input row is the one kept. pandas' quicksort leaves that order unspecified, so the source may keep another row of equal P.
- Annotate.AnnotateRsid: the written body lists rows of equal position within a window in input order, from the stable sort by position (annotate.py:25). pandas' quicksort leaves that order unspecified.
- `Harmonize.Harmonize`: requires both tables to have column names that do not already end in `_1`/`_2`, and text allele cells, as `Mergeable` states. The row order of the inner merge follows pandas' documented rule that an inner join preserves the order of the first table's keys; ordering the matching second-table rows of one first-table row in second-table order is a modelling choice. A missing cell (`Null`) stands for NaN, which negates to NaN; a second-table BETA column holding Python `None` as objects makes `-merged['BETA_2']` (smunger.py:348-350) raise a TypeError, which is not modelled.
- Validate.MungeBp: applies the corrected position check `Validate.BpCell`. As written (`Validate.BpCellAsWritten`), a position in (0, 1) passes and is stored as 0.
- Validate.MungeBpIdempotent: holds for the corrected position check only. As written, 0.5 becomes 0, which a second run drops.
- Validate.MungeAllele: applies the corrected allele check `Validate.AlleleCell`. As written (`Validate.AlleleCellAsWritten`), an allele with a final newline passes.
- Validate.AlleleSpec: states valid alleles for the corrected allele check only.
- Validate.AlleleSound: traces output alleles to valid input alleles for the corrected allele check only.
- Stages.Validated: applies the corrected position and allele checks, so its guarantees on positions and alleles are those of the corrected code.
- Pipeline.Munge: applies the corrected position and allele checks; its guarantees on positions and alleles do not hold for the code as written.
- SnpId.Render: prints an integral number as integer text. The validators store integers, but a float column would print as `7.0` in pandas.
- Text.Upper: upper-cases ASCII letters only. Python's `str.upper()` also maps other letters, which are not alleles either way.
- Reshape.ExtractCols: requires, through `RenameIsClean`, that no two present raw columns map to one target and that no target name is already a column the map leaves alone. Either case gives the renamed frame duplicate column labels, on which `outdf[col].isnull().all()` in `rm_col_allna` (smunger.py:86) raises ValueError; that error path is not modelled. A header guess that finds both `P` and `pval` produces the first case.
- `SnpId.MakeSnpIdUnique`: requires the allele cells to be text, because numpy's sort of mixed text and numbers raises; validation guarantees this within `munge`.
- `Annotate.AnnotateRsid`: requires numeric chromosome cells, integral positions and a positive window size. `range` rejects non-integers and a zero step, and `groupby` on mixed types is left out.
- DbSnp.ContigName: requires, through `ContigIndex`, at least 24 contigs from `tabix -l` with no repeat among the first 24, and so do `Located`, `Kept`, `Taken`, `BuildTables` and `WriteChunks`. With fewer contigs, `pd.Series` with 24 values raises ValueError (build_dbsnp_tabix.py:30-33). With a repeated contig, `Series.map` raises on the non-unique index (build_dbsnp_tabix.py:44). Neither error path is modelled.
- `DbSnp.BuildTables`: requires every located record's ID to have at least three characters, including records after the stop. The source raises an IndexError on shorter IDs.
- `DbSnp.BuildMerged`: requires non-empty ids wherever a line is written, because the source raises an IndexError on `id[0]` of an empty id.
- `DbSnp.SortSnp2Pos`: models `sort -k1,1 -k2,2n` with the first field compared by code point (C locale) and the second by its leading digits. GNU sort's locale collation and its last-resort whole-line comparison of ties are left out, so the order of ties is not claimed.
- When a builder chunk has a missing POS, pandas writes positions as floats. That rendering is left out; positions are integers.
- The empty text is turned into a missing cell once, by `rm_col_allna`, for all columns.

## Findings

| source | as written | input that shows it | evidently intended | confidence | as-written member | corrected member |
|---|---|---|---|---|---|---|
| smunger/smunger.py:196-199 | the position bounds `(0, 3e8)` are tested on the parsed number, and only then is the column cast with `astype(int)` | a BP of 0.5 passes the test and is stored as 0, which lies outside the bounds | positions stored strictly inside the bounds, so the test applies to the integer that is kept | not executed | Validate.BpAsWrittenStoresZero | Validate.BpCell |
| smunger/smunger.py:212 | alleles are matched with `re.match(r"^[ACGT]+$", ...)`, and Python's `$` also matches before a final newline | `"a\n"` is accepted and kept as `"A\n"` | only texts made of A, C, G and T are accepted | not executed | Validate.AlleleAsWrittenAcceptsNewline | Validate.AlleleCell |
