/** Canonical column names and the validity bounds the validators apply.
    The validators read the bounds and the names SNPID and NEGLOGP from the
    constants module, but that module does not define them, so the model fixes
    them here: chromosome 1..23 with 23 for X, position below 3e8, p-value in
    (0, 1), frequencies in [0, 1] and minor-allele frequency in [0, 0.5]. */
module Columns {

  const CHR := "CHR"
  const BP := "BP"
  const RSID := "rsID"
  const EA := "EA"
  const NEA := "NEA"
  const P := "P"
  const BETA := "BETA"
  const OR := "OR"
  const ORSE := "ORSE"
  const SE := "SE"
  const EAF := "EAF"
  const MAF := "MAF"
  const Z := "Z"
  const SNPID := "SNPID"
  const NEGLOGP := "NEGLOGP"

  /** The canonical output columns, in output order. */
  const OUTCOLS: seq<string> := [CHR, BP, RSID, EA, NEA, EAF, MAF, BETA, SE, P]

  const CHR_MIN: real := 1.0
  const CHR_MAX: real := 23.0
  const BP_MIN: real := 0.0
  const BP_MAX: real := 300000000.0
  const P_MIN: real := 0.0
  const P_MAX: real := 1.0
  const NEGLOGP_MIN: real := 0.0
  const SE_MIN: real := 0.0
  const ORSE_MIN: real := 0.0
  const EAF_MIN: real := 0.0
  const EAF_MAX: real := 1.0
  const MAF_MIN: real := 0.0
  const MAF_MAX: real := 0.5

  /** The chromosome number that "X" stands for. */
  const CHR_X: real := 23.0
}
