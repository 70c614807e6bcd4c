/**
 * The zygosity rule shared by lib/compare_pileup.rb and lib/poly_vcf.rb:
 * an allele fraction inside the inclusive heterozygous band is `:het`,
 * one above the band is `:hom`, and one below it is the empty string.
 */
module Zygosity {

  /** `:het`, `:hom` and the empty-string mode `''`. */
  datatype Mode = Het | Hom | NoMode

  /** `ratio.between?(low, high)` gives het, `ratio > high` gives hom, otherwise `''`. */
  function VarMode(ratio: real, low: real, high: real): (m: Mode)
    ensures m == Het <==> low <= ratio <= high
    ensures m == Hom <==> ratio > high
    ensures m == NoMode <==> ratio < low && ratio <= high
  {
    if low <= ratio <= high then Het
    else if ratio > high then Hom
    else NoMode
  }

  /** The modes in increasing allele fraction: `''`, het, hom. */
  function Rank(m: Mode): nat {
    match m
    case NoMode => 0
    case Het => 1
    case Hom => 2
  }

  /** With a well-formed band, a larger fraction never gets a lower mode. */
  lemma VarModeMonotone(r1: real, r2: real, low: real, high: real)
    requires low <= high && r1 <= r2
    ensures Rank(VarMode(r1, low, high)) <= Rank(VarMode(r2, low, high))
  {
  }
}
