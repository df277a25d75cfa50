/** The population state: one record per species, and the interaction matrix. */
module Population {

  /** One species. `p` is the current population; `r` the intrinsic growth rate;
      `K` the baseline carrying capacity; `A` the amplitude of the seasonal
      modulation of that capacity. `name` only labels the record. */
  datatype Species = Species(name: string, r: real, p: int, K: real, A: real)

  /** `alpha[i][j]` is the effect of species `j` on the growth of species `i`. */
  type Matrix = seq<seq<real>>

  /** What every computation over the state relies on: a square matrix with one
      row and one column per species, a positive baseline capacity, and a
      seasonal amplitude small enough that the seasonal capacity stays positive. */
  ghost predicate WellFormed(sps: seq<Species>, alpha: Matrix)
  {
    && |alpha| == |sps|
    && (forall i :: 0 <= i < |alpha| ==> |alpha[i]| == |sps|)
    && (forall i :: 0 <= i < |sps| ==> sps[i].K > 0.0 && -1.0 < sps[i].A < 1.0)
  }

  /** The built-in preset of four species: acorn, boar, wolf, human. */
  function DefaultSpecies(): (d: seq<Species>)
    ensures |d| == 4
    ensures forall i :: 0 <= i < |d| ==> d[i].p > 0 && d[i].r > 0.0 && d[i].K > 0.0 && 0.0 < d[i].A < 1.0
    ensures forall i :: 0 <= i < |d| ==> d[i].p as real < d[i].K
  {
    [ Species("acorn", 0.015, 31300, 122000.0, 0.1),
      Species("boar", 0.5, 300, 6000.0, 0.1),
      Species("wolf", 0.4, 4, 12.0, 0.15),
      Species("human", 0.106, 1900, 2500.0, 0.05) ]
  }

  /** The built-in interaction matrix, rows and columns ordered as in DefaultSpecies. */
  function DefaultAlpha(): (m: Matrix)
    ensures |m| == 4 && forall i :: 0 <= i < 4 ==> |m[i]| == 4
    ensures forall i :: 0 <= i < 4 ==> m[i][i] == 0.0
    ensures forall j :: 0 <= j < 4 ==> m[3][j] == 0.0  // nothing affects humans
  {
    [ [0.0, -0.1, 0.0, -0.1],
      [0.0, 0.0, -1.0, -0.9],
      [0.0, 0.0, 0.0, 0.00039],
      [0.0, 0.0, 0.0, 0.0] ]
  }

  /** The preset species and matrix together satisfy every requirement of the state. */
  lemma DefaultsWellFormed()
    ensures WellFormed(DefaultSpecies(), DefaultAlpha())
  {
  }
}
