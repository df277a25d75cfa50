/** The order in which one step updates the species.

    The simulator walks the species by index and overwrites each population as
    soon as it is computed, so species `i` is grown from a state in which the
    species before it already hold their new populations and the species after
    it still hold their old ones. */
module StepOrder {
  import opened Population
  import opened Growth

  /** The species after the first `k` of them, in index order, have been
      updated in place with the seasonal value `s`. */
  function Sweep(sps: seq<Species>, alpha: Matrix, s: real, k: nat): (out: seq<Species>)
    requires WellFormed(sps, alpha) && k <= |sps| && -1.0 <= s <= 1.0
    ensures |out| == |sps| && WellFormed(out, alpha)
    ensures forall j :: 0 <= j < |sps| ==> out[j] == sps[j].(p := out[j].p)
    decreases k
  {
    if k == 0 then sps
    else
      var prev := Sweep(sps, alpha, s, k - 1);
      prev[k - 1 := prev[k - 1].(p := NextPopulation(prev, alpha, k - 1, s))]
  }

  /** One whole step: every species updated in index order. */
  function StepAll(sps: seq<Species>, alpha: Matrix, s: real): (out: seq<Species>)
    requires WellFormed(sps, alpha) && -1.0 <= s <= 1.0
    ensures |out| == |sps| && WellFormed(out, alpha)
    ensures forall j :: 0 <= j < |sps| ==> out[j] == sps[j].(p := out[j].p)
  {
    Sweep(sps, alpha, s, |sps|)
  }

  /** The alternative order, in which every species is grown from the pre-step
      populations. The simulator does not update this way; the function is a
      reference against which the in-place order is compared. */
  function SnapshotStep(sps: seq<Species>, alpha: Matrix, s: real): (out: seq<Species>)
    requires WellFormed(sps, alpha) && -1.0 <= s <= 1.0
    ensures |out| == |sps| && WellFormed(out, alpha)
    ensures forall j :: 0 <= j < |sps| ==> out[j].p >= 0 && out[j] == sps[j].(p := out[j].p)
  {
    seq(|sps|, j requires 0 <= j < |sps| => sps[j].(p := NextPopulation(sps, alpha, j, s)))
  }

  /** `n` consecutive steps from clock `t`, each using the seasonal value of
      the clock at its start. */
  function Run(sps: seq<Species>, alpha: Matrix, season: Season, t: int, n: nat): (out: seq<Species>)
    requires WellFormed(sps, alpha)
    ensures |out| == |sps| && WellFormed(out, alpha)
    decreases n
  {
    if n == 0 then sps
    else Run(StepAll(sps, alpha, season(t)), alpha, season, t + 1, n - 1)
  }

  /** After `k` updates, every species `j >= k` is still untouched. */
  lemma {:induction false} SweepUntouched(sps: seq<Species>, alpha: Matrix, s: real, k: nat, j: nat)
    requires WellFormed(sps, alpha) && k <= j < |sps| && -1.0 <= s <= 1.0
    ensures Sweep(sps, alpha, s, k)[j] == sps[j]
  {
    if k > 0 {
      SweepUntouched(sps, alpha, s, k - 1, j);
    }
  }

  /** After `k` updates, species `j < k` holds the value computed for it from
      the state reached just before its turn; later updates do not touch it. */
  lemma {:induction false} SweepUpdated(sps: seq<Species>, alpha: Matrix, s: real, k: nat, j: nat)
    requires WellFormed(sps, alpha) && j < k <= |sps| && -1.0 <= s <= 1.0
    ensures Sweep(sps, alpha, s, k)[j].p == NextPopulation(Sweep(sps, alpha, s, j), alpha, j, s)
  {
    if j != k - 1 {
      SweepUpdated(sps, alpha, s, k - 1, j);
    }
  }

  /** Every species already visited holds a non-negative population. */
  lemma SweepNonNegative(sps: seq<Species>, alpha: Matrix, s: real, k: nat, j: nat)
    requires WellFormed(sps, alpha) && k <= |sps| && -1.0 <= s <= 1.0
    requires j < k
    ensures Sweep(sps, alpha, s, k)[j].p >= 0
  {
    SweepUpdated(sps, alpha, s, k, j);
  }

  /** The state species `k` is grown from is the finished step's values for the
      species before it followed by the pre-step values of the rest. */
  lemma SweepIsMixedState(sps: seq<Species>, alpha: Matrix, s: real, k: nat)
    requires WellFormed(sps, alpha) && k <= |sps| && -1.0 <= s <= 1.0
    ensures Sweep(sps, alpha, s, k) == StepAll(sps, alpha, s)[..k] + sps[k..]
  {
    var mid, out := Sweep(sps, alpha, s, k), StepAll(sps, alpha, s);
    forall j | 0 <= j < |sps|
      ensures mid[j] == (out[..k] + sps[k..])[j]
    {
      if j < k {
        SweepUpdated(sps, alpha, s, k, j);
        SweepUpdated(sps, alpha, s, |sps|, j);
      } else {
        SweepUntouched(sps, alpha, s, k, j);
      }
    }
  }

  /** Species `i` sees the new populations of the species before it and the old
      populations of itself and the species after it. */
  lemma StepSeesMixedState(sps: seq<Species>, alpha: Matrix, s: real, i: nat)
    requires WellFormed(sps, alpha) && i < |sps| && -1.0 <= s <= 1.0
    ensures var out := StepAll(sps, alpha, s);
      WellFormed(out[..i] + sps[i..], alpha) &&
      out[i].p == NextPopulation(out[..i] + sps[i..], alpha, i, s)
  {
    SweepUpdated(sps, alpha, s, |sps|, i);
    SweepIsMixedState(sps, alpha, s, i);
  }

  /** A whole step leaves every population non-negative, keeps the number of
      species, and changes nothing in a record but its population. */
  lemma StepShape(sps: seq<Species>, alpha: Matrix, s: real)
    requires WellFormed(sps, alpha) && -1.0 <= s <= 1.0
    ensures var out := StepAll(sps, alpha, s);
      |out| == |sps| && WellFormed(out, alpha) &&
      forall j :: 0 <= j < |out| ==> out[j].p >= 0 && out[j] == sps[j].(p := out[j].p)
  {
    forall j | 0 <= j < |sps|
      ensures StepAll(sps, alpha, s)[j].p >= 0
    {
      SweepNonNegative(sps, alpha, s, |sps|, j);
    }
  }

  /** Extinction is absorbing over a whole step. */
  lemma StepExtinct(sps: seq<Species>, alpha: Matrix, s: real, i: nat)
    requires WellFormed(sps, alpha) && i < |sps| && -1.0 <= s <= 1.0
    requires sps[i].p == 0
    ensures StepAll(sps, alpha, s)[i].p == 0
  {
    SweepUpdated(sps, alpha, s, |sps|, i);
    SweepUntouched(sps, alpha, s, i, i);
    NextPopulationExtinct(Sweep(sps, alpha, s, i), alpha, i, s);
  }

  /** Running `n + 1` steps is running `n` steps and then one more step at the
      clock reached after the first `n`. */
  lemma {:induction false} RunLast(sps: seq<Species>, alpha: Matrix, season: Season, t: int, n: nat)
    requires WellFormed(sps, alpha)
    ensures Run(sps, alpha, season, t, n + 1) == StepAll(Run(sps, alpha, season, t, n), alpha, season(t + n))
    decreases n
  {
    if n > 0 {
      RunLast(StepAll(sps, alpha, season(t)), alpha, season, t + 1, n - 1);
    }
  }

  /** Once extinct, a species stays extinct for any number of steps. */
  lemma {:induction false} RunExtinct(sps: seq<Species>, alpha: Matrix, season: Season, t: int, n: nat, i: nat)
    requires WellFormed(sps, alpha) && i < |sps| && sps[i].p == 0
    ensures Run(sps, alpha, season, t, n)[i].p == 0
    decreases n
  {
    if n > 0 {
      StepExtinct(sps, alpha, season(t), i);
      RunExtinct(StepAll(sps, alpha, season(t)), alpha, season, t + 1, n - 1, i);
    }
  }

  /** When no species is affected by a species of lower index (the matrix is
      zero below the diagonal), the in-place order gives the same result as
      growing every species from the pre-step populations. */
  lemma StepMatchesSnapshotWhenUpperTriangular(sps: seq<Species>, alpha: Matrix, s: real)
    requires WellFormed(sps, alpha) && -1.0 <= s <= 1.0
    requires forall i, j :: 0 <= j < i < |sps| ==> alpha[i][j] == 0.0
    ensures StepAll(sps, alpha, s) == SnapshotStep(sps, alpha, s)
  {
    var out, snap := StepAll(sps, alpha, s), SnapshotStep(sps, alpha, s);
    forall i | 0 <= i < |sps|
      ensures out[i] == snap[i]
    {
      var mid := Sweep(sps, alpha, s, i);
      SweepUpdated(sps, alpha, s, |sps|, i);
      SweepUntouched(sps, alpha, s, i, i);
      forall j | 0 <= j < |sps| && j != i && alpha[i][j] != 0.0
        ensures mid[j].p == sps[j].p
      {
        SweepUntouched(sps, alpha, s, i, j);
      }
      NextPopulationFrame(sps, mid, alpha, i, s);
    }
  }

  /** The built-in matrix is zero below the diagonal, so for the built-in preset
      the in-place order and the pre-step order agree. */
  lemma DefaultStepMatchesSnapshot(sps: seq<Species>, s: real)
    requires |sps| == 4 && WellFormed(sps, DefaultAlpha()) && -1.0 <= s <= 1.0
    ensures StepAll(sps, DefaultAlpha(), s) == SnapshotStep(sps, DefaultAlpha(), s)
  {
    StepMatchesSnapshotWhenUpperTriangular(sps, DefaultAlpha(), s);
  }

  /** Below-diagonal coefficients make the order visible: species 1 is driven
      by species 0, which grows from 10 to 15 first, so species 1 reaches 25
      instead of the 20 the pre-step order gives. */
  lemma InPlaceOrderDiffersFromSnapshot(s: real)
    requires -1.0 <= s <= 1.0
    ensures var sps := [Species("a", 1.0, 10, 20.0, 0.0), Species("b", 0.0, 10, 10.0, 0.0)];
      var alpha := [[0.0, 0.0], [1.0, 0.0]];
      && WellFormed(sps, alpha)
      && StepAll(sps, alpha, s)[1].p == 25
      && SnapshotStep(sps, alpha, s)[1].p == 20
  {
    var sps := [Species("a", 1.0, 10, 20.0, 0.0), Species("b", 0.0, 10, 10.0, 0.0)];
    var alpha := [[0.0, 0.0], [1.0, 0.0]];
    assert InteractionSum(sps, alpha[0], 0, 2) == 0.0;
    assert NextPopulation(sps, alpha, 0, s) == 15;
    var mid := Sweep(sps, alpha, s, 1);
    assert mid == [sps[0].(p := 15), sps[1]];
    assert InteractionSum(mid, alpha[1], 1, 2) == 15.0;
    assert NextPopulation(mid, alpha, 1, s) == 25;
    assert InteractionSum(sps, alpha[1], 1, 2) == 10.0;
    assert NextPopulation(sps, alpha, 1, s) == 20;
  }

  /** A zero coefficient from `j` to `i` does not make `i` independent of `j`
      over a whole step: here species 2 has no coefficient for species 0, yet
      raising species 0 from 10 to 20 raises species 2's new population from 30
      to 40, through species 1, which is updated before species 2. */
  lemma InPlaceStepCouplesIndirectly(s: real)
    requires -1.0 <= s <= 1.0
    ensures var alpha := [[0.0, 0.0, 0.0], [1.0, 0.0, 0.0], [0.0, 1.0, 0.0]];
      var rest := [Species("b", 0.0, 10, 10.0, 0.0), Species("c", 0.0, 10, 10.0, 0.0)];
      var low := [Species("a", 0.0, 10, 10.0, 0.0)] + rest;
      var high := [Species("a", 0.0, 20, 10.0, 0.0)] + rest;
      && alpha[2][0] == 0.0
      && WellFormed(low, alpha) && WellFormed(high, alpha)
      && StepAll(low, alpha, s)[2].p == 30
      && StepAll(high, alpha, s)[2].p == 40
  {
    var alpha := [[0.0, 0.0, 0.0], [1.0, 0.0, 0.0], [0.0, 1.0, 0.0]];
    var rest := [Species("b", 0.0, 10, 10.0, 0.0), Species("c", 0.0, 10, 10.0, 0.0)];
    ThreeChain(alpha, [Species("a", 0.0, 10, 10.0, 0.0)] + rest, s, 10);
    ThreeChain(alpha, [Species("a", 0.0, 20, 10.0, 0.0)] + rest, s, 20);
  }

  /** The chain a -> b -> c of InPlaceStepCouplesIndirectly, for a population
      `x` of a: b becomes 10 + x, then c becomes 20 + x. */
  lemma ThreeChain(alpha: Matrix, sps: seq<Species>, s: real, x: int)
    requires -1.0 <= s <= 1.0 && 0 < x <= 100
    requires alpha == [[0.0, 0.0, 0.0], [1.0, 0.0, 0.0], [0.0, 1.0, 0.0]]
    requires sps == [Species("a", 0.0, x, 10.0, 0.0), Species("b", 0.0, 10, 10.0, 0.0), Species("c", 0.0, 10, 10.0, 0.0)]
    ensures WellFormed(sps, alpha) && StepAll(sps, alpha, s)[2].p == 20 + x
  {
    assert WellFormed(sps, alpha);
    assert InteractionSum(sps, alpha[0], 0, 3) == 0.0;
    assert NextPopulation(sps, alpha, 0, s) == x;
    var s1 := Sweep(sps, alpha, s, 1);
    assert s1 == sps;
    assert InteractionSum(s1, alpha[1], 1, 3) == x as real;
    assert NextPopulation(s1, alpha, 1, s) == 10 + x;
    var s2 := Sweep(sps, alpha, s, 2);
    assert s2 == [sps[0], sps[1].(p := 10 + x), sps[2]];
    assert InteractionSum(s2, alpha[2], 2, 3) == (10 + x) as real;
    assert NextPopulation(s2, alpha, 2, s) == 20 + x;
  }
}
