/** The growth law of one species over one step: a logistic increment against a
    seasonally scaled capacity, plus the truncated sum of the effects of the
    other species, truncated and clamped to a non-negative count.

    The seasonal value `s` stands for sin(pi/4 * t) at the current clock `t`; the
    model knows of it only that it lies in [-1, 1]. */
module Growth {
  import opened Truncation
  import opened Population

  /** The seasonal forcing as a function of the clock: sin(pi/4 * t) in the
      simulator, of which the model keeps only that it lies in [-1, 1]. */
  type Season = f: int -> real | forall t :: -1.0 <= f(t) <= 1.0 witness (t: int) => 0.0

  /** The seasonal carrying capacity K * (1 + A * s). */
  function Capacity(K: real, A: real, s: real): (c: real)
    requires K > 0.0 && -1.0 < A < 1.0 && -1.0 <= s <= 1.0
    ensures c > 0.0
    ensures A == 0.0 || s == 0.0 ==> c == K
  {
    SeasonalFactorPositive(A, s);
    K * (1.0 + A * s)
  }

  /** |A * s| < 1, so 1 + A * s is positive. */
  lemma SeasonalFactorPositive(A: real, s: real)
    requires -1.0 < A < 1.0 && -1.0 <= s <= 1.0
    ensures 1.0 + A * s > 0.0
  {
    if A >= 0.0 {
      assert A * s >= A * -1.0;
    } else {
      assert A * s >= A * 1.0;
    }
  }

  /** The logistic step p + p * r * (1 - p / cap). */
  function Logistic(p: int, r: real, cap: real): (q: real)
    requires cap > 0.0
    ensures p == 0 ==> q == 0.0
    ensures p as real == cap ==> q == cap
    ensures 0 < p && p as real < cap && r > 0.0 ==> q > p as real
    ensures p as real > cap && r > 0.0 ==> q < p as real
  {
    var x := p as real;
    GrowthSign(x, r, cap);
    x + x * r * (1.0 - x / cap)
  }

  /** The sign of the logistic increment: positive below capacity, negative above it. */
  lemma GrowthSign(x: real, r: real, cap: real)
    requires cap > 0.0
    ensures 0.0 < x < cap && r > 0.0 ==> x * r * (1.0 - x / cap) > 0.0
    ensures x > cap && r > 0.0 ==> x * r * (1.0 - x / cap) < 0.0
  {
    if r > 0.0 && x > 0.0 {
      var d := 1.0 - x / cap;
      assert x < cap ==> x / cap < 1.0;
      assert x > cap ==> x / cap > 1.0;
      assert x * r > 0.0;
      assert d > 0.0 ==> (x * r) * d > 0.0;
      assert d < 0.0 ==> (x * r) * d < 0.0;
    }
  }

  /** The effect of species `j` on species `i`: p_j * alpha[i][j] * p_i / K_i. */
  function Effect(sps: seq<Species>, row: seq<real>, i: nat, j: nat): (e: real)
    requires i < |sps| && j < |sps| && |row| == |sps| && sps[i].K > 0.0
    ensures row[j] == 0.0 || sps[i].p == 0 || sps[j].p == 0 ==> e == 0.0
    ensures sps[i].p >= 0 && sps[j].p >= 0 && row[j] >= 0.0 ==> e >= 0.0
    ensures sps[i].p >= 0 && sps[j].p >= 0 && row[j] <= 0.0 ==> e <= 0.0
  {
    EffectSign(sps[j].p as real, row[j], sps[i].p as real, sps[i].K);
    sps[j].p as real * row[j] * sps[i].p as real / sps[i].K
  }

  /** The sign of a product of two non-negative populations and a coefficient,
      over a positive capacity, is the sign of the coefficient. */
  lemma EffectSign(x: real, c: real, y: real, K: real)
    requires K > 0.0
    ensures x >= 0.0 && y >= 0.0 && c >= 0.0 ==> x * c * y / K >= 0.0
    ensures x >= 0.0 && y >= 0.0 && c <= 0.0 ==> x * c * y / K <= 0.0
  {
    if x < 0.0 || y < 0.0 {
    } else if c >= 0.0 {
      assert x * c >= 0.0;
      assert x * c * y >= 0.0;
    } else {
      assert x * c <= 0.0;
      assert x * c * y <= 0.0;
    }
  }

  /** All populations are non-negative. */
  ghost predicate NonNegative(sps: seq<Species>)
  {
    forall k :: 0 <= k < |sps| ==> sps[k].p >= 0
  }

  /** The sum of the effects on species `i` of the species with index below `n`,
      leaving out `i` itself. With non-negative populations, a row of benefits
      gives a non-negative sum and a row of pressures a non-positive one. */
  function InteractionSum(sps: seq<Species>, row: seq<real>, i: nat, n: nat): (r: real)
    requires i < |sps| && n <= |sps| && |row| == |sps| && sps[i].K > 0.0
    ensures NonNegative(sps) && (forall k :: 0 <= k < |row| ==> row[k] >= 0.0) ==> r >= 0.0
    ensures NonNegative(sps) && (forall k :: 0 <= k < |row| ==> row[k] <= 0.0) ==> r <= 0.0
    decreases n
  {
    if n == 0 then 0.0
    else InteractionSum(sps, row, i, n - 1) + (if n - 1 != i then Effect(sps, row, i, n - 1) else 0.0)
  }

  /** The interaction term species `i` receives: the sum over all other species,
      truncated toward zero. */
  function InteractionTerm(sps: seq<Species>, row: seq<real>, i: nat): (a: int)
    requires i < |sps| && |row| == |sps| && sps[i].K > 0.0
    ensures a == 0 <==> -1.0 < InteractionSum(sps, row, i, |sps|) < 1.0
    ensures InteractionSum(sps, row, i, |sps|) >= 0.0 ==> a >= 0
    ensures InteractionSum(sps, row, i, |sps|) <= 0.0 ==> a <= 0
  {
    Trunc(InteractionSum(sps, row, i, |sps|))
  }

  /** The population species `i` has after its update, computed from the
      populations in `sps`. */
  function NextPopulation(sps: seq<Species>, alpha: Matrix, i: nat, s: real): (q: int)
    requires WellFormed(sps, alpha) && i < |sps| && -1.0 <= s <= 1.0
    ensures q >= 0
  {
    var sp := sps[i];
    Clamp(Logistic(sp.p, sp.r, Capacity(sp.K, sp.A, s)) + InteractionTerm(sps, alpha[i], i) as real)
  }

  // ---------------------------------------------------------------------------
  // The interaction sum

  /** The sum never reads the diagonal entry `row[i]`. */
  lemma {:induction false} InteractionSumIgnoresDiagonal(sps: seq<Species>, row: seq<real>, i: nat, n: nat, x: real)
    requires i < |sps| && n <= |sps| && |row| == |sps| && sps[i].K > 0.0
    ensures InteractionSum(sps, row[i := x], i, n) == InteractionSum(sps, row, i, n)
  {
    if n > 0 {
      InteractionSumIgnoresDiagonal(sps, row, i, n - 1, x);
      if n - 1 != i {
        assert row[i := x][n - 1] == row[n - 1];
        assert Effect(sps, row[i := x], i, n - 1) == Effect(sps, row, i, n - 1);
      }
    }
  }

  /** A row that is zero off the diagonal gives a zero sum. */
  lemma {:induction false} InteractionSumZeroRow(sps: seq<Species>, row: seq<real>, i: nat, n: nat)
    requires i < |sps| && n <= |sps| && |row| == |sps| && sps[i].K > 0.0
    requires forall j :: 0 <= j < |row| && j != i ==> row[j] == 0.0
    ensures InteractionSum(sps, row, i, n) == 0.0
  {
    if n > 0 {
      InteractionSumZeroRow(sps, row, i, n - 1);
    }
  }

  /** Every effect on species `i` is scaled by its own population, so an extinct
      species receives no interaction. */
  lemma {:induction false} InteractionSumExtinct(sps: seq<Species>, row: seq<real>, i: nat, n: nat)
    requires i < |sps| && n <= |sps| && |row| == |sps| && sps[i].K > 0.0
    requires sps[i].p == 0
    ensures InteractionSum(sps, row, i, n) == 0.0
  {
    if n > 0 {
      InteractionSumExtinct(sps, row, i, n - 1);
    }
  }

  /** The sum reads only the population and capacity of species `i` and the
      populations of the species whose coefficient in `row` is non-zero. */
  lemma {:induction false} InteractionSumFrame(sps: seq<Species>, sps': seq<Species>, row: seq<real>, i: nat, n: nat)
    requires i < |sps| && n <= |sps| && |row| == |sps| && sps[i].K > 0.0
    requires |sps'| == |sps| && sps'[i].p == sps[i].p && sps'[i].K == sps[i].K
    requires forall j :: 0 <= j < |sps| && j != i && row[j] != 0.0 ==> sps'[j].p == sps[j].p
    ensures InteractionSum(sps', row, i, n) == InteractionSum(sps, row, i, n)
  {
    if n > 0 {
      InteractionSumFrame(sps, sps', row, i, n - 1);
      var j := n - 1;
      if j != i {
        if row[j] == 0.0 {
          assert Effect(sps', row, i, j) == 0.0 == Effect(sps, row, i, j);
        } else {
          assert sps'[j].p == sps[j].p;
          assert Effect(sps', row, i, j) == Effect(sps, row, i, j);
        }
      }
    }
  }

  // ---------------------------------------------------------------------------
  // The growth of one species

  /** Extinction is absorbing: a species with no population stays at zero. */
  lemma NextPopulationExtinct(sps: seq<Species>, alpha: Matrix, i: nat, s: real)
    requires WellFormed(sps, alpha) && i < |sps| && -1.0 <= s <= 1.0
    requires sps[i].p == 0
    ensures NextPopulation(sps, alpha, i, s) == 0
  {
    InteractionSumExtinct(sps, alpha[i], i, |sps|);
  }

  /** The diagonal coefficient alpha[i][i] never affects species `i`. */
  lemma NextPopulationIgnoresDiagonal(sps: seq<Species>, alpha: Matrix, i: nat, s: real, x: real)
    requires WellFormed(sps, alpha) && i < |sps| && -1.0 <= s <= 1.0
    ensures WellFormed(sps, alpha[i := alpha[i][i := x]])
    ensures NextPopulation(sps, alpha[i := alpha[i][i := x]], i, s) == NextPopulation(sps, alpha, i, s)
  {
    var alpha' := alpha[i := alpha[i][i := x]];
    assert alpha'[i] == alpha[i][i := x];
    InteractionSumIgnoresDiagonal(sps, alpha[i], i, |sps|, x);
  }

  /** With no coefficient off the diagonal of row `i`, species `i` follows the
      single-species seasonal logistic map, truncated and clamped. */
  lemma NextPopulationWithoutInteractions(sps: seq<Species>, alpha: Matrix, i: nat, s: real)
    requires WellFormed(sps, alpha) && i < |sps| && -1.0 <= s <= 1.0
    requires forall j :: 0 <= j < |sps| && j != i ==> alpha[i][j] == 0.0
    ensures NextPopulation(sps, alpha, i, s)
         == Clamp(Logistic(sps[i].p, sps[i].r, Capacity(sps[i].K, sps[i].A, s)))
  {
    InteractionSumZeroRow(sps, alpha[i], i, |sps|);
  }

  /** The growth of species `i` reads only its own record and the populations of
      the species that act on it: changing anything else leaves it alone. */
  lemma NextPopulationFrame(sps: seq<Species>, sps': seq<Species>, alpha: Matrix, i: nat, s: real)
    requires WellFormed(sps, alpha) && i < |sps| && -1.0 <= s <= 1.0
    requires WellFormed(sps', alpha) && sps'[i] == sps[i]
    requires forall j :: 0 <= j < |sps| && j != i && alpha[i][j] != 0.0 ==> sps'[j].p == sps[j].p
    ensures NextPopulation(sps', alpha, i, s) == NextPopulation(sps, alpha, i, s)
  {
    InteractionSumFrame(sps, sps', alpha[i], i, |sps|);
  }

  /** With no coefficient from `j` to `i`, one growth evaluation of `i` does not
      read `j`: any population of `j` gives species `i` the same next value from
      an otherwise fixed state. Over a whole in-place step, `j` can still reach
      `i` through a species updated before `i` (see StepOrder). */
  lemma NextPopulationIndependent(sps: seq<Species>, alpha: Matrix, i: nat, j: nat, x: int, s: real)
    requires WellFormed(sps, alpha) && i < |sps| && j < |sps| && i != j && -1.0 <= s <= 1.0
    requires alpha[i][j] == 0.0
    ensures WellFormed(sps[j := sps[j].(p := x)], alpha)
    ensures NextPopulation(sps[j := sps[j].(p := x)], alpha, i, s) == NextPopulation(sps, alpha, i, s)
  {
    NextPopulationFrame(sps, sps[j := sps[j].(p := x)], alpha, i, s);
  }

  /** The interaction sum is truncated on its own before it is added: an
      interaction of -2.7 takes 2 from a species at 10, where truncating the
      combined 7.3 once would have left 7. */
  lemma InteractionTruncatedBeforeAdding(s: real)
    requires -1.0 <= s <= 1.0
    ensures var sps := [Species("a", 0.0, 10, 10.0, 0.0), Species("b", 0.0, 27, 10.0, 0.0)];
      var alpha := [[0.0, -0.1], [0.0, 0.0]];
      && WellFormed(sps, alpha)
      && InteractionSum(sps, alpha[0], 0, 2) == -2.7
      && InteractionTerm(sps, alpha[0], 0) == -2
      && NextPopulation(sps, alpha, 0, s) == 8
      && Clamp(Logistic(10, 0.0, Capacity(10.0, 0.0, s)) + InteractionSum(sps, alpha[0], 0, 2)) == 7
  {
  }
}
