/** The simulator object: the species records, the interaction matrix, the
    clock and the four recorded time series, updated in place. */
module LotkaVolterra {
  import opened Truncation
  import opened Population
  import opened Growth
  import opened StepOrder

  class Ecological {
    var species: seq<Species>
    var alpha: Matrix
    /** One series per species of the preset; `CollectData` appends to them. */
    var data: seq<seq<int>>
    /** The clock; it starts at 1 and feeds the seasonal capacity. */
    var t: int
    /** The seasonal value at each clock tick, sin(pi/4 * t) in the source. */
    const season: Season

    ghost predicate Valid()
      reads this
    {
      && WellFormed(species, alpha)
      && |data| == 4
    }

    /** An empty species list or an empty matrix selects the built-in preset. */
    constructor (initialValues: seq<Species>, alpha: Matrix, season: Season)
      requires WellFormed(if initialValues != [] then initialValues else DefaultSpecies(),
                          if alpha != [] then alpha else DefaultAlpha())
      ensures Valid()
      ensures species == if initialValues != [] then initialValues else DefaultSpecies()
      ensures this.alpha == if alpha != [] then alpha else DefaultAlpha()
      ensures data == [[], [], [], []] && t == 1 && this.season == season
    {
      species := if initialValues != [] then initialValues else DefaultSpecies();
      this.alpha := if alpha != [] then alpha else DefaultAlpha();
      data := [[], [], [], []];
      t := 1;
      this.season := season;
    }

    /** Advances every species by one step, in index order and in place, then
        ticks the clock. */
    method Step()
      requires Valid()
      modifies this`species, this`t
      ensures Valid()
      ensures species == StepAll(old(species), alpha, season(old(t)))
      ensures t == old(t) + 1 && alpha == old(alpha) && data == old(data)
      ensures |species| == |old(species)|
      ensures forall i :: 0 <= i < |species| ==>
        species[i].p >= 0 && species[i] == old(species[i]).(p := species[i].p)
      ensures forall i :: 0 <= i < |species| && old(species[i].p) == 0 ==> species[i].p == 0
    {
      ghost var before := species;
      var s := season(t);
      var i := 0;
      while i < |species|
        invariant 0 <= i <= |species| == |before|
        invariant t == old(t)
        invariant species == Sweep(before, alpha, s, i)
      {
        var q := Grow(i);
        species := species[i := species[i].(p := q)];
        i := i + 1;
      }
      t := t + 1;
      StepShape(before, alpha, s);
      forall j | 0 <= j < |species| && before[j].p == 0
        ensures species[j].p == 0
      {
        StepExtinct(before, alpha, s, j);
      }
    }

    /** Calls `Step` `n` times in a row, as a simulation loop does. */
    method Advance(n: nat)
      requires Valid()
      modifies this`species, this`t
      ensures Valid()
      ensures species == Run(old(species), alpha, season, old(t), n)
      ensures t == old(t) + n && alpha == old(alpha) && data == old(data)
    {
      ghost var start, t0 := species, t;
      var k := 0;
      while k < n
        invariant 0 <= k <= n && Valid()
        invariant species == Run(start, alpha, season, t0, k)
        invariant t == t0 + k && alpha == old(alpha) && data == old(data)
      {
        RunLast(start, alpha, season, t0, k);
        Step();
        k := k + 1;
      }
    }

    /** The next population of species `index`, computed from the current state. */
    method Grow(index: nat) returns (q: int)
      requires Valid() && index < |species|
      ensures q == NextPopulation(species, alpha, index, season(t))
    {
      var sp := species[index];
      var s := season(t);
      var grown := Logistic(sp.p, sp.r, Capacity(sp.K, sp.A, s));
      var a := Interactions(index);
      grown := grown + a as real;
      q := Clamp(grown);
    }

    /** The effect of all other species on species `index`, truncated toward zero. */
    method Interactions(index: nat) returns (a: int)
      requires Valid() && index < |species|
      ensures a == InteractionTerm(species, alpha[index], index)
    {
      var acc := 0.0;
      var i := 0;
      while i < |species|
        invariant 0 <= i <= |species|
        invariant acc == InteractionSum(species, alpha[index], index, i)
      {
        if index != i {
          acc := acc + species[i].p as real * alpha[index][i] * species[index].p as real / species[index].K;
        }
        i := i + 1;
      }
      a := Trunc(acc);
    }

    /** Appends the current population of each species to its series. Only four
        series exist: with more species, the first four are extended and then
        the operation fails (`ok` is false). */
    method CollectData() returns (ok: bool)
      requires Valid()
      modifies this`data
      ensures Valid()
      ensures ok <==> |species| <= |data|
      ensures |data| == |old(data)|
      ensures forall i :: 0 <= i < |data| ==>
        data[i] == old(data[i]) + (if i < |species| then [species[i].p] else [])
    {
      var i := 0;
      while i < |species|
        invariant 0 <= i <= |species| && i <= |data|
        invariant |data| == |old(data)|
        invariant forall j :: 0 <= j < |data| ==>
          data[j] == old(data[j]) + (if j < i && j < |species| then [species[j].p] else [])
      {
        if i >= |data| {
          return false;
        }
        data := data[i := data[i] + [species[i].p]];
        i := i + 1;
      }
      return true;
    }
  }
}
