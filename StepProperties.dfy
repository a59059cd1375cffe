/** What one step guarantees: the population cap, the fate of the dead and of the survivors, the
    newborns, the write-conflict rule on the cells, and a well-formed next state. */
module StepProperties {
  import opened Utils
  import opened Locations
  import opened Individuals
  import opened Environments
  import opened Stepping

  /** Individual j survives the step and writes to the cell at l (its pre-step location). */
  predicate Writes(individuals: seq<Snapshot>, actions: seq<Action>, j: nat, l: Location)
    requires j < |individuals| && j < |actions|
  {
    actions[j].Act? && individuals[j].location == l
  }

  /** Individual w's write takes precedence over individual j's: born strictly earlier, or born
      in the same step and visited no later. */
  predicate Precedes(individuals: seq<Snapshot>, w: nat, j: nat)
    requires w < |individuals| && j < |individuals|
  {
    individuals[w].kOfBirth < individuals[j].kOfBirth ||
    (individuals[w].kOfBirth == individuals[j].kOfBirth && w <= j)
  }

  /** Each visited individual is left as it was when it dies, and otherwise with the memory and
      the location its action computed; its birth step never changes. */
  lemma {:induction false} ScanAfter(configuration: Configuration, k: int, individuals: seq<Snapshot>,
                                     actions: seq<Action>, i: nat)
    requires |actions| == |individuals| && i <= |individuals|
    ensures var t := ScanTo(configuration, k, individuals, actions, i);
      forall j :: 0 <= j < i ==>
        (actions[j].Die? ==> t.after[j] == individuals[j]) &&
        (actions[j].Act? ==> t.after[j] == Snapshot(actions[j].location, individuals[j].kOfBirth, actions[j].memory))
  {
    if i > 0 {
      ScanAfter(configuration, k, individuals, actions, i - 1);
    }
  }

  lemma {:induction false} CountInExtend(removed: seq<nat>, x: nat, n: nat)
    requires x >= n
    ensures CountIn(removed + [x], n) == CountIn(removed, n)
  {
    if n > 0 {
      CountInExtend(removed, x, n - 1);
    }
  }

  /** The removed list holds, in increasing order and once each, the indexes of the visited
      individuals that die. */
  lemma {:induction false} ScanRemoved(configuration: Configuration, k: int, individuals: seq<Snapshot>,
                                       actions: seq<Action>, i: nat)
    requires |actions| == |individuals| && i <= |individuals|
    ensures var t := ScanTo(configuration, k, individuals, actions, i);
      (forall r :: r in t.removed ==> r < i) &&
      (forall j :: 0 <= j < i ==> (j in t.removed <==> actions[j].Die?)) &&
      CountIn(t.removed, i) == |t.removed|
  {
    if i > 0 {
      ScanRemoved(configuration, k, individuals, actions, i - 1);
      var previous := ScanTo(configuration, k, individuals, actions, i - 1);
      if actions[i - 1].Die? {
        CountInExtend(previous.removed, i - 1, i - 1);
      }
    }
  }

  /** The running population never exceeds the cap it started within. */
  lemma {:induction false} ScanPopulation(configuration: Configuration, k: int, individuals: seq<Snapshot>,
                                          actions: seq<Action>, i: nat)
    requires |actions| == |individuals| && i <= |individuals|
    requires |individuals| <= configuration.maxNOfIndividuals
    ensures Alive(individuals, ScanTo(configuration, k, individuals, actions, i)) <= configuration.maxNOfIndividuals
  {
    if i > 0 {
      ScanPopulation(configuration, k, individuals, actions, i - 1);
    }
  }

  /** Every newborn is born in this step, with an all-false memory, at the pre-step location of a
      visited individual that survives and replicates. */
  lemma {:induction false} ScanAdded(configuration: Configuration, k: int, individuals: seq<Snapshot>,
                                     actions: seq<Action>, i: nat)
    requires |actions| == |individuals| && i <= |individuals|
    ensures var t := ScanTo(configuration, k, individuals, actions, i);
      forall b :: b in t.added ==>
        b.kOfBirth == k && b.memory == Zeros(configuration.individualMemorySize) &&
        exists j :: 0 <= j < i && actions[j].Act? && actions[j].replicates && b.location == individuals[j].location
  {
    if i > 0 {
      ScanAdded(configuration, k, individuals, actions, i - 1);
    }
  }

  /** The number of deaths among the first n actions. */
  function Deaths(actions: seq<Action>, n: nat): (r: nat)
    requires n <= |actions|
    ensures r <= n
  {
    if n == 0 then 0 else Deaths(actions, n - 1) + if actions[n - 1].Die? then 1 else 0
  }

  /** The replication rule on the actions alone: the indexes, in visit order, of the survivors
      that replicate while the pre-step population, less the deaths and plus the children so far,
      is below the cap. */
  function Parents(configuration: Configuration, individuals: seq<Snapshot>, actions: seq<Action>, i: nat)
    : (r: seq<nat>)
    requires |actions| == |individuals| && i <= |individuals|
    ensures |r| <= i && forall m :: 0 <= m < |r| ==> r[m] < i
  {
    if i == 0 then []
    else
      var earlier := Parents(configuration, individuals, actions, i - 1);
      if actions[i - 1].Act? && actions[i - 1].replicates &&
         |individuals| - Deaths(actions, i - 1) + |earlier| < configuration.maxNOfIndividuals
      then earlier + [i - 1]
      else earlier
  }

  /** Individual j gets a child: it survives, it replicates, and the population counted when it
      is visited is below the cap. */
  predicate Begets(configuration: Configuration, individuals: seq<Snapshot>, actions: seq<Action>, j: nat)
    requires |actions| == |individuals| && j < |individuals|
  {
    actions[j].Act? && actions[j].replicates &&
    |individuals| - Deaths(actions, j) + |Parents(configuration, individuals, actions, j)| < configuration.maxNOfIndividuals
  }

  /** The parents are exactly the individuals that beget a child, in increasing index order. */
  lemma {:induction false} ParentsExact(configuration: Configuration, individuals: seq<Snapshot>,
                                        actions: seq<Action>, i: nat)
    requires |actions| == |individuals| && i <= |individuals|
    ensures var p := Parents(configuration, individuals, actions, i);
      (forall j :: 0 <= j < i ==> (j in p <==> Begets(configuration, individuals, actions, j))) &&
      (forall a, b :: 0 <= a < b < |p| ==> p[a] < p[b])
  {
    if i > 0 {
      ParentsExact(configuration, individuals, actions, i - 1);
    }
  }

  /** The newborns of the scan are one per parent, in the parents' order, each at its parent's
      pre-step location, born in this step with an all-false memory. */
  lemma {:induction false} ScanNewborns(configuration: Configuration, k: int, individuals: seq<Snapshot>,
                                        actions: seq<Action>, i: nat)
    requires |actions| == |individuals| && i <= |individuals|
    ensures var t := ScanTo(configuration, k, individuals, actions, i);
      var p := Parents(configuration, individuals, actions, i);
      |t.removed| == Deaths(actions, i) && |t.added| == |p| &&
      forall m :: 0 <= m < |p| ==>
        t.added[m] == Snapshot(individuals[p[m]].location, k, Zeros(configuration.individualMemorySize))
  {
    if i > 0 {
      ScanNewborns(configuration, k, individuals, actions, i - 1);
    }
  }

  /** The write-conflict rule: a location has a pending write exactly when a visited survivor
      stands on it, and the pending write is the cell computed by the writer that precedes all
      the others. */
  lemma {:induction false} ScanChanged(configuration: Configuration, k: int, individuals: seq<Snapshot>,
                                       actions: seq<Action>, i: nat, l: Location)
    requires |actions| == |individuals| && i <= |individuals|
    ensures var t := ScanTo(configuration, k, individuals, actions, i);
      l in t.changed <==> exists j :: 0 <= j < i && Writes(individuals, actions, j, l)
    ensures var t := ScanTo(configuration, k, individuals, actions, i);
      l in t.changed ==>
        exists w: nat :: Wins(individuals, actions, i, w, l) &&
          t.changed[l] == Aged(individuals[w].kOfBirth, actions[w].cell)
  {
    if i > 0 {
      ScanChanged(configuration, k, individuals, actions, i - 1, l);
      ChangedStep(configuration, k, individuals, actions, i - 1, l);
      var previous := ScanTo(configuration, k, individuals, actions, i - 1);
      var t := ScanTo(configuration, k, individuals, actions, i);
      if l in t.changed {
        if l in previous.changed && t.changed[l] == previous.changed[l] {
          var w: nat :| Wins(individuals, actions, i - 1, w, l) &&
            previous.changed[l] == Aged(individuals[w].kOfBirth, actions[w].cell);
          forall j | 0 <= j < i && Writes(individuals, actions, j, l)
            ensures Precedes(individuals, w, j)
          {
          }
          assert Wins(individuals, actions, i, w, l);
        } else {
          var w := i - 1;
          forall j | 0 <= j < i && Writes(individuals, actions, j, l)
            ensures Precedes(individuals, w, j)
          {
            if j < w {
              var v: nat :| Wins(individuals, actions, i - 1, v, l) &&
                previous.changed[l] == Aged(individuals[v].kOfBirth, actions[v].cell);
              assert Precedes(individuals, v, j);
            }
          }
          assert Wins(individuals, actions, i, w, l);
        }
      }
    }
  }

  /** Writer w precedes every writer at l among the first i individuals. */
  predicate Wins(individuals: seq<Snapshot>, actions: seq<Action>, i: nat, w: nat, l: Location)
    requires |actions| == |individuals| && i <= |individuals|
  {
    w < i && Writes(individuals, actions, w, l) &&
    forall j :: 0 <= j < i && Writes(individuals, actions, j, l) ==> Precedes(individuals, w, j)
  }

  /** Visiting individual i changes the tally's cell at l only if it writes there, and then keeps
      the earlier cell exactly when that cell's writer was born no later. */
  lemma ChangedStep(configuration: Configuration, k: int, individuals: seq<Snapshot>,
                    actions: seq<Action>, i: nat, l: Location)
    requires |actions| == |individuals| && i < |individuals|
    ensures var previous := ScanTo(configuration, k, individuals, actions, i);
      var t := ScanTo(configuration, k, individuals, actions, i + 1);
      (l in t.changed <==> l in previous.changed || Writes(individuals, actions, i, l)) &&
      (l in t.changed && l in previous.changed && t.changed[l] == previous.changed[l] ==>
        !Writes(individuals, actions, i, l) || previous.changed[l].kOfBirth <= individuals[i].kOfBirth) &&
      (l in t.changed && !(l in previous.changed && t.changed[l] == previous.changed[l]) ==>
        Writes(individuals, actions, i, l) && t.changed[l] == Aged(individuals[i].kOfBirth, actions[i].cell) &&
        (l in previous.changed ==> previous.changed[l].kOfBirth > individuals[i].kOfBirth))
  {
  }

  /** The survivors of a tally: exactly the individuals that do not die, in their original
      order, each with the memory and location its action computed and its own birth step. */
  lemma AssembleSurvivors(configuration: Configuration, k: int, individuals: seq<Snapshot>, actions: seq<Action>)
    requires |actions| == |individuals|
    ensures var t := ScanTo(configuration, k, individuals, actions, |individuals|);
      var kept := KeptIndexes(|individuals|, t.removed);
      var next := Assemble(t);
      |next| == |kept| + |t.added| &&
      (forall j :: 0 <= j < |individuals| ==> (j in kept <==> actions[j].Act?)) &&
      (forall a, b :: 0 <= a < b < |kept| ==> kept[a] < kept[b]) &&
      (forall m :: 0 <= m < |kept| ==>
        next[m] == Snapshot(actions[kept[m]].location, individuals[kept[m]].kOfBirth, actions[kept[m]].memory))
  {
    ScanAfter(configuration, k, individuals, actions, |individuals|);
    ScanRemoved(configuration, k, individuals, actions, |individuals|);
  }

  /** The newborns of a tally follow the survivors; each is born in this step with an all-false
      memory at the pre-step location of a surviving, replicating parent. */
  lemma AssembleNewborns(configuration: Configuration, k: int, individuals: seq<Snapshot>, actions: seq<Action>)
    requires |actions| == |individuals|
    ensures var t := ScanTo(configuration, k, individuals, actions, |individuals|);
      var kept := KeptIndexes(|individuals|, t.removed);
      var next := Assemble(t);
      |next| == |kept| + |t.added| &&
      forall m :: |kept| <= m < |next| ==>
        next[m].kOfBirth == k && next[m].memory == Zeros(configuration.individualMemorySize) &&
        exists j :: 0 <= j < |individuals| && actions[j].Act? && actions[j].replicates &&
          next[m].location == individuals[j].location
  {
    var t := ScanTo(configuration, k, individuals, actions, |individuals|);
    var kept := KeptIndexes(|individuals|, t.removed);
    var next := Assemble(t);
    ScanAfter(configuration, k, individuals, actions, |individuals|);
    ScanAdded(configuration, k, individuals, actions, |individuals|);
    forall m | |kept| <= m < |next|
      ensures next[m] in t.added
    {
      assert next[m] == t.added[m - |kept|];
    }
  }

  /** The newborns of a tally, after the survivors, are one per parent, in the parents' order,
      each at its parent's pre-step location; the parents are those that beget a child. */
  lemma AssembleParents(configuration: Configuration, k: int, individuals: seq<Snapshot>, actions: seq<Action>)
    requires |actions| == |individuals|
    ensures var t := ScanTo(configuration, k, individuals, actions, |individuals|);
      var kept := KeptIndexes(|individuals|, t.removed);
      var next := Assemble(t);
      var p := Parents(configuration, individuals, actions, |individuals|);
      |next| == |kept| + |p| &&
      (forall j :: 0 <= j < |individuals| ==> (j in p <==> Begets(configuration, individuals, actions, j))) &&
      (forall a, b :: 0 <= a < b < |p| ==> p[a] < p[b]) &&
      forall m :: 0 <= m < |p| ==>
        next[|kept| + m] == Snapshot(individuals[p[m]].location, k, Zeros(configuration.individualMemorySize))
  {
    var t := ScanTo(configuration, k, individuals, actions, |individuals|);
    var kept := KeptIndexes(|individuals|, t.removed);
    ScanAfter(configuration, k, individuals, actions, |individuals|);
    ScanNewborns(configuration, k, individuals, actions, |individuals|);
    ParentsExact(configuration, individuals, actions, |individuals|);
    assert |Assemble(t)| == |kept| + |t.added|;
    forall m | 0 <= m < |t.added|
      ensures Assemble(t)[|kept| + m] == t.added[m]
    {
    }
  }

  /** The survivors of a step from a well-formed state: exactly the individuals whose action is
      not death, in their original order, each with the memory and location its action computed
      and its own birth step, at the head of the next population. */
  lemma StepSurvivors(environment: Environment, k: int, data: map<Location, BitString>, individuals: seq<Snapshot>)
    requires Steppable(environment, data, individuals)
    ensures var actions := Actions(environment, data, individuals);
      var t := Final(environment, k, data, individuals);
      var kept := KeptIndexes(|individuals|, t.removed);
      var next := NextIndividuals(environment, k, data, individuals);
      |next| == |kept| + |t.added| &&
      (forall j :: 0 <= j < |individuals| ==> (j in kept <==> actions[j].Act?)) &&
      (forall a, b :: 0 <= a < b < |kept| ==> kept[a] < kept[b]) &&
      (forall m :: 0 <= m < |kept| ==>
        next[m] == Snapshot(actions[kept[m]].location, individuals[kept[m]].kOfBirth, actions[kept[m]].memory))
  {
    AssembleSurvivors(environment.configuration, k, individuals, Actions(environment, data, individuals));
  }

  /** The newborns of a step from a well-formed state follow the survivors; each is born in this
      step with an all-false memory at the pre-step location of a surviving, replicating parent. */
  lemma StepNewborns(environment: Environment, k: int, data: map<Location, BitString>, individuals: seq<Snapshot>)
    requires Steppable(environment, data, individuals)
    ensures var actions := Actions(environment, data, individuals);
      var t := Final(environment, k, data, individuals);
      var kept := KeptIndexes(|individuals|, t.removed);
      var next := NextIndividuals(environment, k, data, individuals);
      |next| == |kept| + |t.added| &&
      forall m :: |kept| <= m < |next| ==>
        next[m].kOfBirth == k && next[m].memory == Zeros(environment.configuration.individualMemorySize) &&
        exists j :: 0 <= j < |individuals| && actions[j].Act? && actions[j].replicates &&
          next[m].location == individuals[j].location
  {
    var actions := Actions(environment, data, individuals);
    var t := Final(environment, k, data, individuals);
    assert t == ScanTo(environment.configuration, k, individuals, actions, |individuals|);
    assert NextIndividuals(environment, k, data, individuals) == Assemble(t);
    AssembleNewborns(environment.configuration, k, individuals, actions);
  }

  /** The replication rule of a step from a well-formed state: the newborns, after the
      survivors, are one per individual that begets a child (a survivor that replicates while
      the running population is below the cap), in visit order, each at its parent's pre-step
      location, born in this step with an all-false memory. */
  lemma StepReplication(environment: Environment, k: int, data: map<Location, BitString>, individuals: seq<Snapshot>)
    requires Steppable(environment, data, individuals)
    ensures var actions := Actions(environment, data, individuals);
      var kept := KeptIndexes(|individuals|, Final(environment, k, data, individuals).removed);
      var next := NextIndividuals(environment, k, data, individuals);
      var p := Parents(environment.configuration, individuals, actions, |individuals|);
      |next| == |kept| + |p| &&
      (forall j :: 0 <= j < |individuals| ==> (j in p <==> Begets(environment.configuration, individuals, actions, j))) &&
      (forall a, b :: 0 <= a < b < |p| ==> p[a] < p[b]) &&
      forall m :: 0 <= m < |p| ==>
        next[|kept| + m] == Snapshot(individuals[p[m]].location, k, Zeros(environment.configuration.individualMemorySize))
  {
    var actions := Actions(environment, data, individuals);
    var t := Final(environment, k, data, individuals);
    assert t == ScanTo(environment.configuration, k, individuals, actions, |individuals|);
    assert NextIndividuals(environment, k, data, individuals) == Assemble(t);
    AssembleParents(environment.configuration, k, individuals, actions);
  }

  /** The dead are inert: an individual that dies is not among the survivors, writes to no cell,
      and is left with its location and memory. */
  lemma DeathIsInert(environment: Environment, k: int, data: map<Location, BitString>, individuals: seq<Snapshot>,
                     j: nat)
    requires Steppable(environment, data, individuals)
    requires j < |individuals| && Actions(environment, data, individuals)[j].Die?
    ensures var actions := Actions(environment, data, individuals);
      var t := Final(environment, k, data, individuals);
      j !in KeptIndexes(|individuals|, t.removed) &&
      (forall l :: !Writes(individuals, actions, j, l)) &&
      t.after[j] == individuals[j]
  {
    var actions := Actions(environment, data, individuals);
    ScanAfter(environment.configuration, k, individuals, actions, |individuals|);
    ScanRemoved(environment.configuration, k, individuals, actions, |individuals|);
  }

  /** The population cap: a step from at most maxNOfIndividuals individuals leads to at most
      maxNOfIndividuals individuals. */
  lemma StepPopulation(environment: Environment, k: int, data: map<Location, BitString>, individuals: seq<Snapshot>)
    requires Steppable(environment, data, individuals)
    requires |individuals| <= environment.configuration.maxNOfIndividuals
    ensures |NextIndividuals(environment, k, data, individuals)| <= environment.configuration.maxNOfIndividuals
  {
    var c := environment.configuration;
    var n := |individuals|;
    var actions := Actions(environment, data, individuals);
    ScanRemoved(c, k, individuals, actions, n);
    ScanPopulation(c, k, individuals, actions, n);
  }

  /** The cells after a step: a cell on which no survivor stands keeps its value; any other
      holds the cell computed by the writer that precedes all other writers there. */
  lemma StepCell(environment: Environment, k: int, data: map<Location, BitString>, individuals: seq<Snapshot>,
                 l: Location)
    requires Steppable(environment, data, individuals) && l in data
    ensures var actions := Actions(environment, data, individuals);
      var next := NextData(data, Final(environment, k, data, individuals).changed);
      l in next &&
      ((forall j :: 0 <= j < |individuals| ==> !Writes(individuals, actions, j, l)) ==> next[l] == data[l]) &&
      ((exists j :: 0 <= j < |individuals| && Writes(individuals, actions, j, l)) ==>
        exists w :: 0 <= w < |individuals| && Writes(individuals, actions, w, l) && next[l] == actions[w].cell &&
          forall j :: 0 <= j < |individuals| && Writes(individuals, actions, j, l) ==> Precedes(individuals, w, j))
  {
    ScanChanged(environment.configuration, k, individuals, Actions(environment, data, individuals), |individuals|, l);
  }

  /** The cells after a step cover the same locations, each with the configured width. */
  lemma StepDataShape(environment: Environment, k: int, data: map<Location, BitString>, individuals: seq<Snapshot>)
    requires Steppable(environment, data, individuals)
    ensures var next := NextData(data, Final(environment, k, data, individuals).changed);
      next.Keys == data.Keys &&
      forall l :: l in next ==> |next[l]| == environment.configuration.dataSize
  {
    var c := environment.configuration;
    var actions := Actions(environment, data, individuals);
    var t := Final(environment, k, data, individuals);
    forall l | l in t.changed
      ensures l in data && |t.changed[l].bits| == c.dataSize
    {
      ScanChanged(c, k, individuals, actions, |individuals|, l);
      var w: nat :| Wins(individuals, actions, |individuals|, w, l) &&
        t.changed[l] == Aged(individuals[w].kOfBirth, actions[w].cell);
      assert individuals[w] in individuals;
    }
  }

  /** A tally whose moves stay on the grid and whose memories keep their width assembles into
      individuals that are all on the grid with memories of that width. */
  lemma AssembleInBounds(configuration: Configuration, k: int, individuals: seq<Snapshot>, actions: seq<Action>)
    requires |actions| == |individuals|
    requires forall j :: 0 <= j < |individuals| ==>
      Within(individuals[j].location, configuration.maxLocation) &&
      |individuals[j].memory| == configuration.individualMemorySize
    requires forall j :: 0 <= j < |actions| && actions[j].Act? ==>
      Within(actions[j].location, configuration.maxLocation) &&
      |actions[j].memory| == configuration.individualMemorySize
    ensures var next := Assemble(ScanTo(configuration, k, individuals, actions, |individuals|));
      forall m :: 0 <= m < |next| ==>
        Within(next[m].location, configuration.maxLocation) &&
        |next[m].memory| == configuration.individualMemorySize
  {
    var t := ScanTo(configuration, k, individuals, actions, |individuals|);
    var kept := KeptIndexes(|individuals|, t.removed);
    var next := Assemble(t);
    AssembleSurvivors(configuration, k, individuals, actions);
    AssembleNewborns(configuration, k, individuals, actions);
    forall m | 0 <= m < |next|
      ensures Within(next[m].location, configuration.maxLocation)
      ensures |next[m].memory| == configuration.individualMemorySize
    {
      if m < |kept| {
        var j := kept[m];
        assert j in kept;
      } else {
        assert next[m].kOfBirth == k;
        var j :| 0 <= j < |individuals| && actions[j].Act? && actions[j].replicates &&
          next[m].location == individuals[j].location;
      }
    }
  }

  /** Individuals that are each on the grid with memories of the configured width, by position,
      are so as a collection. */
  lemma InBoundsAll(configuration: Configuration, xs: seq<Snapshot>)
    requires forall m :: 0 <= m < |xs| ==>
      Within(xs[m].location, configuration.maxLocation) && |xs[m].memory| == configuration.individualMemorySize
    ensures forall s :: s in xs ==>
      Within(s.location, configuration.maxLocation) && |s.memory| == configuration.individualMemorySize
  {
  }

  /** A step keeps a state well formed. */
  lemma StepWellFormed(environment: Environment, k: int, data: map<Location, BitString>, individuals: seq<Snapshot>)
    requires Steppable(environment, data, individuals)
    ensures WellFormed(environment.configuration,
      NextData(data, Final(environment, k, data, individuals).changed),
      NextIndividuals(environment, k, data, individuals))
  {
    var c := environment.configuration;
    var actions := Actions(environment, data, individuals);
    forall j | 0 <= j < |actions|
      ensures Within(individuals[j].location, c.maxLocation) && |individuals[j].memory| == c.individualMemorySize
      ensures actions[j].Act? ==>
        Within(actions[j].location, c.maxLocation) && |actions[j].memory| == c.individualMemorySize
    {
      assert individuals[j] in individuals;
    }
    StepDataShape(environment, k, data, individuals);
    AssembleInBounds(c, k, individuals, actions);
    var next := NextIndividuals(environment, k, data, individuals);
    assert next == Assemble(ScanTo(c, k, individuals, actions, |individuals|));
    InBoundsAll(c, next);
  }
}
