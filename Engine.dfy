/** The engine over mutable individuals: the state passed from step to step, the step, which
    updates the individuals of the state it is given in place, the initial state, and the number
    of filled locations. */
module Engine {
  import opened Wrappers
  import opened Utils
  import opened Locations
  import opened Instructions
  import opened Individuals
  import opened Environments
  import opened Stepping

  /** Step counter, cell data, individuals (shared objects) and configuration. */
  datatype State = State(k: int, data: map<Location, BitString>, individuals: seq<Individual>, configuration: Configuration)

  /** What the individuals hold, in list order. */
  function Views(xs: seq<Individual>): (r: seq<Snapshot>)
    reads set x | x in xs
    ensures |r| == |xs| && forall j :: 0 <= j < |xs| ==> r[j] == xs[j].View()
  {
    if xs == [] then [] else Views(xs[..|xs| - 1]) + [xs[|xs| - 1].View()]
  }

  /** Objects holding the given values, one by one, hold them as a list. */
  lemma ViewsOf(xs: seq<Individual>, ws: seq<Snapshot>)
    requires |xs| == |ws| && forall j :: 0 <= j < |xs| ==> xs[j].View() == ws[j]
    ensures Views(xs) == ws
  {
  }

  predicate Distinct(xs: seq<Individual>)
  {
    forall i, j :: 0 <= i < j < |xs| ==> xs[i] != xs[j]
  }

  /** Concatenating three pieces is juxtaposing them. */
  lemma FlattenThree(a: BitString, b: BitString, c: BitString)
    ensures Flatten([a, b, c]) == a + b + c
  {
    assert [a, b, c][1..] == [b, c];
    assert [b, c][1..] == [c];
    assert [c][1..] == [];
    assert Flatten([c]) == c + [];
  }

  /** The instruction a cell selects: its leading ceilLog2(|instructions|) bits, read as a
      number, modulo the number of instructions. */
  method Select(environment: Environment, cell: BitString) returns (instruction: Instruction)
    requires CanDecode(environment) && |cell| >= environment.configuration.dataSize
    ensures instruction == environment.instructions[InstructionIndex(environment, cell)]
  {
    var head := SubBitString(cell, 0, Width(|environment.instructions|)).value;
    assert head == cell[..Width(|environment.instructions|)];
    var index := BitStringToInt(head);
    instruction := environment.instructions[index % |environment.instructions|];
  }

  /** The lookup: the entry the input selects, cut into new cell data (as wide as the cell) and
      new memory (the following memorySize bits). */
  method Run(instruction: Instruction, cell: BitString, occupancy: BitString, memory: BitString, memorySize: nat)
    returns (newData: BitString, newMemory: BitString)
    requires TableValid(instruction) && |cell| + |occupancy| + |memory| == InputSize(instruction)
    requires |instruction.semantics[0]| == |cell| + memorySize
    ensures var entry := instruction.semantics[Value(cell + occupancy + memory)];
      newData == entry[..|cell|] && newMemory == entry[|cell|..]
  {
    var input := Concat([cell, occupancy, memory]);
    FlattenThree(cell, occupancy, memory);
    ApplyTotal(instruction, input);
    var output := Apply(instruction, input).value;
    newData := SubBitString(output, 0, |cell|).value;
    newMemory := SubBitString(output, |newData|, memorySize).value;
    assert newData == output[..|cell|];
    assert newMemory == output[|cell|..];
  }

  /** What individual i does, from the pre-step cell under it, the pre-step occupancy of its
      location and its own memory: nothing but death when the selected instruction says so,
      otherwise the table lookup and the move. */
  method Decide(environment: Environment, data: map<Location, BitString>, views: seq<Snapshot>,
                occupancy: map<Location, BitString>, i: nat)
    returns (action: Action)
    requires Steppable(environment, data, views) && i < |views|
    requires views[i].location in occupancy
    requires occupancy[views[i].location] == Occupancy(environment.configuration, views, views[i].location)
    ensures action == Actions(environment, data, views)[i]
  {
    var c := environment.configuration;
    var s := views[i];
    assert s in views;
    var cell := data[s.location];
    var instruction := Select(environment, cell);
    if instruction.continuation == Death {
      return Die;
    }
    var newData, newMemory := Run(instruction, cell, occupancy[s.location], s.memory, c.individualMemorySize);
    var moved := Update(s.location, instruction.movements, c.maxLocation, c.isToroidal);
    action := Act(instruction.continuation == Replication, newData, newMemory, moved.value);
  }

  /** The actions of all individuals. Each reads only the pre-step cells and occupancy and the
      individual's own fields, which nothing changes before that individual's turn, so they are
      all decided on the pre-step snapshot before any of them is carried out. */
  method Decisions(environment: Environment, data: map<Location, BitString>, views: seq<Snapshot>)
    returns (actions: seq<Action>)
    requires Steppable(environment, data, views)
    ensures actions == Actions(environment, data, views)
  {
    var occupancy := Occupancies(environment.configuration, views);
    actions := [];
    for i := 0 to |views|
      invariant |actions| == i
      invariant forall j :: 0 <= j < i ==> actions[j] == Actions(environment, data, views)[j]
    {
      var action := Decide(environment, data, views, occupancy, i);
      actions := actions + [action];
    }
  }

  /** Carrying out the action of individual i, the next one in list order: its death is recorded;
      otherwise its replication (while the running population is below the cap), its write,
      merged into the pending ones, its new memory and its move. This is one round of the tally,
      on the objects: only individual i changes, and the newborn is a new object. */
  method Visit(configuration: Configuration, k: int, views: seq<Snapshot>, individuals: seq<Individual>, i: nat,
               removed: seq<nat>, added: seq<Individual>, changed: map<Location, Aged>,
               action: Action, ghost t0: Tally)
    returns (removed': seq<nat>, added': seq<Individual>, changed': map<Location, Aged>)
    requires i < |views| == |individuals| && Distinct(individuals) && individuals[i] !in added
    requires t0.removed == removed && t0.changed == changed && |t0.added| == |added| && |t0.after| == i
    requires forall j :: 0 <= j < i ==> individuals[j].View() == t0.after[j]
    requires forall j :: i <= j < |individuals| ==> individuals[j].View() == views[j]
    requires forall j :: 0 <= j < |added| ==> added[j].View() == t0.added[j]
    requires Distinct(added)
    modifies individuals[i]
    ensures forall x :: x in added' ==> x in added || fresh(x)
    ensures Distinct(added')
    ensures var t1 := Process(configuration, k, views, t0, i, action);
      t1.removed == removed' && t1.changed == changed' && |t1.added| == |added'| &&
      (forall j :: 0 <= j <= i ==> individuals[j].View() == t1.after[j]) &&
      (forall j :: i + 1 <= j < |individuals| ==> individuals[j].View() == views[j]) &&
      (forall j :: 0 <= j < |added'| ==> added'[j].View() == t1.added[j])
  {
    var individual := individuals[i];
    removed', added', changed' := removed, added, changed;
    match action
    case Die =>
      removed' := removed + [i];
    case Act(replicates, cell, memory, location) =>
      if replicates && |views| - |removed| + |added| < configuration.maxNOfIndividuals {
        var child := new Individual(individual.location, k, Zeros(configuration.individualMemorySize));
        added' := added + [child];
      }
      if !(individual.location in changed && changed[individual.location].kOfBirth <= individual.kOfBirth) {
        changed' := changed[individual.location := Aged(individual.kOfBirth, cell)];
      }
      individual.SetMemory(memory);
      individual.SetLocation(location);
    forall j | 0 <= j < |individuals| && j != i
      ensures individuals[j].View() == old(individuals[j].View())
    {
      assert individuals[j] != individual;
    }
    forall j | 0 <= j < |added|
      ensures added[j].View() == old(added[j].View())
    {
      assert added[j] != individual;
    }
  }

  /** The loop of the step: carries out the actions in list order, updating each individual in
      place, collecting the newborns, the dead and the pending writes. */
  method Scan(configuration: Configuration, k: int, individuals: seq<Individual>, views: seq<Snapshot>,
              actions: seq<Action>)
    returns (removed: seq<nat>, added: seq<Individual>, changed: map<Location, Aged>)
    requires Distinct(individuals) && |views| == |individuals| && |actions| == |views|
    requires forall j :: 0 <= j < |individuals| ==> individuals[j].View() == views[j]
    modifies set x | x in individuals
    ensures forall x :: x in added ==> fresh(x)
    ensures Distinct(added) && forall m, j :: 0 <= m < |added| && 0 <= j < |individuals| ==> added[m] != individuals[j]
    ensures var t := ScanTo(configuration, k, views, actions, |views|);
      t.removed == removed && t.changed == changed && |t.added| == |added| &&
      (forall j :: 0 <= j < |added| ==> added[j].View() == t.added[j]) &&
      (forall j :: 0 <= j < |individuals| ==> individuals[j].View() == t.after[j])
  {
    var n := |individuals|;
    removed, added, changed := [], [], map[];
    ghost var t := Tally([], [], map[], []);
    for i := 0 to n
      invariant t == ScanTo(configuration, k, views, actions, i)
      invariant t.removed == removed && t.changed == changed && |t.added| == |added|
      invariant forall j :: 0 <= j < i ==> individuals[j].View() == t.after[j]
      invariant forall j :: i <= j < n ==> individuals[j].View() == views[j]
      invariant forall x :: x in added ==> fresh(x)
      invariant Distinct(added)
      invariant forall j :: 0 <= j < |added| ==> added[j].View() == t.added[j]
    {
      removed, added, changed := Visit(configuration, k, views, individuals, i, removed, added, changed, actions[i], t);
      t := Process(configuration, k, views, t, i, actions[i]);
    }
    forall m, j | 0 <= m < |added| && 0 <= j < |individuals|
      ensures added[m] != individuals[j]
    {
      assert added[m] in added;
    }
  }

  /** The individuals of the next state: the survivors, the same objects in their original
      order, then the newborns. */
  method Gather(individuals: seq<Individual>, removed: seq<nat>, added: seq<Individual>, ghost t: Tally)
    returns (next: seq<Individual>)
    requires t.removed == removed && |t.after| == |individuals| && |t.added| == |added|
    requires forall j :: 0 <= j < |individuals| ==> individuals[j].View() == t.after[j]
    requires forall j :: 0 <= j < |added| ==> added[j].View() == t.added[j]
    requires Distinct(individuals) && Distinct(added)
    requires forall m, j :: 0 <= m < |added| && 0 <= j < |individuals| ==> added[m] != individuals[j]
    ensures var kept := KeptIndexes(|individuals|, removed);
      |next| == |kept| + |added| && next[|kept|..] == added &&
      (forall m :: 0 <= m < |kept| ==> next[m] == individuals[kept[m]])
    ensures Views(next) == Assemble(t)
    ensures Distinct(next)
  {
    var kept := KeptIndexes(|individuals|, removed);
    var survivors := seq(|kept|, m requires 0 <= m < |kept| => individuals[kept[m]]);
    next := survivors + added;
    assert next[|kept|..] == added;
    forall m | 0 <= m < |next|
      ensures next[m].View() == Assemble(t)[m]
    {
      if m < |kept| {
        assert next[m] == individuals[kept[m]];
      } else {
        assert next[m] == added[m - |kept|];
      }
    }
    ViewsOf(next, Assemble(t));
  }

  /** One step. The occupancy is counted once, before anyone moves; every individual then reads
      its pre-step cell, and its writes are merged into the pending ones. The individuals of the
      given state are updated in place: the next state shares the survivors with it and adds
      the newborns. With individuals to visit, no instruction or cells too narrow to select one,
      the step fails before changing anything. */
  method Step(environment: Environment, state: State, ghost before: seq<Snapshot>) returns (r: Option<State>)
    requires Runnable(environment) && Distinct(state.individuals) && before == Views(state.individuals)
    requires WellFormed(environment.configuration, state.data, before)
    modifies set x | x in state.individuals
    ensures r.None? <==> |state.individuals| >= 1 && !CanDecode(environment)
    ensures r.None? ==> forall x :: x in state.individuals ==> x.View() == old(x.View())
    ensures r.Some? ==>
      r.value.k == state.k + 1 && r.value.configuration == environment.configuration &&
      r.value.data == NextData(state.data, Final(environment, state.k, state.data, before).changed)
    ensures r.Some? ==> Views(state.individuals) == Final(environment, state.k, state.data, before).after
    ensures r.Some? ==>
      Views(r.value.individuals) == NextIndividuals(environment, state.k, state.data, before)
    ensures r.Some? ==>
      var t := Final(environment, state.k, state.data, before);
      var kept := KeptIndexes(|state.individuals|, t.removed);
      |r.value.individuals| == |kept| + |t.added| &&
      (forall m :: 0 <= m < |kept| ==> r.value.individuals[m] == state.individuals[kept[m]]) &&
      (forall x :: x in r.value.individuals[|kept|..] ==> fresh(x))
    ensures r.Some? ==> Distinct(r.value.individuals)
  {
    var c := environment.configuration;
    var individuals := state.individuals;
    var n := |individuals|;
    var views := Views(individuals);
    // The first individual fails exactly when every individual would, before anything changes.
    if n >= 1 && (|environment.instructions| == 0 || |state.data[views[0].location]| < Width(|environment.instructions|)) {
      assert views[0] in views;
      return None;
    }
    var actions := Decisions(environment, state.data, views);
    var removed, added, changed := Scan(c, state.k, individuals, views, actions);
    ghost var t := Final(environment, state.k, state.data, views);
    ViewsOf(individuals, t.after);
    var next := Gather(individuals, removed, added, t);
    r := Some(State(state.k + 1, NextData(state.data, changed), next, c));
  }

  /** The cells of the initial state: one supplier call per location, in order. */
  method Fill(ls: seq<Location>, dataSupplier: (nat, nat) -> BitString, dataSize: nat)
    returns (data: map<Location, BitString>)
    requires forall i, j :: 0 <= i < j < |ls| ==> ls[i] != ls[j]
    ensures forall l :: l in data <==> l in ls
    ensures forall j :: 0 <= j < |ls| ==> data[ls[j]] == dataSupplier(j, dataSize)
  {
    data := map[];
    for j := 0 to |ls|
      invariant forall l :: l in data <==> l in ls[..j]
      invariant forall m :: 0 <= m < j ==> data[ls[m]] == dataSupplier(m, dataSize)
    {
      data := data[ls[j] := dataSupplier(j, dataSize)];
    }
    assert ls[..|ls|] == ls;
  }

  /** The validation of a state whose cells cover the enumerated grid and whose one individual
      stands at the centre passes exactly when every bound is positive. */
  lemma FirstStateChecked(configuration: Configuration, data: map<Location, BitString>, views: seq<Snapshot>)
    requires Enumerate(configuration.maxLocation).Some?
    requires forall l :: l in data <==> l in Enumerate(configuration.maxLocation).value
    requires views == [Snapshot(Location(Center(configuration.maxLocation.coords)), 0, Zeros(configuration.individualMemorySize))]
    ensures CheckState(configuration, data, views) <==> AllPositive(configuration.maxLocation.coords)
    ensures forall l :: l in data <==> Within(l, configuration.maxLocation)
  {
    BoundedLocationsExact(configuration.maxLocation);
    CenterWithin(configuration.maxLocation.coords);
    CheckStateMeans(configuration, data, views);
    assert views[0] in views;
  }

  /** The initial state: step 0, a cell for every location of the grid, in enumeration order,
      each filled by the supplier, and one individual born at step 0 at the centre of the grid
      with an all-false memory; then the state validation. The supplier is called once per
      location with the cell width; its j-th call is modelled as dataSupplier(j, dataSize). */
  method InitialState(configuration: Configuration, dataSupplier: (nat, nat) -> BitString) returns (r: Option<State>)
    ensures r.None? <==> |configuration.maxLocation.coords| == 0 || !AllPositive(configuration.maxLocation.coords)
    ensures r.Some? ==>
      r.value.k == 0 && r.value.configuration == configuration && |r.value.individuals| == 1 &&
      fresh(r.value.individuals[0]) &&
      r.value.individuals[0].View() ==
        Snapshot(Location(Center(configuration.maxLocation.coords)), 0, Zeros(configuration.individualMemorySize))
    ensures r.Some? ==> forall l :: l in r.value.data <==> Within(l, configuration.maxLocation)
    ensures r.Some? ==>
      Enumerate(configuration.maxLocation).Some? &&
      var ls := Enumerate(configuration.maxLocation).value;
      forall j :: 0 <= j < |ls| ==> ls[j] in r.value.data && r.value.data[ls[j]] == dataSupplier(j, configuration.dataSize)
    ensures r.Some? ==> CheckState(configuration, r.value.data, Views(r.value.individuals))
  {
    var bound := configuration.maxLocation;
    var locations := BoundedLocations(bound);
    if locations.None? {
      return None;
    }
    var ls := locations.value;
    assert forall i, j :: 0 <= i < j < |ls| ==> ls[i] != ls[j] by {
      BoundedLocationsExact(bound);
    }
    var data := Fill(ls, dataSupplier, configuration.dataSize);
    var individual := new Individual(Location(Center(bound.coords)), 0, Zeros(configuration.individualMemorySize));
    var views := Views([individual]);
    FirstStateChecked(configuration, data, views);
    if !CheckState(configuration, data, views) {
      return None;
    }
    r := Some(State(0, data, [individual], configuration));
  }
}
