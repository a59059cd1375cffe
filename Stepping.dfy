/** One step of the simulation, on values: what every individual does, the order-dependent
    tally the step keeps while it visits the individuals, and the next state it assembles. */
module Stepping {
  import opened Utils
  import opened Locations
  import opened Instructions
  import opened Individuals
  import opened Environments

  /** What the step relies on besides the constructor's width check: valid tables and one
      movement per dimension in every instruction. */
  predicate Runnable(environment: Environment)
  {
    var configuration := environment.configuration;
    configuration.maxNOfIndividuals >= 1 &&
    forall i :: 0 <= i < |environment.instructions| ==>
      TableValid(environment.instructions[i]) && Fits(configuration, environment.instructions[i]) &&
      |environment.instructions[i].movements| == |configuration.maxLocation.coords|
  }

  /** The leading ceilLog2(|instructions|) bits of a cell can be read: with no instruction, or
      with cells too narrow, the step fails at the first individual. */
  predicate CanDecode(environment: Environment)
  {
    |environment.instructions| >= 1 && Width(|environment.instructions|) <= environment.configuration.dataSize
  }

  /** A state that passes the validation and whose cells all have the configured width. */
  ghost predicate WellFormed(configuration: Configuration, data: map<Location, BitString>, individuals: seq<Snapshot>)
  {
    |configuration.maxLocation.coords| >= 1 &&
    (forall l :: l in data <==> Within(l, configuration.maxLocation)) &&
    (forall l :: l in data ==> |data[l]| == configuration.dataSize) &&
    (forall s :: s in individuals ==>
      Within(s.location, configuration.maxLocation) && |s.memory| == configuration.individualMemorySize)
  }

  /** A state a step can be computed from: a runnable environment, instructions that can be
      selected whenever someone acts, and a well-formed state. */
  ghost predicate Steppable(environment: Environment, data: map<Location, BitString>, individuals: seq<Snapshot>)
  {
    Runnable(environment) && (|individuals| == 0 || CanDecode(environment)) &&
    WellFormed(environment.configuration, data, individuals)
  }

  lemma WellFormedChecked(configuration: Configuration, data: map<Location, BitString>, individuals: seq<Snapshot>)
    ensures WellFormed(configuration, data, individuals) <==>
      CheckState(configuration, data, individuals) &&
      forall l :: l in data ==> |data[l]| == configuration.dataSize
  {
    CheckStateMeans(configuration, data, individuals);
  }

  /** The number of individuals at a location, before anyone moves. */
  function Count(individuals: seq<Snapshot>, l: Location): (r: nat)
    ensures r <= |individuals|
  {
    if individuals == [] then 0
    else Count(individuals[..|individuals| - 1], l) + if individuals[|individuals| - 1].location == l then 1 else 0
  }

  /** An individual stands at l exactly when the count at l is positive. */
  lemma {:induction false} CountPositive(individuals: seq<Snapshot>, l: Location)
    ensures Count(individuals, l) >= 1 <==> exists s :: s in individuals && s.location == l
  {
    if individuals != [] {
      var prefix := individuals[..|individuals| - 1];
      CountPositive(prefix, l);
      assert individuals == prefix + [individuals[|individuals| - 1]];
    }
  }

  /** The locations of the individuals in list order, each at its first occurrence. */
  function DistinctLocations(individuals: seq<Snapshot>): (r: seq<Location>)
    ensures |r| <= |individuals|
    ensures forall i, j :: 0 <= i < j < |r| ==> r[i] != r[j]
    ensures forall l :: l in r <==> exists s :: s in individuals && s.location == l
  {
    if individuals == [] then []
    else
      var prefix := individuals[..|individuals| - 1];
      var last := individuals[|individuals| - 1];
      assert individuals == prefix + [last];
      var p := DistinctLocations(prefix);
      if last.location in p then p else p + [last.location]
  }

  /** A sequence without repetitions has as many elements as its set. */
  lemma {:induction false} DistinctCard(xs: seq<Location>)
    requires forall i, j :: 0 <= i < j < |xs| ==> xs[i] != xs[j]
    ensures |set x | x in xs| == |xs|
  {
    if xs != [] {
      var prefix := xs[..|xs| - 1];
      DistinctCard(prefix);
      assert (set x | x in xs) == (set x | x in prefix) + {xs[|xs| - 1]};
    }
  }

  /** The number of distinct locations the individuals stand on. */
  function NOfFilledLocations(individuals: seq<Snapshot>): (r: nat)
    ensures r == |set s | s in individuals :: s.location|
    ensures r <= |individuals| && (r >= 1 <==> |individuals| >= 1)
  {
    var d := DistinctLocations(individuals);
    DistinctCard(d);
    assert (set x | x in d) == (set s | s in individuals :: s.location);
    assert individuals != [] ==> individuals[0].location in d;
    |d|
  }

  /** The occupancy input: the count in ceilLog2(maxNOfIndividuals) bits. */
  function Occupancy(configuration: Configuration, individuals: seq<Snapshot>, l: Location): BitString
    requires configuration.maxNOfIndividuals >= 1
  {
    IntToBitString(Count(individuals, l), configuration.maxNOfIndividuals)
  }

  /** The occupancy input of every occupied location, counted once over the whole list. */
  function Occupancies(configuration: Configuration, individuals: seq<Snapshot>): (r: map<Location, BitString>)
    requires configuration.maxNOfIndividuals >= 1
    ensures forall s :: s in individuals ==> s.location in r
    ensures forall l :: l in r ==> r[l] == Occupancy(configuration, individuals, l)
  {
    map l | l in (set s | s in individuals :: s.location) :: Occupancy(configuration, individuals, l)
  }

  lemma {:induction false} ValueOfZeros(b: BitString)
    requires forall i :: 0 <= i < |b| ==> !b[i]
    ensures Value(b) == 0
  {
    if b != [] {
      ValueOfZeros(b[1..]);
    }
  }

  /** Within the population cap the occupancy input denotes the count, with one exception: a
      location holding maxNOfIndividuals individuals reads as 0 when that cap is a power of two. */
  lemma OccupancyEncodes(configuration: Configuration, individuals: seq<Snapshot>, l: Location)
    requires configuration.maxNOfIndividuals >= 1 && |individuals| <= configuration.maxNOfIndividuals
    ensures |Occupancy(configuration, individuals, l)| == Width(configuration.maxNOfIndividuals)
    ensures Count(individuals, l) < configuration.maxNOfIndividuals ==>
      Value(Occupancy(configuration, individuals, l)) == Count(individuals, l)
    ensures Count(individuals, l) == configuration.maxNOfIndividuals ==>
      Value(Occupancy(configuration, individuals, l)) ==
        if IsPowerOfTwo(configuration.maxNOfIndividuals) then 0 else Count(individuals, l)
  {
    var maxN := configuration.maxNOfIndividuals;
    var w := Width(maxN);
    WidthBounds(maxN);
    if Count(individuals, l) == maxN && IsPowerOfTwo(maxN) {
      var b := Occupancy(configuration, individuals, l);
      forall i | 0 <= i < |b|
        ensures !b[i]
      {
        ToBitsOverflow(w, i);
      }
      ValueOfZeros(b);
    }
  }

  /** The instruction index: the leading ceilLog2(|instructions|) bits of the cell, modulo the
      number of instructions. */
  function InstructionIndex(environment: Environment, cell: BitString): (r: nat)
    requires CanDecode(environment) && |cell| >= environment.configuration.dataSize
    ensures r < |environment.instructions|
  {
    Value(cell[..Width(|environment.instructions|)]) % |environment.instructions|
  }

  /** The instruction an individual runs: the one its pre-step cell selects. */
  function Chosen(environment: Environment, data: map<Location, BitString>, s: Snapshot): Instruction
    requires CanDecode(environment)
    requires s.location in data && |data[s.location]| >= environment.configuration.dataSize
  {
    environment.instructions[InstructionIndex(environment, data[s.location])]
  }

  /** The lookup input: pre-step cell data, occupancy, memory. */
  function Input(environment: Environment, data: map<Location, BitString>, individuals: seq<Snapshot>, s: Snapshot)
    : BitString
    requires Runnable(environment) && s.location in data
  {
    data[s.location] + Occupancy(environment.configuration, individuals, s.location) + s.memory
  }

  /** What one individual does: die, or write, update its memory, move and maybe replicate. */
  datatype Action =
    | Die
    | Act(replicates: bool, cell: BitString, memory: BitString, location: Location)

  /** The action of an individual of a well-formed state. Everything it reads is pre-step: the
      cell data, the occupancy and the individual's own memory and location. The table output is
      cut into the new cell (the first dataSize bits) and the new memory (the next memSize bits). */
  function ActionOf(environment: Environment, data: map<Location, BitString>, individuals: seq<Snapshot>, s: Snapshot)
    : (r: Action)
    requires Runnable(environment) && CanDecode(environment)
    requires WellFormed(environment.configuration, data, individuals) && s in individuals
    ensures r.Die? <==> Chosen(environment, data, s).continuation == Death
    ensures r.Act? ==>
      var c := environment.configuration;
      var instruction := Chosen(environment, data, s);
      var entry := instruction.semantics[Value(Input(environment, data, individuals, s))];
      r.replicates == (instruction.continuation == Replication) &&
      |entry| == c.dataSize + c.individualMemorySize &&
      r.cell == entry[..c.dataSize] && r.memory == entry[c.dataSize..] &&
      r.location == Location(Moved(s.location.coords, instruction.movements, c.maxLocation.coords, c.isToroidal)) &&
      Within(r.location, c.maxLocation)
  {
    var c := environment.configuration;
    var cell := data[s.location];
    var instruction := Chosen(environment, data, s);
    if instruction.continuation == Death then Die
    else
      var input := Input(environment, data, individuals, s);
      ApplyTotal(instruction, input);
      var output := Apply(instruction, input).value;
      Act(instruction.continuation == Replication,
        output[..|cell|],
        output[|cell|..|cell| + c.individualMemorySize],
        Location(Moved(s.location.coords, instruction.movements, c.maxLocation.coords, c.isToroidal)))
  }

  /** A pending cell write, with the birth step of its writer. */
  datatype Aged = Aged(kOfBirth: int, bits: BitString)

  /** What the step has gathered after visiting a prefix of the individuals: indexes of the dead,
      newborns, pending writes, and every visited individual as it is left (moved or not). */
  datatype Tally = Tally(removed: seq<nat>, added: seq<Snapshot>, changed: map<Location, Aged>, after: seq<Snapshot>)

  /** A write merged into the pending ones: an earlier pending write at the same location stays
      unless the new writer was born strictly earlier. */
  function Merge(changed: map<Location, Aged>, l: Location, a: Aged): map<Location, Aged>
  {
    if l in changed && changed[l].kOfBirth <= a.kOfBirth then changed else changed[l := a]
  }

  function Zeros(n: nat): (r: BitString)
    ensures |r| == n && forall i :: 0 <= i < n ==> !r[i]
  {
    seq(n, _ => false)
  }

  /** The actions of all individuals of a well-formed state, in list order. */
  function Actions(environment: Environment, data: map<Location, BitString>, individuals: seq<Snapshot>)
    : (r: seq<Action>)
    requires Steppable(environment, data, individuals)
    ensures |r| == |individuals|
  {
    seq(|individuals|, j requires 0 <= j < |individuals| => ActionOf(environment, data, individuals, individuals[j]))
  }

  /** The population the step counts with: the pre-step size, minus the dead, plus the newborns. */
  function Alive(individuals: seq<Snapshot>, t: Tally): int
  {
    |individuals| - |t.removed| + |t.added|
  }

  /** Visiting individual j, whose action is given. */
  function Process(configuration: Configuration, k: int, individuals: seq<Snapshot>, t: Tally, j: nat, action: Action)
    : Tally
    requires j < |individuals|
  {
    var s := individuals[j];
    match action
    case Die => t.(removed := t.removed + [j], after := t.after + [s])
    case Act(replicates, cell, memory, location) =>
      var added :=
        if replicates && Alive(individuals, t) < configuration.maxNOfIndividuals
        then t.added + [Snapshot(s.location, k, Zeros(configuration.individualMemorySize))]
        else t.added;
      Tally(t.removed, added, Merge(t.changed, s.location, Aged(s.kOfBirth, cell)),
        t.after + [Snapshot(location, s.kOfBirth, memory)])
  }

  /** The tally after visiting the first i individuals, in list order. */
  function ScanTo(configuration: Configuration, k: int, individuals: seq<Snapshot>, actions: seq<Action>, i: nat)
    : (t: Tally)
    requires |actions| == |individuals| && i <= |individuals|
    ensures |t.after| == i
  {
    if i == 0 then Tally([], [], map[], [])
    else Process(configuration, k, individuals, ScanTo(configuration, k, individuals, actions, i - 1), i - 1, actions[i - 1])
  }

  /** The number of indexes below n that the list holds. */
  function CountIn(removed: seq<nat>, n: nat): (r: nat)
    ensures r <= n
  {
    if n == 0 then 0 else CountIn(removed, n - 1) + if n - 1 in removed then 1 else 0
  }

  /** The indexes below n that are not removed, in increasing order. */
  function KeptIndexes(n: nat, removed: seq<nat>): (r: seq<nat>)
    ensures forall m :: 0 <= m < |r| ==> r[m] < n && r[m] !in removed
    ensures forall j :: 0 <= j < n && j !in removed ==> j in r
    ensures forall a, b :: 0 <= a < b < |r| ==> r[a] < r[b]
    ensures |r| == n - CountIn(removed, n)
  {
    if n == 0 then [] else KeptIndexes(n - 1, removed) + if n - 1 in removed then [] else [n - 1]
  }

  /** The next cells: the pre-step data with every pending write stored over it. */
  function NextData(data: map<Location, BitString>, changed: map<Location, Aged>): map<Location, BitString>
  {
    map l | l in data.Keys + changed.Keys :: if l in changed then changed[l].bits else data[l]
  }

  /** The tally of a whole step. */
  function Final(environment: Environment, k: int, data: map<Location, BitString>, individuals: seq<Snapshot>): Tally
    requires Steppable(environment, data, individuals)
  {
    ScanTo(environment.configuration, k, individuals, Actions(environment, data, individuals), |individuals|)
  }

  /** The next individuals: the survivors as they are left, in their original order, then the
      newborns in the order they were created. */
  function NextIndividuals(environment: Environment, k: int, data: map<Location, BitString>, individuals: seq<Snapshot>)
    : seq<Snapshot>
    requires Steppable(environment, data, individuals)
  {
    Assemble(Final(environment, k, data, individuals))
  }

  /** The survivors as they are left, in their original order, then the newborns. */
  function Assemble(t: Tally): seq<Snapshot>
  {
    var kept := KeptIndexes(|t.after|, t.removed);
    seq(|kept|, m requires 0 <= m < |kept| => t.after[kept[m]]) + t.added
  }
}
