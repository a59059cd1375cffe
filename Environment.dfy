/** The run configuration and the environment built from it: the width contract between the
    configuration and the instruction set, movement on the grid, and the validation of a state. */
module Environments {
  import opened Wrappers
  import opened Utils
  import opened Locations
  import opened Instructions
  import opened Individuals

  /** Grid extent, toroidal flag, cell-data width, memory width and population cap. */
  datatype Configuration = Configuration(
    maxLocation: Location,
    isToroidal: bool,
    dataSize: nat,
    individualMemorySize: nat,
    maxNOfIndividuals: nat)

  /** Cell data, the occupancy count in ceilLog2(maxNOfIndividuals) bits, and the memory. */
  function InstructionInputSize(configuration: Configuration): nat
    requires configuration.maxNOfIndividuals >= 1
  {
    configuration.dataSize + Width(configuration.maxNOfIndividuals) + configuration.individualMemorySize
  }

  /** New cell data and new memory. */
  function InstructionOutputSize(configuration: Configuration): nat
  {
    configuration.dataSize + configuration.individualMemorySize
  }

  /** The width check of the environment constructor: the input width of an instruction is the
      width its lookup demands (ceilLog2 of the table size), its output width is the width of its
      first entry; an empty table fails the check. */
  predicate Fits(configuration: Configuration, instruction: Instruction)
    requires configuration.maxNOfIndividuals >= 1
  {
    |instruction.semantics| >= 1 &&
    InputSize(instruction) == InstructionInputSize(configuration) &&
    IoSize(instruction) == Some(InstructionOutputSize(configuration))
  }

  datatype Environment = Environment(configuration: Configuration, instructions: seq<Instruction>)

  /** The constructor: fails at the first instruction whose widths differ from the ones the
      configuration derives. */
  method NewEnvironment(configuration: Configuration, instructions: seq<Instruction>)
    returns (r: Option<Environment>)
    requires configuration.maxNOfIndividuals >= 1
    ensures r.Some? <==> forall i :: 0 <= i < |instructions| ==> Fits(configuration, instructions[i])
    ensures r.Some? ==> r.value == Environment(configuration, instructions)
  {
    for i := 0 to |instructions|
      invariant forall j :: 0 <= j < i ==> Fits(configuration, instructions[j])
    {
      var instruction := instructions[i];
      if |instruction.semantics| == 0
        || Width(|instruction.semantics|) != InstructionInputSize(configuration)
        || |instruction.semantics[0]| != InstructionOutputSize(configuration)
      {
        return None;
      }
    }
    return Some(Environment(configuration, instructions));
  }

  /** The input width always exceeds the output width, by ceilLog2(maxNOfIndividuals) >= 1 bits. */
  lemma InputExceedsOutput(configuration: Configuration)
    requires configuration.maxNOfIndividuals >= 1
    ensures InstructionInputSize(configuration) >= InstructionOutputSize(configuration) + 1
  {
  }

  /** As written, no instruction the canonical constructor accepts fits any configuration: a
      self-describing table has equal input and output widths, which the configuration never has. */
  lemma NoSelfDescribingInstructionFits(configuration: Configuration, instruction: Instruction)
    requires configuration.maxNOfIndividuals >= 1
    ensures !(SelfDescribing(instruction.semantics) && Fits(configuration, instruction))
  {
    InputExceedsOutput(configuration);
  }

  /** The driver's configuration (a 64 x 64 grid, 4 data bits, 3 memory bits, at most 100
      individuals) and its instructions, decoded from 2-dimensional encodings with ioSize 7. */
  const DriverConfiguration := Configuration(Location([64, 64]), false, 4, 3, 100)

  lemma DriverInstructionsDoNotFit(bits: BitString)
    requires Decode(2, 7, bits).Some?
    ensures !Fits(DriverConfiguration, Decode(2, 7, bits).value)
  {
    assert Width(100) == 7;
  }

  /** The tables the engine can run: 2^inputSize entries of outputSize bits. Such an instruction
      passes every constructor check except the self-describing one, and fits. */
  function CompatibleInstruction(configuration: Configuration, continuation: Continuation, movements: seq<Movement>)
    : (r: Instruction)
    requires configuration.maxNOfIndividuals >= 1
    ensures TableValid(r) && Fits(configuration, r)
    ensures r.continuation == continuation && r.movements == movements
  {
    var input := InstructionInputSize(configuration);
    WidthOfPow2(input);
    Instruction(continuation, movements,
      seq(Pow2(input), _ => seq(InstructionOutputSize(configuration), _ => false)))
  }

  /** A coordinate brought back into [0, bound): wrapped to the other edge on a torus, clamped
      to the near edge otherwise. */
  function Coord(i: int, bound: int, toroidal: bool): (r: int)
    ensures bound >= 1 ==> 0 <= r < bound
    ensures 0 <= i < bound ==> r == i
  {
    if i < 0 then (if toroidal then bound - 1 else 0)
    else if i >= bound then (if toroidal then 0 else bound - 1)
    else i
  }

  function Delta(m: Movement): int
  {
    match m
    case Stay => 0
    case Decrease => -1
    case Increase => 1
  }

  /** The coordinates after one movement per dimension. */
  function Moved(c: seq<int>, movements: seq<Movement>, bound: seq<int>, toroidal: bool): (r: seq<int>)
    requires |movements| == |c| && |bound| >= |c|
    ensures |r| == |c|
    ensures |bound| == |c| && AllPositive(bound) ==> InBounds(r, bound)
  {
    seq(|c|, i requires 0 <= i < |c| => Coord(c[i] + Delta(movements[i]), bound[i], toroidal))
  }

  /** Staying keeps an in-bound coordinate; moving off an edge clamps on a bounded grid and
      wraps on a torus. */
  lemma MovedAt(c: seq<int>, movements: seq<Movement>, bound: seq<int>, toroidal: bool, i: nat)
    requires |movements| == |c| == |bound| && i < |c| && 0 <= c[i] < bound[i]
    ensures movements[i] == Stay ==> Moved(c, movements, bound, toroidal)[i] == c[i]
    ensures movements[i] == Decrease && c[i] == 0 ==>
      Moved(c, movements, bound, toroidal)[i] == if toroidal then bound[i] - 1 else 0
    ensures movements[i] == Increase && c[i] == bound[i] - 1 ==>
      Moved(c, movements, bound, toroidal)[i] == if toroidal then 0 else bound[i] - 1
  {
  }

  /** Copies the coordinates and moves each one; fails when the number of movements is not
      the number of dimensions, or when the bound has fewer coordinates than the location. */
  method Update(location: Location, movements: seq<Movement>, maxLocation: Location, toroidal: bool)
    returns (r: Option<Location>)
    ensures r.None? <==> |movements| != |location.coords| || |maxLocation.coords| < |location.coords|
    ensures r.Some? ==> r.value.coords == Moved(location.coords, movements, maxLocation.coords, toroidal)
  {
    var n := |location.coords|;
    if |movements| != n {
      return None;
    }
    var coords := new int[n](i requires 0 <= i < n => location.coords[i]);
    for i := 0 to n
      invariant i <= |maxLocation.coords|
      invariant forall j :: 0 <= j < i ==>
        coords[j] == Coord(location.coords[j] + Delta(movements[j]), maxLocation.coords[j], toroidal)
      invariant forall j :: i <= j < n ==> coords[j] == location.coords[j]
    {
      if i >= |maxLocation.coords| {
        return None;
      }
      coords[i] := match movements[i]
        case Decrease => Coord(coords[i] - 1, maxLocation.coords[i], toroidal)
        case Increase => Coord(coords[i] + 1, maxLocation.coords[i], toroidal)
        case Stay => Coord(coords[i], maxLocation.coords[i], toroidal);
    }
    r := Some(Location(coords[..]));
  }

  /** Integer halving as the JVM does it: the quotient is truncated toward zero. */
  function Half(c: int): (r: int)
    ensures c >= 0 ==> 0 <= 2 * r <= c < 2 * r + 2
    ensures c < 0 ==> 2 * r - 2 < c <= 2 * r <= 0
  {
    if c >= 0 then c / 2 else -((-c) / 2)
  }

  /** The birthplace of the first individual: every coordinate of the bound halved. */
  function Center(bound: seq<int>): (r: seq<int>)
    ensures |r| == |bound|
  {
    seq(|bound|, i requires 0 <= i < |bound| => Half(bound[i]))
  }

  /** The centre of the grid lies on it exactly when every bound is positive. */
  lemma CenterWithin(bound: seq<int>)
    ensures InBounds(Center(bound), bound) <==> AllPositive(bound)
  {
    var c := Center(bound);
    if !AllPositive(bound) {
      var i :| 0 <= i < |bound| && bound[i] < 1;
      assert !(0 <= c[i] < bound[i]);
    }
  }

  /** The validation of a state: every data key within the grid, every in-bound location with an
      entry (the enumeration fails, and so the check, on a 0-dimensional grid), every individual
      within the grid and with a memory of the configured width. */
  predicate CheckState(configuration: Configuration, data: map<Location, BitString>, individuals: seq<Snapshot>)
  {
    var bound := configuration.maxLocation;
    (forall l :: l in data ==> Within(l, bound)) &&
    Enumerate(bound).Some? &&
    (forall l :: l in Enumerate(bound).value ==> l in data) &&
    (forall s :: s in individuals ==> Within(s.location, bound)) &&
    (forall s :: s in individuals ==> |s.memory| == configuration.individualMemorySize)
  }

  /** A state passes the check exactly when its data covers the in-bound locations and nothing
      else, on a grid of at least one dimension, and its individuals are in bounds with memories
      of the configured width. */
  lemma CheckStateMeans(configuration: Configuration, data: map<Location, BitString>, individuals: seq<Snapshot>)
    ensures CheckState(configuration, data, individuals) <==>
      |configuration.maxLocation.coords| >= 1 &&
      (forall l :: l in data <==> Within(l, configuration.maxLocation)) &&
      (forall s :: s in individuals ==>
        Within(s.location, configuration.maxLocation) && |s.memory| == configuration.individualMemorySize)
  {
    if |configuration.maxLocation.coords| >= 1 {
      BoundedLocationsExact(configuration.maxLocation);
    }
  }
}
