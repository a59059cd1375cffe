# smpsim-core in Dafny

This project models the simulation engine of smpsim. The engine runs on a grid of cells, each
cell holding a bit string of data. Individuals stand on the grid and each carries a small memory.
At every step each individual works in four stages:

- It reads the data of the cell it stands on.
- It uses the leading bits of that data to select one instruction from a fixed list.
- It feeds the cell data, the occupancy of its location and its memory into the instruction's
  lookup table.
- It writes back a new cell value and a new memory, moves on the grid, and may die or replicate.

Several individuals can write the same cell in one step. The write of the earliest-born individual
wins, and among equally old writers the one visited first wins. Newborns are appended after the
survivors.

The modules follow the Java source:

- `Wrappers`: `Option`. A Java exception is `None`.
- `Utils` (Utils.java): bit strings as `seq<bool>`, least significant bit first. It covers:
  - the integer/bit-string codec and `ceilLog2`;
  - the string rendering;
  - `concat` and `subBitString`.
- `Locations` (Location.java): grid locations, bounds checks, and the mixed-radix enumeration of
  every in-bound location.
- `Individuals` (Individual.java): the individual as a class. Its location and memory are fields
  that the step updates in place. Its birth step is a constant.
- `Instructions` (Instruction.java): the table-driven instruction, covering:
  - its validating constructor;
  - `apply`;
  - the decoding from a flat bit string and the encoding back into one.
- `Environments` (Environment.java except the step): covering:
  - the configuration and the environment constructor's width check;
  - the clamped or toroidal movement of a coordinate;
  - `checkState`;
  - the centre of the grid used by the initial state.
- `Stepping`: a value-level specification of one step over snapshots of the individuals. It gives:
  - the occupancy encodings;
  - the action each individual takes;
  - the write-merge rule;
  - the next cells and the next population.
- `StepProperties`: what that specification guarantees. This includes:
  - the write-conflict rule;
  - survivors and newborns;
  - inertness of the dead;
  - the population cap;
  - preservation of a well-formed state.
- `Engine`: the imperative step and the initial state. It works on `Individual` objects, updates
  them in place, and builds the next state. Each method is proved against the `Stepping` functions.

The engine works in two passes:

1. It decides every individual's action from the pre-step cells, occupancies and memories.
2. It scans the individuals in order, updating each object and the tally of removals, newborns
   and pending writes.

This order matches `Environment.step`. There, each individual reads only:

- the pre-step cell map (writes are deferred to `changedData`);
- the frozen occupancy map;
- its own memory and location, which nothing else changes during the step.

The one thing that depends on the scan order is the population-cap check for replication. The
model keeps it in the scan.

Three behaviours of the code worth stating:

- **Cell data read during a step.** Every individual reads the cell data of the state passed to
  `step`, as Environment.java:114 does. It never sees a value written earlier in the same step.
- **Instruction widths.** Environment.java:44-45 calls `instruction.inputSize()` and
  `instruction.outputSize()`, which Instruction.java does not define. The model reads them as the
  table's index width, `ceilLog2(|semantics|)` (the width `apply` checks), and the common entry
  width.
- **`ceilLog2(1)`.** The value is 1, as the code computes, so `isPowerOfTwo(1)` is false.

## Model

| member | source | states |
|---|---|---|
| Utils.BitStringToInt | io.github.ericmedvet.smpsim.core/src/main/java/io/github/ericmedvet/smpsim/core/Utils.java:29-35 | the loop from the most significant bit computes the value `Σ b[i]·2^i` of the bit string, least significant bit first |
| Utils.IntToSizedBitString | io.github.ericmedvet.smpsim.core/src/main/java/io/github/ericmedvet/smpsim/core/Utils.java:37-43 | the result has exactly `size` bits and bit i is bit i of n (n is truncated to its low `size` bits) |
| Utils.RoundTripInt | io.github.ericmedvet.smpsim.core/src/main/java/io/github/ericmedvet/smpsim/core/Utils.java:37-43 | reading back the `size` bits of any `0 <= n < 2^size` gives n |
| Utils.RoundTripBits | io.github.ericmedvet.smpsim.core/src/main/java/io/github/ericmedvet/smpsim/core/Utils.java:29-35 | encoding the value of a bit string in as many bits as it has gives the bit string back |
| Utils.IntToBitString | io.github.ericmedvet.smpsim.core/src/main/java/io/github/ericmedvet/smpsim/core/Utils.java:45-47 | the result is `ceilLog2(max)` bits wide and encodes n whenever `n < 2^ceilLog2(max)` |
| Utils.CeilLog2 | io.github.ericmedvet.smpsim.core/src/main/java/io/github/ericmedvet/smpsim/core/Utils.java:49-70 | the shift-and-count computation returns `Width(n)`, the least `w >= 1` with `n <= 2^w` |
| Utils.WidthBounds | io.github.ericmedvet.smpsim.core/src/main/java/io/github/ericmedvet/smpsim/core/Utils.java:49-70 | `n <= 2^Width(n)`, and `2^(Width(n)-1) < n` unless the width is 1 |
| Utils.WidthIsLeast | io.github.ericmedvet.smpsim.core/src/main/java/io/github/ericmedvet/smpsim/core/Utils.java:49-70 | no width `1 <= w` smaller than `Width(n)` has `n <= 2^w` |
| Utils.WidthOfPow2 | io.github.ericmedvet.smpsim.core/src/main/java/io/github/ericmedvet/smpsim/core/Utils.java:49-70 | `ceilLog2(2^w) == w` for every `w >= 1` |
| Utils.IsPowerOfTwoIff | io.github.ericmedvet.smpsim.core/src/main/java/io/github/ericmedvet/smpsim/core/Utils.java:72-74 | n passes the check iff `n == 2^w` for some `w >= 1` (so 1 does not) |
| Utils.BitStringToString | io.github.ericmedvet.smpsim.core/src/main/java/io/github/ericmedvet/smpsim/core/Utils.java:76-82 | the loop renders the bits as '0'/'1' characters, most significant first |
| Utils.StringToBitString | io.github.ericmedvet.smpsim.core/src/main/java/io/github/ericmedvet/smpsim/core/Utils.java:84-96 | the loop parses a string of '0'/'1' characters (last character = bit 0) and fails on any other character |
| Utils.ParseRender | io.github.ericmedvet.smpsim.core/src/main/java/io/github/ericmedvet/smpsim/core/Utils.java:76-96 | parsing the rendering of any bit string gives it back |
| Utils.RenderParse | io.github.ericmedvet.smpsim.core/src/main/java/io/github/ericmedvet/smpsim/core/Utils.java:76-96 | a string that parses renders back to itself |
| Utils.Concat | io.github.ericmedvet.smpsim.core/src/main/java/io/github/ericmedvet/smpsim/core/Utils.java:98-107 | the array-copy loop returns the pieces laid end to end |
| Utils.FlattenAt | io.github.ericmedvet.smpsim.core/src/main/java/io/github/ericmedvet/smpsim/core/Utils.java:98-107 | bit t of piece j sits at the sum of the earlier pieces' lengths plus t |
| Utils.SubBitString | io.github.ericmedvet.smpsim.core/src/main/java/io/github/ericmedvet/smpsim/core/Utils.java:109-113 | defined iff `index + length` is within the bit string, and then it is that slice |
| Utils.SliceOfFlatten | io.github.ericmedvet.smpsim.core/src/main/java/io/github/ericmedvet/smpsim/core/Utils.java:109-113 | cutting a concatenation at piece j's offset and length gives piece j back |
| Locations.Origin | io.github.ericmedvet.smpsim.core/src/main/java/io/github/ericmedvet/smpsim/core/Location.java:30-32 | n coordinates, all zero |
| Locations.IsWithin | io.github.ericmedvet.smpsim.core/src/main/java/io/github/ericmedvet/smpsim/core/Location.java:48-60 | fails iff the dimensions differ, otherwise true iff `0 <= coords[i] < bound[i]` for every i |
| Locations.Next | io.github.ericmedvet.smpsim.core/src/main/java/io/github/ericmedvet/smpsim/core/Location.java:62-74 | fails iff there are no coordinates, otherwise it is the mixed-radix successor (carry into the next coordinate) |
| Locations.CarryAt | io.github.ericmedvet.smpsim.core/src/main/java/io/github/ericmedvet/smpsim/core/Location.java:62-74 | the successor zeroes the coordinates that overflow and increments the first one that does not |
| Locations.CarryRank | io.github.ericmedvet.smpsim.core/src/main/java/io/github/ericmedvet/smpsim/core/Location.java:62-74 | the successor of an in-bound location has the next mixed-radix rank |
| Locations.CarryWithin | io.github.ericmedvet.smpsim.core/src/main/java/io/github/ericmedvet/smpsim/core/Location.java:41-44 | the successor stays in bounds iff the rank is not the last one, which ends the enumeration loop |
| Locations.RankBelow | io.github.ericmedvet.smpsim.core/src/main/java/io/github/ericmedvet/smpsim/core/Location.java:38-46 | an in-bound location's rank lies in `[0, Π bound)` |
| Locations.RankInjective | io.github.ericmedvet.smpsim.core/src/main/java/io/github/ericmedvet/smpsim/core/Location.java:38-46 | two in-bound locations with the same rank are equal |
| Locations.EnumFromRanks | io.github.ericmedvet.smpsim.core/src/main/java/io/github/ericmedvet/smpsim/core/Location.java:38-46 | the enumeration from c lists the locations of ranks `rank(c), rank(c)+1, …, Π bound - 1` |
| Locations.OriginRank | io.github.ericmedvet.smpsim.core/src/main/java/io/github/ericmedvet/smpsim/core/Location.java:38-46 | the origin has rank 0 and is in bounds iff every bound is positive |
| Locations.BoundedLocations | io.github.ericmedvet.smpsim.core/src/main/java/io/github/ericmedvet/smpsim/core/Location.java:38-46 | the enumeration loop builds exactly `Enumerate(bound)` (it fails for a 0-dimensional bound) |
| Locations.BoundedLocationsExact | io.github.ericmedvet.smpsim.core/src/main/java/io/github/ericmedvet/smpsim/core/Location.java:38-46 | the enumeration contains a location iff it is in bounds; it has no duplicates; its size is `Π bound` (or 0 when some bound is not positive); element j has rank j |
| Locations.Equals | io.github.ericmedvet.smpsim.core/src/main/java/io/github/ericmedvet/smpsim/core/Location.java:87-93 | equal iff the coordinate sequences are equal, element by element |
| Individuals.Individual.constructor | io.github.ericmedvet.smpsim.core/src/main/java/io/github/ericmedvet/smpsim/core/Individual.java:31-39 | the new individual has the given location, birth step and memory |
| Individuals.Individual.SetLocation | io.github.ericmedvet.smpsim.core/src/main/java/io/github/ericmedvet/smpsim/core/Individual.java:73-75 | the location becomes the argument and the memory is unchanged |
| Individuals.Individual.SetMemory | io.github.ericmedvet.smpsim.core/src/main/java/io/github/ericmedvet/smpsim/core/Individual.java:77-79 | the memory becomes the argument and the location is unchanged |
| Individuals.Individual.Equals | io.github.ericmedvet.smpsim.core/src/main/java/io/github/ericmedvet/smpsim/core/Individual.java:41-54 | equal iff the other is non-null and location, birth step and memory all agree |
| Instructions.SelectorWidthIsCeilLog2 | io.github.ericmedvet.smpsim.core/src/main/java/io/github/ericmedvet/smpsim/core/Instruction.java:121-127 | the selector width `ceilLog2(3)` of both enums is 2 |
| Instructions.EnumAtOrdinals | io.github.ericmedvet.smpsim.core/src/main/java/io/github/ericmedvet/smpsim/core/Instruction.java:129-134 | an ordinal selects its own constant, and an out-of-range index (3) folds to the first constant |
| Instructions.Make | io.github.ericmedvet.smpsim.core/src/main/java/io/github/ericmedvet/smpsim/core/Instruction.java:34-67 | an accepted table has a power-of-two number of entries, all as wide as `ceilLog2` of the table size |
| Instructions.MakeAccepts | io.github.ericmedvet.smpsim.core/src/main/java/io/github/ericmedvet/smpsim/core/Instruction.java:34-67 | the canonical constructor accepts iff the size is a power of two, the widths are uniform and the width is `ceilLog2(size)` |
| Instructions.MakeRejectsSingleEntry | io.github.ericmedvet.smpsim.core/src/main/java/io/github/ericmedvet/smpsim/core/Instruction.java:36-40 | a one-entry table is always rejected, because 1 is not a power of two under `ceilLog2(1) == 1` |
| Instructions.IoSize | io.github.ericmedvet.smpsim.core/src/main/java/io/github/ericmedvet/smpsim/core/Instruction.java:149-151 | defined iff the table is non-empty; for a valid table it is the width of every entry |
| Instructions.Apply | io.github.ericmedvet.smpsim.core/src/main/java/io/github/ericmedvet/smpsim/core/Instruction.java:137-147 | it succeeds only on an input of width `ceilLog2(table size)`, and the output is a table entry |
| Instructions.ApplyTotal | io.github.ericmedvet.smpsim.core/src/main/java/io/github/ericmedvet/smpsim/core/Instruction.java:137-147 | on a valid table and an input of the right width the output is the entry indexed by the input's value |
| Instructions.Size | io.github.ericmedvet.smpsim.core/src/main/java/io/github/ericmedvet/smpsim/core/Instruction.java:121-127 | `2 + 2·d + 2^io·io` bits |
| Instructions.DecodeSucceeds | io.github.ericmedvet.smpsim.core/src/main/java/io/github/ericmedvet/smpsim/core/Instruction.java:69-111 | decoding succeeds iff the bit string is exactly `size(d, io)` bits long and `io >= 1` |
| Instructions.ReadMovements | io.github.ericmedvet.smpsim.core/src/main/java/io/github/ericmedvet/smpsim/core/Instruction.java:93-104 | the loop reads d movement selectors, each 2 bits after the continuation, folding out-of-range ones |
| Instructions.ReadTable | io.github.ericmedvet.smpsim.core/src/main/java/io/github/ericmedvet/smpsim/core/Instruction.java:105-109 | the loop reads `2^io` entries of `io` bits after the movements |
| Instructions.FromBitString | io.github.ericmedvet.smpsim.core/src/main/java/io/github/ericmedvet/smpsim/core/Instruction.java:69-111 | the bit-string constructor returns the decoded instruction, failing on a size mismatch or when the canonical constructor rejects the table |
| Instructions.ToBitString | io.github.ericmedvet.smpsim.core/src/main/java/io/github/ericmedvet/smpsim/core/Instruction.java:153-164 | the result is the concatenation of the continuation selector, the movement selectors and the table entries |
| Instructions.EncodeLength | io.github.ericmedvet.smpsim.core/src/main/java/io/github/ericmedvet/smpsim/core/Instruction.java:153-164 | the encoding is `2 + 2·d + entries·width` bits long, and `size(d, ioSize)` for an accepted instruction |
| Instructions.EncodedContinuation | io.github.ericmedvet.smpsim.core/src/main/java/io/github/ericmedvet/smpsim/core/Instruction.java:85-92 | the first two bits of the encoding select the instruction's continuation |
| Instructions.EncodedMovements | io.github.ericmedvet.smpsim.core/src/main/java/io/github/ericmedvet/smpsim/core/Instruction.java:93-104 | reading the movement selectors from the encoding gives the instruction's movements |
| Instructions.EncodedTable | io.github.ericmedvet.smpsim.core/src/main/java/io/github/ericmedvet/smpsim/core/Instruction.java:105-109 | reading the table from the encoding gives the instruction's table |
| Instructions.EncodedEntry | io.github.ericmedvet.smpsim.core/src/main/java/io/github/ericmedvet/smpsim/core/Instruction.java:105-109 | entry t of the table sits at offset `2 + 2·d + t·io` of the encoding |
| Instructions.DecodeEncode | io.github.ericmedvet.smpsim.core/src/main/java/io/github/ericmedvet/smpsim/core/Instruction.java:153-164 | decoding the encoding of any accepted instruction, with its own dimensionality and ioSize, gives it back |
| Environments.NewEnvironment | io.github.ericmedvet.smpsim.core/src/main/java/io/github/ericmedvet/smpsim/core/Environment.java:39-57 | the constructor succeeds iff every instruction's input and output widths match the configuration's |
| Environments.InputExceedsOutput | io.github.ericmedvet.smpsim.core/src/main/java/io/github/ericmedvet/smpsim/core/Environment.java:188-194 | the configured input width exceeds the output width by at least the occupancy width (at least 1) |
| Environments.NoSelfDescribingInstructionFits | io.github.ericmedvet.smpsim.core/src/main/java/io/github/ericmedvet/smpsim/core/Environment.java:43-45 | no instruction whose entries are as wide as its index (the canonical constructor's rule) passes the environment's width check |
| Environments.DriverInstructionsDoNotFit | io.github.ericmedvet.smpsim.core/src/main/java/io/github/ericmedvet/smpsim/core/Main.java:40-57 | every instruction the driver decodes (2 dimensions, ioSize 7) is rejected by its own 64×64, 4+3-bit, 100-individual configuration |
| Environments.CompatibleInstruction | io.github.ericmedvet.smpsim.core/src/main/java/io/github/ericmedvet/smpsim/core/Environment.java:188-194 | for any configuration, a table of `2^inputWidth` entries of `outputWidth` bits is valid and passes the width check |
| Environments.Coord | io.github.ericmedvet.smpsim.core/src/main/java/io/github/ericmedvet/smpsim/core/Environment.java:59-67 | the result is within `[0, bound)` for a positive bound, and an in-range coordinate is kept |
| Environments.Moved | io.github.ericmedvet.smpsim.core/src/main/java/io/github/ericmedvet/smpsim/core/Environment.java:83-91 | moving keeps the dimension count and lands in bounds whenever every bound is positive |
| Environments.MovedAt | io.github.ericmedvet.smpsim.core/src/main/java/io/github/ericmedvet/smpsim/core/Environment.java:59-91 | STAY keeps a coordinate; stepping off an edge clamps, or wraps around to the opposite edge when toroidal |
| Environments.Update | io.github.ericmedvet.smpsim.core/src/main/java/io/github/ericmedvet/smpsim/core/Environment.java:69-92 | fails iff the movement count differs from the dimension count (or the bound is too short), otherwise returns the moved location |
| Environments.Half | io.github.ericmedvet.smpsim.core/src/main/java/io/github/ericmedvet/smpsim/core/Environment.java:260 | Java's integer halving, which truncates toward zero for negative coordinates |
| Environments.CenterWithin | io.github.ericmedvet.smpsim.core/src/main/java/io/github/ericmedvet/smpsim/core/Environment.java:256-266 | the halved bound is in bounds iff every bound coordinate is positive |
| Environments.CheckStateMeans | io.github.ericmedvet.smpsim.core/src/main/java/io/github/ericmedvet/smpsim/core/Environment.java:196-243 | the check passes iff the cell keys are exactly the in-bound locations, and every individual is in bounds with a memory of the configured width |
| Stepping.WellFormedChecked | io.github.ericmedvet.smpsim.core/src/main/java/io/github/ericmedvet/smpsim/core/Environment.java:196-243 | a well-formed state is one that passes `checkState` and whose cells have the configured width |
| Stepping.CountPositive | io.github.ericmedvet.smpsim.core/src/main/java/io/github/ericmedvet/smpsim/core/Environment.java:102-111 | the count at a location is at least 1 iff some individual stands there |
| Stepping.Occupancies | io.github.ericmedvet.smpsim.core/src/main/java/io/github/ericmedvet/smpsim/core/Environment.java:102-111 | every occupied location has an entry, and each entry is the encoded count of individuals there |
| Stepping.OccupancyEncodes | io.github.ericmedvet.smpsim.core/src/main/java/io/github/ericmedvet/smpsim/core/Environment.java:108 | the occupancy is `ceilLog2(maxN)` bits wide and encodes the count, wrapping to all zeros when the count reaches `maxN = 2^w` |
| Stepping.InstructionIndex | io.github.ericmedvet.smpsim.core/src/main/java/io/github/ericmedvet/smpsim/core/Environment.java:115-118 | the index selected from the leading cell bits, modulo the list size, is a valid instruction index |
| Stepping.ActionOf | io.github.ericmedvet.smpsim.core/src/main/java/io/github/ericmedvet/smpsim/core/Environment.java:113-160 | an individual dies iff its instruction's continuation is DEATH; otherwise it replicates iff REPLICATION, and its new cell and memory are the two parts of the table entry for (cell, occupancy, memory); its new location is the moved one and is in bounds |
| Stepping.DistinctLocations | io.github.ericmedvet.smpsim.core/src/main/java/io/github/ericmedvet/smpsim/core/Environment.java:282-284 | the distinct occupied locations, with no duplicates, no more than there are individuals |
| Stepping.NOfFilledLocations | io.github.ericmedvet.smpsim.core/src/main/java/io/github/ericmedvet/smpsim/core/Environment.java:282-284 | the number of distinct occupied locations; at most the population, and positive iff the population is |
| Stepping.KeptIndexes | io.github.ericmedvet.smpsim.core/src/main/java/io/github/ericmedvet/smpsim/core/Environment.java:163-166 | exactly the indexes below n that were not removed, in ascending order |
| StepProperties.ScanAfter | io.github.ericmedvet.smpsim.core/src/main/java/io/github/ericmedvet/smpsim/core/Environment.java:120-160 | after the scan a dead individual is unchanged and a surviving one carries its action's location and memory |
| StepProperties.ScanRemoved | io.github.ericmedvet.smpsim.core/src/main/java/io/github/ericmedvet/smpsim/core/Environment.java:120-122 | an index is removed iff its action is death |
| StepProperties.ScanPopulation | io.github.ericmedvet.smpsim.core/src/main/java/io/github/ericmedvet/smpsim/core/Environment.java:124-125 | the running population never exceeds the cap when it starts within it |
| StepProperties.ScanAdded | io.github.ericmedvet.smpsim.core/src/main/java/io/github/ericmedvet/smpsim/core/Environment.java:126-132 | every newborn is born at this step, with all-false memory, at the pre-step location of a surviving replicator (the converse, which replicators get a child, is `ScanNewborns`) |
| StepProperties.ParentsExact | io.github.ericmedvet.smpsim.core/src/main/java/io/github/ericmedvet/smpsim/core/Environment.java:124-125 | an index is among the parents iff that individual survives, replicates and is visited while the pre-step population less the deaths plus the children so far is below the cap; the parents are in visit order |
| StepProperties.ScanNewborns | io.github.ericmedvet.smpsim.core/src/main/java/io/github/ericmedvet/smpsim/core/Environment.java:124-133 | after visiting i individuals the removals number the deaths among them, and the newborns are exactly one per parent, in the parents' order, each at its parent's pre-step location, born at this step with all-false memory |
| StepProperties.ScanChanged | io.github.ericmedvet.smpsim.core/src/main/java/io/github/ericmedvet/smpsim/core/Environment.java:147-151 | a location has a pending write iff some visited survivor stood there, and the write kept is that of the earliest-born writer, the first visited among equals |
| StepProperties.ChangedStep | io.github.ericmedvet.smpsim.core/src/main/java/io/github/ericmedvet/smpsim/core/Environment.java:147-151 | one merge keeps the earlier write iff its writer was born no later; otherwise the new write replaces it |
| StepProperties.AssembleSurvivors | io.github.ericmedvet.smpsim.core/src/main/java/io/github/ericmedvet/smpsim/core/Environment.java:163-175 | the head of the next list is exactly the non-dying individuals in their original order, each moved and with its new memory |
| StepProperties.AssembleNewborns | io.github.ericmedvet.smpsim.core/src/main/java/io/github/ericmedvet/smpsim/core/Environment.java:169-175 | the tail of the next list is the newborns, each with a replicating surviving parent at its location |
| StepProperties.AssembleParents | io.github.ericmedvet.smpsim.core/src/main/java/io/github/ericmedvet/smpsim/core/Environment.java:169-175 | the tail of the next list holds exactly one newborn per individual that begets a child, in visit order, at that parent's pre-step location |
| StepProperties.StepSurvivors | io.github.ericmedvet.smpsim.core/src/main/java/io/github/ericmedvet/smpsim/core/Environment.java:163-175 | for a whole step, the survivors head the next population, in order, with their actions' locations and memories |
| StepProperties.StepNewborns | io.github.ericmedvet.smpsim.core/src/main/java/io/github/ericmedvet/smpsim/core/Environment.java:124-133 | for a whole step, the newborns follow the survivors, born at this step with all-false memory at a replicator's pre-step location |
| StepProperties.StepReplication | io.github.ericmedvet.smpsim.core/src/main/java/io/github/ericmedvet/smpsim/core/Environment.java:124-133 | for a whole step, a surviving replicator gets a child iff the running population (pre-step size, less the deaths, plus the children so far) is below the cap when it is visited; the newborns after the survivors are exactly those children, in visit order, each at its parent's pre-step location |
| StepProperties.DeathIsInert | io.github.ericmedvet.smpsim.core/src/main/java/io/github/ericmedvet/smpsim/core/Environment.java:120-123 | an individual that dies is not kept, writes no cell, and its location and memory are left untouched |
| StepProperties.StepPopulation | io.github.ericmedvet.smpsim.core/src/main/java/io/github/ericmedvet/smpsim/core/Environment.java:124-133 | a step from a population within the cap yields one within the cap |
| StepProperties.StepCell | io.github.ericmedvet.smpsim.core/src/main/java/io/github/ericmedvet/smpsim/core/Environment.java:147-168 | a cell no survivor stood on keeps its value; any other holds the value written by the earliest-born writer (first visited among equals) |
| StepProperties.StepDataShape | io.github.ericmedvet.smpsim.core/src/main/java/io/github/ericmedvet/smpsim/core/Environment.java:167-168 | the next cell map has the same keys, each cell of the configured width |
| StepProperties.AssembleInBounds | io.github.ericmedvet.smpsim.core/src/main/java/io/github/ericmedvet/smpsim/core/Environment.java:152-160 | every individual of the next list is in bounds with a memory of the configured width |
| StepProperties.StepWellFormed | io.github.ericmedvet.smpsim.core/src/main/java/io/github/ericmedvet/smpsim/core/Environment.java:94-178 | a step maps a well-formed state to a well-formed state |
| Engine.Select | io.github.ericmedvet.smpsim.core/src/main/java/io/github/ericmedvet/smpsim/core/Environment.java:114-118 | the instruction selected by the cell's leading `ceilLog2(|instructions|)` bits, modulo the list size |
| Engine.Run | io.github.ericmedvet.smpsim.core/src/main/java/io/github/ericmedvet/smpsim/core/Environment.java:135-146 | the new cell and new memory are the two parts of the entry indexed by cell ++ occupancy ++ memory |
| Engine.Decide | io.github.ericmedvet.smpsim.core/src/main/java/io/github/ericmedvet/smpsim/core/Environment.java:113-146 | the action computed for individual i is the one the step specification assigns it |
| Engine.Decisions | io.github.ericmedvet.smpsim.core/src/main/java/io/github/ericmedvet/smpsim/core/Environment.java:102-146 | the loop computes every individual's action on the pre-step state, with the frozen occupancy map |
| Engine.Visit | io.github.ericmedvet.smpsim.core/src/main/java/io/github/ericmedvet/smpsim/core/Environment.java:119-160 | visiting individual i records its death, newborn and merged write and updates its memory and location in place, as `Process` does |
| Engine.Scan | io.github.ericmedvet.smpsim.core/src/main/java/io/github/ericmedvet/smpsim/core/Environment.java:112-161 | after the loop the objects, removals, fresh newborns and pending writes are those of the full tally |
| Engine.Gather | io.github.ericmedvet.smpsim.core/src/main/java/io/github/ericmedvet/smpsim/core/Environment.java:163-175 | the next list is the kept objects (the same objects, in order) followed by the newborns |
| Engine.Step | io.github.ericmedvet.smpsim.core/src/main/java/io/github/ericmedvet/smpsim/core/Environment.java:94-178 | the step fails iff there is someone to visit and no instruction can be selected; otherwise it advances k, applies the winning writes, moves the survivors in place and lists survivors then fresh newborns, all as in the step specification; the next list again holds pairwise distinct objects, so it can be stepped again |
| Engine.Fill | io.github.ericmedvet.smpsim.core/src/main/java/io/github/ericmedvet/smpsim/core/Environment.java:248-255 | every enumerated location gets exactly one supplied cell, in enumeration order |
| Engine.FirstStateChecked | io.github.ericmedvet.smpsim.core/src/main/java/io/github/ericmedvet/smpsim/core/Environment.java:245-271 | the first state passes `checkState` iff every bound coordinate is positive |
| Engine.InitialState | io.github.ericmedvet.smpsim.core/src/main/java/io/github/ericmedvet/smpsim/core/Environment.java:245-271 | it fails iff the grid has no dimension or a non-positive bound; otherwise k is 0, every in-bound location holds a supplied cell, and one fresh individual, born at step 0, stands at the centre with all-false memory |

## Left out

- Integer widths: Java `int` and `long` arithmetic is unbounded here. This covers the step counter, the `1 << i` and `n << 1` shifts, `Math.powExact` overflow, and `n.intValue()` on population counts.
- Utils.CeilLog2: requires `1 <= n < 2^31`. The Java shift trick also returns values for 0 and negative inputs, and those are not modelled.
- Utils.IntToSizedBitString: takes a natural number. The sign-bit behaviour of a negative `int` is not modelled.
- Environments.NewEnvironment: the configuration must allow at least one individual. Java computes `ceilLog2(0)` there.
- Engine.Step: the state must be well formed (it passes `checkState`) and its individual objects distinct. `initialState` establishes both. `Engine.Step` ensures the distinctness again, and `StepProperties.StepWellFormed` the well-formedness.
- Engine.Step: every cell must have the configured width. Java never checks this: `initialState` stores whatever the supplier returns. A narrower cell makes `subBitString` or `apply` throw in the middle of a step.
- Engine.Step: every instruction must have a valid table whose widths fit the configuration. The Java instruction and environment constructors check this.
- Engine.Step: every instruction must carry exactly one movement per grid dimension (the `|movements| == |maxLocation.coords|` conjunct of `Stepping.Runnable`). No Java code checks this. A wrong count makes `update` (Environment.java:75-82) throw in the middle of `step`, after earlier individuals were already changed in place. Only a DEATH instruction, which never reaches `update`, may have a wrong count without failing. The model does not capture that mid-step failure or the partial updates it leaves.
- Engine.Step: the `None` result covers only an empty instruction list or cells too narrow to select an instruction. Those make Java throw before any change, so the model leaves the objects untouched on that path.
- Engine.Decisions: each individual's action is computed in a first pass over the pre-step values. This is equivalent to Java's single loop, because an action depends only on values the loop does not change.
- Object identity and aliasing: only the individuals' fields are heap state. Memory arrays and the cell map are values, so two individuals sharing one Java `boolean[]` are not modelled.
- `Engine.InitialState`: the data supplier is modelled as a function of the enumeration index and the width. The randomness behind `Utils.randomBitString` and `Instruction.random` is left out.
- `State.nOfFilledLocations` is modelled on the individuals' snapshots (`Stepping.NOfFilledLocations`), not as a function reading the objects.
- `toString`, `hashCode` and exception messages are not modelled. Exceptions become `None`.
- `StateDrawer` (rendering and video) and `Main` (the run loop and printing) are not modelled. Only the driver's configuration appears, in `Environments.DriverConfiguration`.

## Findings

| source | as written | input that shows it | evidently intended | confidence | as-written member | corrected member |
|---|---|---|---|---|---|---|
| io.github.ericmedvet.smpsim.core/src/main/java/io/github/ericmedvet/smpsim/core/Instruction.java:59-66 | The canonical constructor requires every table entry to be `ceilLog2(table size)` bits wide. The environment (Environment.java:43-45, 188-194) requires a table of `2^(data + ceilLog2(maxN) + memory)` entries, each `data + memory` bits wide. Both cannot hold, because the input width is at least one bit wider than the output width. | The driver's configuration: a 64×64 grid, 4 data bits, 3 memory bits and at most 100 individuals. Its instructions have 2^7 entries of 7 bits, but the environment needs 2^14 entries of 7 bits, so every one is rejected. | Entries as wide as the configured output, in a table indexed by the configured input width: the independent-width form the step engine uses. | not executed | Environments.NoSelfDescribingInstructionFits, Environments.DriverInstructionsDoNotFit | Environments.CompatibleInstruction |
