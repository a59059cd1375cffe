/** The table-driven micro-program: a continuation, one movement per dimension and a lookup
    table; its validation, its flat bit-string layout and its application. */
module Instructions {
  import opened Wrappers
  import opened Utils

  /** What happens to the acting individual; `NoAction` is the source's NONE. */
  datatype Continuation = NoAction | Death | Replication

  datatype Movement = Stay | Decrease | Increase

  /** The constants in declaration order, as `values()` lists them. */
  const Continuations: seq<Continuation> := [NoAction, Death, Replication]
  const Movements: seq<Movement> := [Stay, Decrease, Increase]

  /** The bits one selector takes: ceilLog2 of the number of constants. */
  const SelectorWidth: nat := 2

  lemma SelectorWidthIsCeilLog2()
    ensures Width(|Continuations|) == SelectorWidth && Width(|Movements|) == SelectorWidth
  {
  }

  function ContinuationOrdinal(c: Continuation): nat
  {
    match c
    case NoAction => 0
    case Death => 1
    case Replication => 2
  }

  function MovementOrdinal(m: Movement): nat
  {
    match m
    case Stay => 0
    case Decrease => 1
    case Increase => 2
  }

  /** The constant with ordinal `index`, or the first constant when `index` is out of range. */
  function EnumAt<E>(values: seq<E>, index: nat): E
    requires |values| >= 1
  {
    if index >= |values| then values[0] else values[index]
  }

  /** Decoding an ordinal gives the constant back; a selector past the last constant folds to
      the first constant instead of failing. */
  lemma EnumAtOrdinals(c: Continuation, m: Movement, index: nat)
    ensures EnumAt(Continuations, ContinuationOrdinal(c)) == c
    ensures EnumAt(Movements, MovementOrdinal(m)) == m
    ensures index >= 3 ==> EnumAt(Continuations, index) == NoAction && EnumAt(Movements, index) == Stay
  {
  }

  datatype Instruction = Instruction(
    continuation: Continuation,
    movements: seq<Movement>,
    semantics: seq<BitString>)

  /** At least one entry, all of the same width. */
  predicate UniformWidth(semantics: seq<BitString>)
  {
    |semantics| >= 1 && forall i :: 0 <= i < |semantics| ==> |semantics[i]| == |semantics[0]|
  }

  /** The entry width equals the width needed to index the table. */
  predicate SelfDescribing(semantics: seq<BitString>)
  {
    |semantics| >= 1 && |semantics[0]| == Width(|semantics|)
  }

  /** The table checks other than the self-describing one: a power-of-two number of entries,
      all of one width. */
  predicate TableValid(instruction: Instruction)
  {
    UniformWidth(instruction.semantics) && IsPowerOfTwo(|instruction.semantics|)
  }

  /** The canonical constructor: fails unless the table size is a power of two (an empty table
      fails too, as 2^ceilLog2(0) overflows), the entries share one width, and that width is
      ceilLog2 of the table size. */
  function Make(continuation: Continuation, movements: seq<Movement>, semantics: seq<BitString>)
    : (r: Option<Instruction>)
    ensures r.Some? ==> r.value == Instruction(continuation, movements, semantics)
    ensures r.Some? ==> (|semantics| >= 1 && |semantics| == Pow2(|semantics[0]|) &&
      forall i :: 0 <= i < |semantics| ==> |semantics[i]| == |semantics[0]|)
  {
    if |semantics| == 0 then None
    else if !IsPowerOfTwo(|semantics|) then None
    else if !UniformWidth(semantics) then None
    else if |semantics[0]| != Width(|semantics|) then None
    else Some(Instruction(continuation, movements, semantics))
  }

  /** What the canonical constructor accepts: a valid, self-describing table. */
  lemma MakeAccepts(continuation: Continuation, movements: seq<Movement>, semantics: seq<BitString>)
    ensures Make(continuation, movements, semantics).Some? <==>
      TableValid(Instruction(continuation, movements, semantics)) && SelfDescribing(semantics)
  {
  }

  /** A one-entry table is rejected: ceilLog2(1) is 1, so 1 does not count as a power of two. */
  lemma MakeRejectsSingleEntry(continuation: Continuation, movements: seq<Movement>, entry: BitString)
    ensures Make(continuation, movements, [entry]).None?
  {
    assert Width(1) == 1;
  }

  /** The width `apply` demands of its input. */
  function InputSize(instruction: Instruction): nat
    requires |instruction.semantics| >= 1
  {
    Width(|instruction.semantics|)
  }

  /** The width of the first entry; fails on an empty table. */
  function IoSize(instruction: Instruction): (r: Option<nat>)
    ensures r.Some? <==> |instruction.semantics| >= 1
    ensures r.Some? && TableValid(instruction) ==>
      forall i :: 0 <= i < |instruction.semantics| ==> |instruction.semantics[i]| == r.value
  {
    if |instruction.semantics| == 0 then None else Some(|instruction.semantics[0]|)
  }

  /** Direct lookup: the input, read as a number, indexes the table. Fails on an input of the
      wrong width and on an index past the table. */
  function Apply(instruction: Instruction, input: BitString): (r: Option<BitString>)
    ensures r.Some? ==> r.value in instruction.semantics
    ensures r.Some? ==> |input| == InputSize(instruction)
  {
    var semantics := instruction.semantics;
    if |semantics| == 0 || |input| != Width(|semantics|) || Value(input) >= |semantics| then None
    else Some(semantics[Value(input)])
  }

  /** On a valid table, every input of the demanded width selects entry Value(input), whose
      width is the common entry width. */
  lemma ApplyTotal(instruction: Instruction, input: BitString)
    requires TableValid(instruction) && |input| == InputSize(instruction)
    ensures Apply(instruction, input) == Some(instruction.semantics[Value(input)])
    ensures |Apply(instruction, input).value| == |instruction.semantics[0]|
  {
  }

  /** The number of bits of an encoded instruction over `nOfDimensions` dimensions with a table
      of 2^ioSize entries of ioSize bits. */
  function Size(nOfDimensions: nat, ioSize: nat): (r: nat)
    ensures r == SelectorWidth + nOfDimensions * SelectorWidth + Pow2(ioSize) * ioSize
  {
    SelectorWidthIsCeilLog2();
    Width(|Continuations|) + nOfDimensions * Width(|Movements|) + Pow2(ioSize) * ioSize
  }

  lemma {:induction false} MulMonotone(a: nat, b: nat, c: nat)
    requires a <= b
    ensures a * c <= b * c
  {
    if a < b {
      MulMonotone(a, b - 1, c);
      assert b * c == (b - 1) * c + c;
    }
  }

  /** Entry t of the table lies inside an encoding of length Size(d, io). */
  lemma EntryBound(d: nat, io: nat, t: nat)
    requires t < Pow2(io)
    ensures SelectorWidth + d * SelectorWidth + (t + 1) * io <= Size(d, io)
  {
    MulMonotone(t + 1, Pow2(io), io);
  }

  /** Slot t of a run of `width`-bit slots that starts at `offset`. */
  function Slot(bits: BitString, offset: nat, width: nat, t: nat): (r: BitString)
    requires offset + (t + 1) * width <= |bits|
    ensures |r| == width
  {
    assert (t + 1) * width == t * width + width;
    bits[offset + t * width..offset + (t + 1) * width]
  }

  /** The movement selectors, two bits each from bit 2 on. */
  function DecodeMovements(bits: BitString, d: nat): (r: seq<Movement>)
    requires SelectorWidth + d * SelectorWidth <= |bits|
    ensures |r| == d
  {
    seq(d, i requires 0 <= i < d => EnumAt(Movements, Value(Slot(bits, SelectorWidth, SelectorWidth, i))))
  }

  /** The 2^io table entries of io bits each, from bit 2 + 2d on. */
  function DecodeTable(bits: BitString, d: nat, io: nat): (r: seq<BitString>)
    requires |bits| == Size(d, io)
    ensures |r| == Pow2(io)
    ensures forall t :: 0 <= t < |r| ==> |r[t]| == io
  {
    seq(Pow2(io), t requires 0 <= t < Pow2(io) =>
      EntryBound(d, io, t);
      Slot(bits, SelectorWidth + d * SelectorWidth, io, t))
  }

  /** The decoder behind the bit-string constructor: the continuation selector in bits [0, 2),
      movement i in [2 + 2i, 4 + 2i), table entry t in the io bits from 2 + 2d + t * io; then the
      canonical constructor's checks. */
  function Decode(d: nat, io: nat, bits: BitString): Option<Instruction>
  {
    if |bits| != Size(d, io) then None
    else
      assert Pow2(io) * io >= 0;
      Make(EnumAt(Continuations, Value(bits[0..SelectorWidth])), DecodeMovements(bits, d), DecodeTable(bits, d, io))
  }

  /** The bit-string constructor decodes a well-sized input with io >= 1 and rejects every
      other input: a wrong length, or io == 0, whose one-entry table is no power of two. */
  lemma DecodeSucceeds(d: nat, io: nat, bits: BitString)
    ensures Decode(d, io, bits).Some? <==> |bits| == Size(d, io) && io >= 1
  {
    if |bits| == Size(d, io) {
      var table := DecodeTable(bits, d, io);
      if io >= 1 {
        WidthOfPow2(io);
        assert UniformWidth(table);
      } else {
        assert |table| == 1 && Width(1) == 1;
      }
    }
  }

  /** Reads the d movement selectors from bit 2 on, advancing a cursor two bits at a time. */
  method ReadMovements(bitString: BitString, nOfDimensions: nat) returns (lMovements: seq<Movement>)
    requires SelectorWidth + nOfDimensions * SelectorWidth <= |bitString|
    ensures lMovements == DecodeMovements(bitString, nOfDimensions)
  {
    var j := SelectorWidth;
    lMovements := [];
    for i := 0 to nOfDimensions
      invariant j == SelectorWidth + i * SelectorWidth
      invariant |lMovements| == i
      invariant forall h :: 0 <= h < i ==>
        lMovements[h] == EnumAt(Movements, Value(Slot(bitString, SelectorWidth, SelectorWidth, h)))
    {
      var index := BitStringToInt(bitString[j..j + SelectorWidth]);
      assert bitString[j..j + SelectorWidth] == Slot(bitString, SelectorWidth, SelectorWidth, i);
      lMovements := lMovements + [EnumAt(Movements, index)];
      j := j + SelectorWidth;
    }
  }

  /** Reads the 2^ioSize table entries of ioSize bits each that follow the selectors. */
  method ReadTable(bitString: BitString, nOfDimensions: nat, ioSize: nat) returns (lSemantics: seq<BitString>)
    requires |bitString| == Size(nOfDimensions, ioSize)
    ensures lSemantics == DecodeTable(bitString, nOfDimensions, ioSize)
  {
    var offset := SelectorWidth + nOfDimensions * SelectorWidth;
    var j := offset;
    lSemantics := [];
    var count := Pow2(ioSize);
    for i := 0 to count
      invariant j == offset + i * ioSize
      invariant |lSemantics| == i
      invariant forall t :: 0 <= t < i ==> lSemantics[t] == DecodeTable(bitString, nOfDimensions, ioSize)[t]
    {
      EntryBound(nOfDimensions, ioSize, i);
      assert (i + 1) * ioSize == i * ioSize + ioSize;
      lSemantics := lSemantics + [bitString[j..j + ioSize]];
      j := j + ioSize;
    }
  }

  /** Checks the length, then reads the continuation selector, the movements and the table. */
  method FromBitString(nOfDimensions: nat, ioSize: nat, bitString: BitString)
    returns (r: Option<Instruction>)
    ensures r == Decode(nOfDimensions, ioSize, bitString)
  {
    var expectedSize := Size(nOfDimensions, ioSize);
    if |bitString| != expectedSize {
      return None;
    }
    var index := BitStringToInt(bitString[0..SelectorWidth]);
    var lContinuation := EnumAt(Continuations, index);
    assert Pow2(ioSize) * ioSize >= 0;
    var lMovements := ReadMovements(bitString, nOfDimensions);
    var lSemantics := ReadTable(bitString, nOfDimensions, ioSize);
    r := Make(lContinuation, lMovements, lSemantics);
  }

  /** The selector bits of a constant. */
  function Selector(ordinal: nat): (r: BitString)
    ensures |r| == SelectorWidth
  {
    SelectorWidthIsCeilLog2();
    IntToBitString(ordinal, |Continuations|)
  }

  /** The pieces of the encoding: the continuation selector, a selector per movement, then the
      table entries in order. */
  function Chunks(instruction: Instruction): seq<BitString>
  {
    [Selector(ContinuationOrdinal(instruction.continuation))]
    + seq(|instruction.movements|, i requires 0 <= i < |instruction.movements| =>
          Selector(MovementOrdinal(instruction.movements[i])))
    + instruction.semantics
  }

  function Encode(instruction: Instruction): BitString
  {
    Flatten(Chunks(instruction))
  }

  /** Fills an array of chunks and concatenates it. */
  method ToBitString(instruction: Instruction) returns (r: BitString)
    ensures r == Encode(instruction)
  {
    var movements, semantics := instruction.movements, instruction.semantics;
    var chunks := new BitString[1 + |movements| + |semantics|];
    chunks[0] := Selector(ContinuationOrdinal(instruction.continuation));
    for i := 0 to |movements|
      invariant chunks[0] == Selector(ContinuationOrdinal(instruction.continuation))
      invariant forall h :: 0 <= h < i ==> (chunks[1 + h] == Selector(MovementOrdinal(movements[h])))
    {
      chunks[1 + i] := Selector(MovementOrdinal(movements[i]));
    }
    var j := 1 + |movements|;
    for i := 0 to |semantics|
      invariant chunks[0] == Selector(ContinuationOrdinal(instruction.continuation))
      invariant forall h :: 0 <= h < |movements| ==> (chunks[1 + h] == Selector(MovementOrdinal(movements[h])))
      invariant forall h :: 0 <= h < i ==> (chunks[j + h] == semantics[h])
    {
      chunks[j + i] := semantics[i];
    }
    assert chunks[..] == Chunks(instruction);
    r := Concat(chunks[..]);
  }

  lemma {:induction false} UniformTotalLength(pieces: seq<BitString>, w: nat)
    requires forall i :: 0 <= i < |pieces| ==> |pieces[i]| == w
    ensures TotalLength(pieces) == |pieces| * w
  {
    if pieces != [] {
      UniformTotalLength(pieces[1..], w);
      assert |pieces| * w == (|pieces| - 1) * w + w;
    }
  }

  /** The encoding of an instruction whose entries share width w has 2 + 2d + |table| * w bits:
      for an instruction the canonical constructor accepts, Size(d, ioSize()). */
  lemma EncodeLength(instruction: Instruction)
    requires UniformWidth(instruction.semantics)
    ensures |Encode(instruction)| == SelectorWidth + |instruction.movements| * SelectorWidth
      + |instruction.semantics| * |instruction.semantics[0]|
    ensures Make(instruction.continuation, instruction.movements, instruction.semantics).Some? ==>
      |Encode(instruction)| == Size(|instruction.movements|, IoSize(instruction).value)
  {
    var chunks := Chunks(instruction);
    var d := |instruction.movements|;
    TotalLengthSplit(chunks, 1 + d);
    UniformTotalLength(chunks[..1 + d], SelectorWidth);
    assert chunks[1 + d..] == instruction.semantics;
    UniformTotalLength(instruction.semantics, |instruction.semantics[0]|);
  }

  /** Where chunk j starts: selectors are 2 bits, entries w bits. */
  lemma ChunkOffset(instruction: Instruction, j: nat)
    requires UniformWidth(instruction.semantics)
    requires j <= |Chunks(instruction)|
    ensures j <= 1 + |instruction.movements| ==> Offset(Chunks(instruction), j) == j * SelectorWidth
    ensures j > 1 + |instruction.movements| ==> (Offset(Chunks(instruction), j) ==
      (1 + |instruction.movements|) * SelectorWidth + (j - 1 - |instruction.movements|) * |instruction.semantics[0]|)
  {
    var chunks := Chunks(instruction);
    var d := |instruction.movements|;
    var prefix := chunks[..j];
    if j <= 1 + d {
      UniformTotalLength(prefix, SelectorWidth);
    } else {
      TotalLengthSplit(prefix, 1 + d);
      assert prefix[..1 + d] == chunks[..1 + d];
      UniformTotalLength(chunks[..1 + d], SelectorWidth);
      assert prefix[1 + d..] == instruction.semantics[..j - 1 - d];
      UniformTotalLength(instruction.semantics[..j - 1 - d], |instruction.semantics[0]|);
    }
  }

  /** The bits of chunk j, read back out of the encoding. */
  lemma ChunkAt(instruction: Instruction, j: nat)
    requires UniformWidth(instruction.semantics) && j < |Chunks(instruction)|
    ensures Offset(Chunks(instruction), j) + |Chunks(instruction)[j]| <= |Encode(instruction)|
    ensures Encode(instruction)[Offset(Chunks(instruction), j)..Offset(Chunks(instruction), j) + |Chunks(instruction)[j]|]
      == Chunks(instruction)[j]
  {
    SliceOfFlatten(Chunks(instruction), j);
  }

  lemma SelectorValue(ordinal: nat)
    requires ordinal < 3
    ensures Value(Selector(ordinal)) == ordinal
  {
    SelectorWidthIsCeilLog2();
    assert Pow2(2) == 4;
  }

  lemma EncodedContinuation(instruction: Instruction)
    requires UniformWidth(instruction.semantics)
    ensures |Encode(instruction)| >= SelectorWidth
    ensures EnumAt(Continuations, Value(Encode(instruction)[0..SelectorWidth])) == instruction.continuation
  {
    ChunkOffset(instruction, 0);
    ChunkAt(instruction, 0);
    SelectorValue(ContinuationOrdinal(instruction.continuation));
  }

  lemma EncodedMovements(instruction: Instruction)
    requires UniformWidth(instruction.semantics)
    ensures |Encode(instruction)| >= SelectorWidth + |instruction.movements| * SelectorWidth
    ensures DecodeMovements(Encode(instruction), |instruction.movements|) == instruction.movements
  {
    var d := |instruction.movements|;
    var bits := Encode(instruction);
    var chunks := Chunks(instruction);
    EncodeLength(instruction);
    forall i | 0 <= i < d
      ensures EnumAt(Movements, Value(Slot(bits, SelectorWidth, SelectorWidth, i))) == instruction.movements[i]
    {
      ChunkOffset(instruction, 1 + i);
      ChunkAt(instruction, 1 + i);
      assert chunks[1 + i] == Selector(MovementOrdinal(instruction.movements[i]));
      SelectorValue(MovementOrdinal(instruction.movements[i]));
    }
  }

  lemma EncodedTable(instruction: Instruction, io: nat)
    requires UniformWidth(instruction.semantics)
    requires io == |instruction.semantics[0]| && |instruction.semantics| == Pow2(io)
    ensures |Encode(instruction)| == Size(|instruction.movements|, io)
    ensures DecodeTable(Encode(instruction), |instruction.movements|, io) == instruction.semantics
  {
    var d := |instruction.movements|;
    var bits := Encode(instruction);
    EncodeLength(instruction);
    var table := DecodeTable(bits, d, io);
    forall t | 0 <= t < |table|
      ensures table[t] == instruction.semantics[t]
    {
      EncodedEntry(instruction, io, t);
    }
  }

  lemma EncodedEntry(instruction: Instruction, io: nat, t: nat)
    requires UniformWidth(instruction.semantics)
    requires io == |instruction.semantics[0]| && t < |instruction.semantics|
    ensures SelectorWidth + |instruction.movements| * SelectorWidth + (t + 1) * io <= |Encode(instruction)|
    ensures Slot(Encode(instruction), SelectorWidth + |instruction.movements| * SelectorWidth, io, t)
      == instruction.semantics[t]
  {
    var d := |instruction.movements|;
    var j := 1 + d + t;
    ChunkOffset(instruction, j);
    ChunkAt(instruction, j);
    assert Chunks(instruction)[j] == instruction.semantics[t];
    assert Offset(Chunks(instruction), j) == SelectorWidth + d * SelectorWidth + t * io;
    assert (t + 1) * io == t * io + io;
  }

  /** Round trip: decoding the encoding of an instruction the canonical constructor accepts,
      with its own dimensionality and ioSize(), gives the same continuation, movements and table. */
  lemma DecodeEncode(instruction: Instruction)
    requires Make(instruction.continuation, instruction.movements, instruction.semantics).Some?
    ensures IoSize(instruction).Some?
    ensures Decode(|instruction.movements|, IoSize(instruction).value, Encode(instruction)) == Some(instruction)
  {
    var io := |instruction.semantics[0]|;
    EncodedContinuation(instruction);
    EncodedMovements(instruction);
    EncodedTable(instruction, io);
  }
}
