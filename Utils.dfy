/** Bit strings and the integer, width and text conversions built on them. */
module Utils {
  import opened Wrappers

  /** A bit string; read as a number, bit i weighs 2^i (least significant first). */
  type BitString = seq<bool>

  function Pow2(w: nat): (r: nat)
    ensures r >= 1
  {
    if w == 0 then 1 else 2 * Pow2(w - 1)
  }

  lemma {:induction false} Pow2Monotone(v: nat, w: nat)
    requires v <= w
    ensures Pow2(v) <= Pow2(w)
  {
    if v < w {
      Pow2Monotone(v, w - 1);
    }
  }

  function BitValue(b: bool): nat
  {
    if b then 1 else 0
  }

  /** The number a bit string denotes, least significant bit first. */
  function Value(b: BitString): (n: nat)
    ensures n < Pow2(|b|)
  {
    if b == [] then 0 else BitValue(b[0]) + 2 * Value(b[1..])
  }

  /** Bit i of n, as `(n & (1 << i)) != 0` reads it for non-negative n: the lowest bit of n
      after i halvings. */
  function Bit(n: nat, i: nat): bool
  {
    if i == 0 then n % 2 == 1 else Bit(n / 2, i - 1)
  }

  /** The `size` lowest bits of n, least significant first. */
  function ToBits(n: nat, size: nat): (r: BitString)
    ensures |r| == size
  {
    if size == 0 then [] else [n % 2 == 1] + ToBits(n / 2, size - 1)
  }

  /** The number a bit string denotes, accumulated from its most significant bit down: `Value(b)`. */
  method BitStringToInt(b: BitString) returns (n: nat)
    ensures n == Value(b)
  {
    n := 0;
    var i := |b|;
    while i > 0
      invariant 0 <= i <= |b|
      invariant n == Value(b[i..])
    {
      i := i - 1;
      assert b[i..][1..] == b[i + 1..];
      n := 2 * n + BitValue(b[i]);
    }
    assert b[0..] == b;
  }

  lemma {:induction false} MulAtLeast(d: nat, x: nat)
    requires x >= 1
    ensures d * x >= d
  {
    if x > 1 {
      MulAtLeast(d, x - 1);
      assert d * x == d * (x - 1) + d;
    }
  }

  /** Quotient and remainder are unique. */
  lemma DivUnique(n: nat, d: nat, q: nat, r: nat)
    requires d > 0 && r < d && n == d * q + r
    ensures n / d == q && n % d == r
  {
    var q', r' := n / d, n % d;
    assert n == d * q' + r';
    if q' < q {
      assert d * q == d * q' + d * (q - q');
      MulAtLeast(d, q - q');
    } else if q' > q {
      assert d * q' == d * q + d * (q' - q);
      MulAtLeast(d, q' - q);
    }
  }

  /** Dividing by 2p is halving and then dividing by p. */
  lemma HalveDiv(n: nat, p: nat)
    requires p > 0
    ensures (n / 2) / p == n / (2 * p)
  {
    var q, r := n / (2 * p), n % (2 * p);
    assert n == 2 * (p * q) + r by {
      assert n == (2 * p) * q + r;
      assert (2 * p) * q == 2 * (p * q);
    }
    assert n / 2 == p * q + r / 2;
    DivUnique(n / 2, p, q, r / 2);
  }

  /** Bit i of a fixed-width encoding is bit i of the number. */
  lemma {:induction false} ToBitsBit(n: nat, size: nat, i: nat)
    requires i < size
    ensures ToBits(n, size)[i] == Bit(n, i)
  {
    if i > 0 {
      ToBitsBit(n / 2, size - 1, i - 1);
    }
  }

  /** Round trip: a number below 2^size survives encoding and decoding. */
  lemma {:induction false} RoundTripInt(n: nat, size: nat)
    requires n < Pow2(size)
    ensures Value(ToBits(n, size)) == n
  {
    if size > 0 {
      var b := ToBits(n, size);
      assert b[1..] == ToBits(n / 2, size - 1);
      RoundTripInt(n / 2, size - 1);
    }
  }

  /** The encoding truncates: 2^size encodes, in size bits, as all zeros. */
  lemma {:induction false} ToBitsOverflow(size: nat, i: nat)
    requires i < size
    ensures !ToBits(Pow2(size), size)[i]
  {
    if i > 0 {
      assert Pow2(size) / 2 == Pow2(size - 1);
      ToBitsOverflow(size - 1, i - 1);
    }
  }

  /** Round trip: decoding a bit string and encoding it at its own width gives it back. */
  lemma {:induction false} RoundTripBits(b: BitString)
    ensures ToBits(Value(b), |b|) == b
  {
    if b != [] {
      var n := Value(b);
      assert n / 2 == Value(b[1..]) && (n % 2 == 1) == b[0];
      RoundTripBits(b[1..]);
    }
  }

  /** Fills the array from the highest index down with the bits of n. */
  method IntToSizedBitString(n: nat, size: nat) returns (bits: BitString)
    ensures |bits| == size
    ensures forall i :: 0 <= i < size ==> bits[i] == Bit(n, i)
    ensures bits == ToBits(n, size)
  {
    var a := new bool[size];
    var i := size;
    while i > 0
      invariant 0 <= i <= size
      invariant forall j :: i <= j < size ==> a[j] == Bit(n, j)
    {
      i := i - 1;
      a[i] := Bit(n, i);
    }
    bits := a[..];
    forall j | 0 <= j < size
      ensures bits[j] == ToBits(n, size)[j]
    {
      ToBitsBit(n, size, j);
    }
  }

  /** The smallest w >= 1 with 2^w >= n; in particular Width(1) == 1. */
  function Width(n: nat): (w: nat)
    requires n >= 1
    ensures w >= 1
  {
    if n <= 2 then 1 else 1 + Width((n + 1) / 2)
  }

  lemma {:induction false} WidthBounds(n: nat)
    requires n >= 1
    ensures Pow2(Width(n)) >= n
    ensures Width(n) == 1 || Pow2(Width(n) - 1) < n
  {
    if n > 2 {
      WidthBounds((n + 1) / 2);
    }
  }

  /** Width(n) is the least w >= 1 with 2^w >= n. */
  lemma WidthIsLeast(n: nat, w: nat)
    requires n >= 1 && w >= 1 && Pow2(w) >= n
    ensures Width(n) <= w
  {
    WidthBounds(n);
  }

  /** The width of 2^w, for w >= 1, is w. */
  lemma WidthOfPow2(w: nat)
    requires w >= 1
    ensures Width(Pow2(w)) == w
  {
    WidthIsLeast(Pow2(w), w);
    WidthBounds(Pow2(w));
    if Width(Pow2(w)) < w {
      Pow2Monotone(Width(Pow2(w)), w - 1);
    }
  }

  /** The number of binary digits of k (0 for k == 0). */
  function BitLength(k: nat): nat
  {
    if k == 0 then 0 else 1 + BitLength(k / 2)
  }

  lemma {:induction false} WidthBitLength(n: nat)
    requires n >= 1
    ensures Width(n) == if BitLength(n - 1) == 0 then 1 else BitLength(n - 1)
  {
    if n > 2 {
      WidthBitLength((n + 1) / 2);
      assert (n + 1) / 2 - 1 == (n - 1) / 2;
    }
  }

  /** Dropping s low bits of a number of at least s + 1 digits shortens it by s. */
  lemma {:induction false} ShiftBitLength(k: nat, s: nat)
    requires k >= Pow2(s)
    ensures k / Pow2(s) >= 1
    ensures BitLength(k) == s + BitLength(k / Pow2(s))
  {
    if s > 0 {
      HalveDiv(k, Pow2(s - 1));
      ShiftBitLength(k / 2, s - 1);
    }
  }

  /** What CeilLog2 keeps while it shifts: `log` plus the digits left in `k` are the digits of
      `n - 1`, unless nothing was shifted yet. */
  ghost predicate Tracks(n: nat, k: nat, log: nat)
    requires n >= 1
  {
    (k == n - 1 && log == 0) || (k >= 1 && log + BitLength(k) == BitLength(n - 1))
  }

  lemma ShiftKeeps(n: nat, k: nat, log: nat, s: nat, p: nat)
    requires n >= 1 && Tracks(n, k, log) && p == Pow2(s) && k >= p
    ensures Tracks(n, k / p, log + s)
  {
    ShiftBitLength(k, s);
  }

  lemma ShiftDone(n: nat, k: nat, log: nat)
    requires n >= 1 && Tracks(n, k, log) && k < 4
    ensures log + k / 2 + 1 == Width(n)
  {
    WidthBitLength(n);
    assert k >= 1 ==> BitLength(k) == 1 + k / 2;
  }

  lemma Pow2Constants()
    ensures Pow2(2) == 4 && Pow2(4) == 16 && Pow2(8) == 256 && Pow2(16) == 0x1_0000
  {
    assert Pow2(4) == 16;
    assert Pow2(8) == 16 * 16;
  }

  /** Computes the width by shifting `n - 1` right in steps of 16, 8, 4 and 2 bits. */
  method CeilLog2(n: nat) returns (r: nat)
    requires 1 <= n < 0x8000_0000
    ensures r == Width(n)
  {
    Pow2Constants();
    var k: nat := n - 1;
    var log: nat := 0;
    // `(k & 0xffff0000) != 0` holds, for 0 <= k < 2^31, exactly when k >= 2^16
    if k >= 0x1_0000 {
      ShiftKeeps(n, k, log, 16, 0x1_0000);
      k := k / 0x1_0000;
      log := 16;
    }
    if k >= 256 {
      ShiftKeeps(n, k, log, 8, 256);
      k := k / 256;
      log := log + 8;
    }
    if k >= 16 {
      ShiftKeeps(n, k, log, 4, 16);
      k := k / 16;
      log := log + 4;
    }
    if k >= 4 {
      ShiftKeeps(n, k, log, 2, 4);
      k := k / 4;
      log := log + 2;
    }
    var out := log + k / 2;
    r := out + 1;
    ShiftDone(n, k, log);
  }

  /** `n == 2^ceilLog2(n)`: true for 2, 4, 8, ... and, as Width(1) == 1, false for 1. */
  predicate IsPowerOfTwo(n: nat)
    requires n >= 1
  {
    n == Pow2(Width(n))
  }

  lemma IsPowerOfTwoIff(n: nat)
    requires n >= 1
    ensures IsPowerOfTwo(n) <==> exists w: nat :: w >= 1 && n == Pow2(w)
  {
    if exists w: nat :: w >= 1 && n == Pow2(w) {
      var w: nat :| w >= 1 && n == Pow2(w);
      WidthOfPow2(w);
    }
  }

  /** The encoding of n in as many bits as it takes to count up to `max`. */
  function IntToBitString(n: nat, max: nat): (r: BitString)
    requires max >= 1
    ensures |r| == Width(max)
    ensures n < Pow2(Width(max)) ==> Value(r) == n
  {
    if n < Pow2(Width(max)) then RoundTripInt(n, Width(max)); ToBits(n, Width(max))
    else ToBits(n, Width(max))
  }

  /** Sum of the lengths of the pieces. */
  function TotalLength(pieces: seq<BitString>): nat
  {
    if pieces == [] then 0 else |pieces[0]| + TotalLength(pieces[1..])
  }

  /** The pieces one after the other. */
  function Flatten(pieces: seq<BitString>): (r: BitString)
    ensures |r| == TotalLength(pieces)
  {
    if pieces == [] then [] else pieces[0] + Flatten(pieces[1..])
  }

  /** Where piece j starts in the concatenation. */
  function Offset(pieces: seq<BitString>, j: nat): nat
    requires j <= |pieces|
  {
    TotalLength(pieces[..j])
  }

  lemma {:induction false} FlattenAppend(pieces: seq<BitString>, x: BitString)
    ensures Flatten(pieces + [x]) == Flatten(pieces) + x
    ensures TotalLength(pieces + [x]) == TotalLength(pieces) + |x|
  {
    if pieces != [] {
      assert (pieces + [x])[1..] == pieces[1..] + [x];
      FlattenAppend(pieces[1..], x);
    }
  }

  /** The concatenation has piece j at the sum of the earlier lengths. */
  lemma {:induction false} FlattenAt(pieces: seq<BitString>, j: nat, t: nat)
    requires j < |pieces| && t < |pieces[j]|
    ensures Offset(pieces, j) + t < |Flatten(pieces)|
    ensures Flatten(pieces)[Offset(pieces, j) + t] == pieces[j][t]
  {
    if j == 0 {
      assert pieces[..0] == [];
    } else {
      assert pieces[1..][..j - 1] == pieces[..j][1..];
      FlattenAt(pieces[1..], j - 1, t);
    }
  }

  lemma FlattenPrefixLength(pieces: seq<BitString>, j: nat)
    requires j < |pieces|
    ensures Offset(pieces, j) + |pieces[j]| <= TotalLength(pieces)
    ensures Offset(pieces, j + 1) == Offset(pieces, j) + |pieces[j]|
  {
    assert pieces[..j + 1] == pieces[..j] + [pieces[j]];
    FlattenAppend(pieces[..j], pieces[j]);
    TotalLengthSplit(pieces, j + 1);
  }

  lemma {:induction false} TotalLengthSplit(pieces: seq<BitString>, j: nat)
    requires j <= |pieces|
    ensures TotalLength(pieces) == TotalLength(pieces[..j]) + TotalLength(pieces[j..])
  {
    if j == 0 {
      assert pieces[..0] == [] && pieces[0..] == pieces;
    } else {
      assert pieces[..j][1..] == pieces[1..][..j - 1];
      assert pieces[j..] == pieces[1..][j - 1..];
      TotalLengthSplit(pieces[1..], j - 1);
    }
  }

  /** Copies one piece into `out` from index i on, leaving the bits before i alone. */
  method CopyPiece(out: array<bool>, i: nat, piece: BitString)
    requires i + |piece| <= out.Length
    modifies out
    ensures out[..i + |piece|] == old(out[..i]) + piece
  {
    for t := 0 to |piece|
      invariant forall h :: 0 <= h < i ==> out[h] == old(out[h])
      invariant forall h :: 0 <= h < t ==> out[i + h] == piece[h]
    {
      out[i + t] := piece[t];
    }
    assert forall h :: 0 <= h < i + |piece| ==> out[h] == (old(out[..i]) + piece)[h];
  }

  /** Copies every piece, in order, into one array. */
  method Concat(pieces: seq<BitString>) returns (r: BitString)
    ensures r == Flatten(pieces)
  {
    var out := new bool[TotalLength(pieces)];
    var i := 0;
    for j := 0 to |pieces|
      invariant i == Offset(pieces, j) <= out.Length
      invariant out[..i] == Flatten(pieces[..j])
    {
      FlattenPrefixLength(pieces, j);
      var piece := pieces[j];
      CopyPiece(out, i, piece);
      assert pieces[..j + 1] == pieces[..j] + [piece];
      FlattenAppend(pieces[..j], piece);
      i := i + |piece|;
    }
    assert pieces[..|pieces|] == pieces;
    r := out[..];
  }

  /** `length` bits of b from `index` on; fails (an index error) past the end. */
  function SubBitString(b: BitString, index: nat, length: nat): (r: Option<BitString>)
    ensures r.Some? <==> index + length <= |b|
    ensures r.Some? ==> |r.value| == length && forall t :: 0 <= t < length ==> r.value[t] == b[index + t]
  {
    if index + length <= |b| then Some(b[index..index + length]) else None
  }

  /** Slicing piece j back out of the concatenation gives piece j. */
  lemma SliceOfFlatten(pieces: seq<BitString>, j: nat)
    requires j < |pieces|
    ensures SubBitString(Flatten(pieces), Offset(pieces, j), |pieces[j]|) == Some(pieces[j])
  {
    FlattenPrefixLength(pieces, j);
    var s := SubBitString(Flatten(pieces), Offset(pieces, j), |pieces[j]|);
    forall t | 0 <= t < |pieces[j]|
      ensures s.value[t] == pieces[j][t]
    {
      FlattenAt(pieces, j, t);
    }
    assert s.value == pieces[j];
  }

  function DigitOf(b: bool): char
  {
    if b then '1' else '0'
  }

  /** Most significant bit first, one '0' or '1' per bit. */
  function Render(b: BitString): string
  {
    seq(|b|, j requires 0 <= j < |b| => DigitOf(b[|b| - 1 - j]))
  }

  predicate IsDigit(c: char)
  {
    c == '0' || c == '1'
  }

  /** The inverse of Render; any character other than '0' and '1' is rejected. */
  function Parse(s: string): Option<BitString>
  {
    if forall j :: 0 <= j < |s| ==> IsDigit(s[j])
    then Some(seq(|s|, i requires 0 <= i < |s| => s[|s| - 1 - i] == '1'))
    else None
  }

  /** Appends the bits from the highest index down. */
  method BitStringToString(b: BitString) returns (s: string)
    ensures s == Render(b)
  {
    s := "";
    var i := |b| - 1;
    while i >= 0
      invariant -1 <= i < |b|
      invariant |s| == |b| - 1 - i
      invariant forall j :: 0 <= j < |s| ==> s[j] == DigitOf(b[|b| - 1 - j])
    {
      s := s + [DigitOf(b[i])];
      i := i - 1;
    }
  }

  /** Reads the characters left to right into bits from the highest index down, failing at the
      first character that is not a digit. */
  method StringToBitString(s: string) returns (r: Option<BitString>)
    ensures r == Parse(s)
  {
    var bits := new bool[|s|];
    var i := |s| - 1;
    while i >= 0
      invariant -1 <= i < |s|
      invariant forall j :: 0 <= j < |s| - 1 - i ==> IsDigit(s[j])
      invariant forall j :: i < j < |s| ==> bits[j] == (s[|s| - 1 - j] == '1')
    {
      var c := s[|s| - 1 - i];
      if c == '0' {
        bits[i] := false;
      } else if c == '1' {
        bits[i] := true;
      } else {
        assert !IsDigit(s[|s| - 1 - i]);
        return None;
      }
      i := i - 1;
    }
    r := Some(bits[..]);
    assert bits[..] == Parse(s).value;
  }

  /** Rendering and parsing back is the identity. */
  lemma ParseRender(b: BitString)
    ensures Parse(Render(b)) == Some(b)
  {
    var s := Render(b);
    forall j | 0 <= j < |s|
      ensures IsDigit(s[j])
    {
      assert s[j] == DigitOf(b[|b| - 1 - j]);
    }
    assert Parse(s).Some?;
    var p := Parse(s).value;
    assert |p| == |b|;
    forall i | 0 <= i < |b|
      ensures p[i] == b[i]
    {
      assert s[|s| - 1 - i] == DigitOf(b[i]);
    }
    assert p == b;
  }

  /** A parsed string renders back to itself. */
  lemma RenderParse(s: string)
    requires Parse(s).Some?
    ensures Render(Parse(s).value) == s
  {
    var b := Parse(s).value;
    var t := Render(b);
    forall j | 0 <= j < |s|
      ensures t[j] == s[j]
    {
      assert IsDigit(s[j]);
      assert b[|b| - 1 - j] == (s[j] == '1');
    }
    assert t == s;
  }
}
