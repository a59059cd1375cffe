/** Points of the n-dimensional grid, the bounds check, the successor of a point and the
    enumeration of every point of a bounded grid. */
module Locations {
  import opened Wrappers
  import Utils

  /** An n-dimensional point. The extent of the grid is a Location too, read as an exclusive
      upper bound per dimension. */
  datatype Location = Location(coords: seq<int>)

  /** The point with `n` coordinates, all of them 0. */
  function Origin(n: nat): (l: Location)
    ensures |l.coords| == n
    ensures forall i :: 0 <= i < n ==> l.coords[i] == 0
  {
    Location(seq(n, _ => 0))
  }

  /** Locations are equal when their coordinates are, one by one. */
  predicate Equals(a: Location, b: Location)
    ensures Equals(a, b) <==>
      |a.coords| == |b.coords| && forall i :: 0 <= i < |a.coords| ==> a.coords[i] == b.coords[i]
  {
    a.coords == b.coords
  }

  /** `0 <= c[i] < b[i]` in every dimension, for coordinate lists of the same length. */
  predicate InBounds(c: seq<int>, b: seq<int>)
  {
    |c| == |b| && forall i :: 0 <= i < |c| ==> 0 <= c[i] < b[i]
  }

  predicate Within(l: Location, bound: Location)
  {
    InBounds(l.coords, bound.coords)
  }

  /** Fails on a dimension mismatch; otherwise stops at the first coordinate out of bounds. */
  method IsWithin(l: Location, bound: Location) returns (r: Option<bool>)
    ensures r.None? <==> |l.coords| != |bound.coords|
    ensures r.Some? ==> (r.value <==> Within(l, bound))
  {
    if |l.coords| != |bound.coords| {
      return None;
    }
    for i := 0 to |l.coords|
      invariant forall j :: 0 <= j < i ==> 0 <= l.coords[j] < bound.coords[j]
    {
      if l.coords[i] < 0 || l.coords[i] >= bound.coords[i] {
        return Some(false);
      }
    }
    return Some(true);
  }

  /** The successor in mixed radix, dimension 0 least significant: increment dimension 0 and
      carry into the next dimension while a coordinate has reached its bound. The last
      coordinate is never reset. */
  function Carry(c: seq<int>, b: seq<int>): (r: seq<int>)
    requires |c| == |b| >= 1
    ensures |r| == |c|
  {
    if |c| == 1 then [c[0] + 1]
    else if c[0] + 1 >= b[0] then [0] + Carry(c[1..], b[1..])
    else [c[0] + 1] + c[1..]
  }

  /** The shape of a carry that stops at dimension m. */
  lemma {:induction false} CarryAt(c: seq<int>, b: seq<int>, m: nat)
    requires |c| == |b| && m < |c|
    requires forall j :: 0 <= j < m ==> c[j] + 1 >= b[j]
    requires m == |c| - 1 || c[m] + 1 < b[m]
    ensures Carry(c, b) == seq(m, _ => 0) + [c[m] + 1] + c[m + 1..]
  {
    if m > 0 {
      CarryAt(c[1..], b[1..], m - 1);
      assert seq(m, _ => 0) == [0] + seq(m - 1, _ => 0);
    }
  }

  /** Coordinates reset to 0 below m, incremented at m and unchanged above are the carry. */
  lemma Carried(c: seq<int>, b: seq<int>, m: nat, s: seq<int>)
    requires |c| == |b| == |s| && m < |c|
    requires forall j :: 0 <= j < m ==> c[j] + 1 >= b[j] && s[j] == 0
    requires m == |c| - 1 || c[m] + 1 < b[m]
    requires s[m] == c[m] + 1 && forall j :: m < j < |c| ==> s[j] == c[j]
    ensures s == Carry(c, b)
  {
    CarryAt(c, b, m);
    var carried := seq(m, _ => 0) + [c[m] + 1] + c[m + 1..];
    forall j | 0 <= j < |c|
      ensures s[j] == carried[j]
    {
      if j > m {
        assert carried[j] == c[j];
      }
    }
  }

  /** Copies the coordinates, increments the first and carries; fails on a 0-dimensional point,
      which has no first coordinate. */
  method Next(l: Location, bound: Location) returns (r: Option<Location>)
    requires |l.coords| == |bound.coords|
    ensures r.None? <==> |l.coords| == 0
    ensures r.Some? ==> r.value.coords == Carry(l.coords, bound.coords)
  {
    var c, b := l.coords, bound.coords;
    var n := |c|;
    if n == 0 {
      return None;
    }
    var a := new int[n](i requires 0 <= i < n => c[i]);
    a[0] := a[0] + 1;
    var i := 1;
    var m := n - 1;
    while i < n
      invariant 1 <= i <= n
      invariant forall j :: 0 <= j < i - 1 ==> c[j] + 1 >= b[j] && a[j] == 0
      invariant a[i - 1] == c[i - 1] + 1
      invariant forall j :: i <= j < n ==> a[j] == c[j]
    {
      if a[i - 1] >= b[i - 1] {
        a[i - 1] := 0;
        a[i] := a[i] + 1;
      } else {
        m := i - 1;
        break;
      }
      i := i + 1;
    }
    assert m < n;
    assert forall j :: 0 <= j < m ==> c[j] + 1 >= b[j];
    assert m == n - 1 || c[m] + 1 < b[m];
    Carried(c, b, m, a[..]);
    r := Some(Location(a[..]));
  }

  /** The position of c in the mixed-radix order with radices b, dimension 0 least significant. */
  function Rank(c: seq<int>, b: seq<int>): int
    requires |c| == |b|
  {
    if c == [] then 0 else c[0] + b[0] * Rank(c[1..], b[1..])
  }

  /** The product of the bounds: the number of in-bound points when every bound is positive. */
  function Product(b: seq<int>): int
  {
    if b == [] then 1 else b[0] * Product(b[1..])
  }

  predicate AllPositive(b: seq<int>)
  {
    forall i :: 0 <= i < |b| ==> b[i] >= 1
  }

  lemma MulStrict(a: int, x: int, y: int)
    requires a > 0
    ensures x < y <==> a * x < a * y
  {
    if x < y {
      assert a * y == a * x + a * (y - x);
      Utils.MulAtLeast(a, y - x);
    } else {
      assert a * x == a * y + a * (x - y);
      assert a * (x - y) >= 0;
    }
  }

  lemma MulSucc(a: int, x: int)
    ensures a * (x + 1) == a * x + a
  {
  }

  /** An in-bound point has a rank in [0, Product(b)). */
  lemma {:induction false} RankBelow(c: seq<int>, b: seq<int>)
    requires InBounds(c, b)
    ensures 0 <= Rank(c, b) < Product(b)
  {
    if c != [] {
      RankBelow(c[1..], b[1..]);
      var r, p := Rank(c[1..], b[1..]), Product(b[1..]);
      MulStrict(b[0], r, p);
      MulStrict(b[0], r + 1, p);
      MulStrict(b[0], -1, r);
      MulSucc(b[0], r);
    }
  }

  /** The carry adds one to the rank. */
  lemma {:induction false} CarryRank(c: seq<int>, b: seq<int>)
    requires |c| >= 1 && InBounds(c, b)
    ensures Rank(Carry(c, b), b) == Rank(c, b) + 1
  {
    var r := Carry(c, b);
    if |c| == 1 {
      assert r[1..] == [];
    } else if c[0] + 1 >= b[0] {
      assert r[1..] == Carry(c[1..], b[1..]);
      CarryRank(c[1..], b[1..]);
      MulSucc(b[0], Rank(c[1..], b[1..]));
    } else {
      assert r[1..] == c[1..];
    }
  }

  /** The carry of an in-bound point stays in bounds exactly until the last rank is reached. */
  lemma {:induction false} CarryWithin(c: seq<int>, b: seq<int>)
    requires |c| >= 1 && InBounds(c, b)
    ensures InBounds(Carry(c, b), b) <==> Rank(c, b) + 1 < Product(b)
  {
    var r := Carry(c, b);
    CarryRank(c, b);
    if |c| == 1 {
      assert Product(b) == b[0] * Product(b[1..]);
    } else if c[0] + 1 >= b[0] {
      assert r[1..] == Carry(c[1..], b[1..]);
      CarryWithin(c[1..], b[1..]);
      var rr, p := Rank(c[1..], b[1..]), Product(b[1..]);
      MulStrict(b[0], rr + 1, p);
      MulSucc(b[0], rr);
      assert InBounds(r, b) <==> InBounds(r[1..], b[1..]);
    } else {
      assert r[1..] == c[1..];
      RankBelow(r, b);
      RankBelow(c, b);
    }
  }

  /** Two in-bound points with the same rank are the same point. */
  lemma {:induction false} RankInjective(x: seq<int>, y: seq<int>, b: seq<int>)
    requires InBounds(x, b) && InBounds(y, b) && Rank(x, b) == Rank(y, b)
    ensures x == y
  {
    if x != [] {
      var rx, ry := Rank(x[1..], b[1..]), Rank(y[1..], b[1..]);
      MulStrict(b[0], rx, ry + 1);
      MulStrict(b[0], ry, rx + 1);
      MulSucc(b[0], rx);
      MulSucc(b[0], ry);
      assert rx == ry;
      RankInjective(x[1..], y[1..], b[1..]);
      assert x == [x[0]] + x[1..] && y == [y[0]] + y[1..];
    }
  }

  /** The points from c on, while they are in bounds, each followed by its carry. */
  function EnumFrom(c: seq<int>, b: seq<int>): seq<seq<int>>
    requires |c| == |b| >= 1
    decreases if InBounds(c, b) then Product(b) - Rank(c, b) else 0
  {
    if InBounds(c, b) then
      RankBelow(c, b);
      CarryRank(c, b);
      CarryWithin(c, b);
      [c] + EnumFrom(Carry(c, b), b)
    else []
  }

  function ToLocations(cs: seq<seq<int>>): (r: seq<Location>)
    ensures |r| == |cs|
    ensures forall j :: 0 <= j < |cs| ==> r[j].coords == cs[j]
  {
    if cs == [] then [] else [Location(cs[0])] + ToLocations(cs[1..])
  }

  /** The in-bound points of the grid with extent `bound`, from the origin on; fails for a
      0-dimensional extent, whose only point has no successor. */
  function Enumerate(bound: Location): Option<seq<Location>>
  {
    var b := bound.coords;
    if |b| == 0 then None else Some(ToLocations(EnumFrom(Origin(|b|).coords, b)))
  }

  /** Adds the current point while it is in bounds, then moves to its successor. */
  method BoundedLocations(bound: Location) returns (r: Option<seq<Location>>)
    ensures r == Enumerate(bound)
  {
    var b := bound.coords;
    var locations: seq<Location> := [];
    var last := Origin(|b|);
    var within := IsWithin(last, bound);
    assert |b| >= 1 ==>
      locations + ToLocations(EnumFrom(last.coords, b)) == ToLocations(EnumFrom(last.coords, b));
    while within.value
      invariant |last.coords| == |b|
      invariant within == Some(Within(last, bound))
      invariant |b| >= 1 ==> Enumerate(bound) == Some(locations + ToLocations(EnumFrom(last.coords, b)))
      decreases if |b| >= 1 && Within(last, bound) then Product(b) - Rank(last.coords, b) else 0
    {
      var next := Next(last, bound);
      if next.None? {
        return None;
      }
      RankBelow(last.coords, b);
      CarryRank(last.coords, b);
      CarryWithin(last.coords, b);
      assert ToLocations(EnumFrom(last.coords, b)) == [last] + ToLocations(EnumFrom(next.value.coords, b));
      assert locations + ToLocations(EnumFrom(last.coords, b))
          == (locations + [last]) + ToLocations(EnumFrom(next.value.coords, b));
      locations := locations + [last];
      last := next.value;
      within := IsWithin(last, bound);
    }
    assert |b| >= 1 ==> EnumFrom(last.coords, b) == [];
    assert locations + [] == locations;
    r := Some(locations);
  }

  /** From an in-bound point c the enumeration lists, in order, in-bound points of ranks
      Rank(c), Rank(c) + 1, ..., Product(b) - 1. */
  lemma {:induction false} EnumFromRanks(c: seq<int>, b: seq<int>)
    requires |c| == |b| >= 1 && InBounds(c, b)
    ensures |EnumFrom(c, b)| == Product(b) - Rank(c, b)
    ensures forall j :: 0 <= j < |EnumFrom(c, b)| ==>
      InBounds(EnumFrom(c, b)[j], b) && Rank(EnumFrom(c, b)[j], b) == Rank(c, b) + j
    decreases Product(b) - Rank(c, b)
  {
    RankBelow(c, b);
    CarryRank(c, b);
    CarryWithin(c, b);
    var n := Carry(c, b);
    if InBounds(n, b) {
      EnumFromRanks(n, b);
    }
  }

  lemma {:induction false} OriginRank(b: seq<int>)
    ensures Rank(Origin(|b|).coords, b) == 0
    ensures InBounds(Origin(|b|).coords, b) <==> AllPositive(b)
  {
    if b != [] {
      assert Origin(|b|).coords[1..] == Origin(|b| - 1).coords;
      OriginRank(b[1..]);
    }
  }

  /** The enumeration of a grid of at least one dimension lists every in-bound point and nothing
      else, each once, point j having rank j (dimension 0 varying fastest); there are
      Product(bound) of them, or none when some bound is not positive. */
  lemma BoundedLocationsExact(bound: Location)
    requires |bound.coords| >= 1
    ensures Enumerate(bound).Some?
    ensures forall l :: l in Enumerate(bound).value <==> Within(l, bound)
    ensures forall i, j :: 0 <= i < j < |Enumerate(bound).value| ==>
      Enumerate(bound).value[i] != Enumerate(bound).value[j]
    ensures |Enumerate(bound).value| == if AllPositive(bound.coords) then Product(bound.coords) else 0
    ensures forall j :: 0 <= j < |Enumerate(bound).value| ==>
      Within(Enumerate(bound).value[j], bound) && Rank(Enumerate(bound).value[j].coords, bound.coords) == j
  {
    var b := bound.coords;
    var o := Origin(|b|).coords;
    var locs := Enumerate(bound).value;
    OriginRank(b);
    if AllPositive(b) {
      EnumFromRanks(o, b);
      forall l | Within(l, bound)
        ensures l in locs
      {
        RankBelow(l.coords, b);
        var k := Rank(l.coords, b);
        RankInjective(l.coords, locs[k].coords, b);
        assert l == locs[k];
      }
    } else {
      var i :| 0 <= i < |b| && b[i] < 1;
      forall l
        ensures !Within(l, bound)
      {
        if |l.coords| == |b| {
          assert !(0 <= l.coords[i] < b[i]);
        }
      }
    }
  }
}
