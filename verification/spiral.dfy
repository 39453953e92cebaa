/**
 * `ScanPatterns.spiral`: an outward square spiral on the integer grid from the origin. Legs run
 * east, north, west, south in turn, and the leg length grows by one after every second turn,
 * giving lengths 1, 1, 2, 2, 3, 3, ...
 *
 * `Grow` and `Spiral` follow the program's loops. `SpiralPoint` is an independent description of
 * the same path, leg by leg, and `SpiralIsReference` proves the two agree.
 */
module SquareSpiral {
  import opened ScanPatterns

  /** The `directions` table: east, north, west, south. */
  function Heading(d: int): Point
    requires 0 <= d < 4
  {
    [(1, 0), (0, 1), (-1, 0), (0, -1)][d]
  }

  /** `p += directions[d]` */
  function Step(p: Point, d: int): Point
    requires 0 <= d < 4
  {
    (p.0 + Heading(d).0, p.1 + Heading(d).1)
  }

  /** The point `t` steps from `p` in direction `d`. */
  function Walk(p: Point, d: int, t: int): Point
    requires 0 <= d < 4
  {
    if d == 0 then (p.0 + t, p.1)
    else if d == 1 then (p.0, p.1 + t)
    else if d == 2 then (p.0 - t, p.1)
    else (p.0, p.1 - t)
  }

  /** Each step moves by one along one axis. */
  lemma WalkStep(p: Point, d: int, t: int)
    requires 0 <= d < 4
    ensures Walk(p, d, t + 1) == Step(Walk(p, d, t), d)
    ensures Walk(Step(p, d), d, t) == Walk(p, d, t + 1)
    ensures Abs(Heading(d).0) + Abs(Heading(d).1) == 1
  {
  }

  /** The inner `for` loop: `i` steps from `p` in direction `d`, keeping every point passed. */
  function Leg(p: Point, d: int, i: nat): (r: seq<Point>)
    requires 0 <= d < 4
    ensures |r| == i
    ensures forall j :: 0 <= j < i ==> r[j] == Walk(p, d, j + 1)
    decreases i
  {
    if i == 0 then []
    else
      var next := Step(p, d);
      var rest := Leg(next, d, i - 1);
      WalkStep(p, d, 0);
      assert forall j :: 1 <= j < i ==> rest[j - 1] == Walk(next, d, j) == Walk(p, d, j + 1) by {
        forall j | 1 <= j < i ensures Walk(next, d, j) == Walk(p, d, j + 1) {
          WalkStep(p, d, j);
        }
      }
      [next] + rest
  }

  /**
   * The `while` loop: while fewer than `n` points are collected, walk a leg of `i` steps in
   * direction `d`, turn left, and lengthen the legs whenever the new direction is east or west.
   */
  function Grow(n: int, d: int, i: nat, p: Point, sp: seq<Point>): seq<Point>
    requires 0 <= d < 4 && i >= 1
    decreases n - |sp|
  {
    if |sp| >= n then sp
    else
      var leg := Leg(p, d, i);
      var d' := (d + 1) % 4;
      Grow(n, d', i + (if d' % 2 == 0 then 1 else 0), leg[|leg| - 1], sp + leg)
  }

  /** Python's `s[:n]`: a negative `n` counts from the end. */
  function PrefixSlice<T>(s: seq<T>, n: int): (r: seq<T>)
    ensures |r| <= |s| && r == s[..|r|]
    ensures 0 <= n <= |s| ==> |r| == n
  {
    if n >= 0 then s[..if n <= |s| then n else |s|]
    else s[..if |s| + n >= 0 then |s| + n else 0]
  }

  /** `spiral(num_points)` */
  function Spiral(n: int := 50): seq<Point> {
    PrefixSlice(Grow(n, 0, 1, (0, 0), [(0, 0)]), n)
  }

  // The reference description, leg by leg.

  /** Leg `m` has `m div 2 + 1` steps: 1, 1, 2, 2, 3, 3, ... */
  function LegLength(m: nat): nat {
    m / 2 + 1
  }

  /** The index in the path of the first point of leg `m`; the origin is point 0. */
  function LegStart(m: nat): nat {
    if m == 0 then 1 else LegStart(m - 1) + LegLength(m - 1)
  }

  /** Where leg `m` starts from: the end of the legs before it. */
  function Corner(m: nat): Point {
    if m == 0 then (0, 0) else Walk(Corner(m - 1), (m - 1) % 4, LegLength(m - 1))
  }

  function LegFrom(k: nat, m: nat): (r: nat)
    requires LegStart(m) <= k
    ensures m <= r && LegStart(r) <= k < LegStart(r + 1)
    decreases k - LegStart(m)
  {
    if k < LegStart(m + 1) then m else LegFrom(k, m + 1)
  }

  /** The leg that point `k` (after the origin) lies on. */
  function LegOf(k: nat): (m: nat)
    requires k >= 1
    ensures LegStart(m) <= k < LegStart(m + 1)
  {
    LegFrom(k, 0)
  }

  /** Point `k` of the spiral: the origin, or the point `k - LegStart(m) + 1` steps into leg `m`, heading `m mod 4`. */
  function SpiralPoint(k: nat): Point {
    if k == 0 then (0, 0)
    else
      var m := LegOf(k);
      Walk(Corner(m), m % 4, k - LegStart(m) + 1)
  }

  /** The first `len` points of the spiral. */
  function Reference(len: nat): (r: seq<Point>)
    ensures |r| == len && forall k :: 0 <= k < len ==> r[k] == SpiralPoint(k)
  {
    seq(len, k requires 0 <= k < len => SpiralPoint(k))
  }

  lemma {:induction false} LegStartMono(a: nat, b: nat)
    requires a <= b
    ensures LegStart(a) + (b - a) <= LegStart(b)
    decreases b
  {
    if a < b {
      LegStartMono(a, b - 1);
    }
  }

  /** A point that lies on leg `j` and starts no later than the end of leg `i` lies on a leg no later than `i`. */
  lemma LegsInOrder(i: nat, j: nat, k: nat)
    requires LegStart(j) <= k < LegStart(i + 1)
    ensures j <= i
  {
    if i < j {
      LegStartMono(i + 1, j);
    }
  }

  /** Each point after the origin lies on exactly one leg. */
  lemma LegOfUnique(k: nat, m: nat)
    requires LegStart(m) <= k < LegStart(m + 1)
    ensures LegOf(k) == m
  {
    var m' := LegOf(k);
    LegsInOrder(m, m', k);
    LegsInOrder(m', m, k);
  }

  /** Appending leg `m` to the points before it gives the points up to the start of leg `m + 1`. */
  lemma LegExtends(m: nat)
    ensures Reference(LegStart(m)) + Leg(Corner(m), m % 4, LegLength(m)) == Reference(LegStart(m + 1))
  {
    var before, leg, after := Reference(LegStart(m)), Leg(Corner(m), m % 4, LegLength(m)), Reference(LegStart(m + 1));
    assert |before + leg| == |after|;
    forall j | 0 <= j < |after| ensures (before + leg)[j] == after[j] {
      if j >= LegStart(m) {
        LegOfUnique(j, m);
        assert leg[j - LegStart(m)] == SpiralPoint(j);
      }
    }
  }

  /** One pass of the `while` body when fewer than `n` points are collected. */
  lemma GrowUnfold(n: int, d: int, i: nat, p: Point, sp: seq<Point>)
    requires 0 <= d < 4 && i >= 1 && |sp| < n
    ensures var d' := (d + 1) % 4;
            Grow(n, d, i, p, sp) == Grow(n, d', i + (if d' % 2 == 0 then 1 else 0), Leg(p, d, i)[i - 1], sp + Leg(p, d, i))
  {
  }

  /** Turning once after leg `m` faces the heading of leg `m + 1`, which is even exactly when `m` is odd. */
  lemma NextHeading(m: nat)
    ensures (m % 4 + 1) % 4 == (m + 1) % 4
    ensures (m + 1) % 4 % 2 == 0 <==> m % 2 == 1
  {
    var q, r := m / 4, m % 4;
    assert m == 4 * q + r;
    if r == 0 {
      assert (m + 1) % 4 == 1 && m % 2 == 0;
    } else if r == 1 {
      assert (m + 1) % 4 == 2 && m % 2 == 1;
    } else if r == 2 {
      assert (m + 1) % 4 == 3 && m % 2 == 0;
    } else {
      assert (m + 1) % 4 == 0 && m % 2 == 1;
    }
  }

  /** Legs grow by one after every odd-numbered leg. */
  lemma NextLength(m: nat)
    ensures LegLength(m + 1) == LegLength(m) + (if m % 2 == 1 then 1 else 0)
  {
    var q, r := m / 2, m % 2;
    assert m == 2 * q + r;
    if r == 1 {
      assert m + 1 == 2 * (q + 1);
    } else {
      assert m + 1 == 2 * q + 1;
    }
  }

  /** After leg `m` the loop faces the heading of leg `m + 1`, holds its length, and stands at its corner. */
  lemma NextLegState(m: nat)
    ensures var d' := (m % 4 + 1) % 4;
            && d' == (m + 1) % 4
            && LegLength(m) + (if d' % 2 == 0 then 1 else 0) == LegLength(m + 1)
            && Leg(Corner(m), m % 4, LegLength(m))[LegLength(m) - 1] == Corner(m + 1)
  {
    NextHeading(m);
    NextLength(m);
  }

  /** One pass of the `while` body takes the loop state at the start of leg `m` to the one at leg `m + 1`. */
  lemma GrowStep(n: int, m: nat)
    requires LegStart(m) < n
    ensures Grow(n, m % 4, LegLength(m), Corner(m), Reference(LegStart(m)))
         == Grow(n, (m + 1) % 4, LegLength(m + 1), Corner(m + 1), Reference(LegStart(m + 1)))
  {
    GrowUnfold(n, m % 4, LegLength(m), Corner(m), Reference(LegStart(m)));
    NextLegState(m);
    LegExtends(m);
  }

  /** The loop grows the path while it is shorter than `n`, then stops: leg `m` already past `n` adds nothing. */
  lemma GrowDone(n: int, m: nat)
    requires LegStart(m) >= n
    ensures Grow(n, m % 4, LegLength(m), Corner(m), Reference(LegStart(m))) == Reference(LegStart(m))
  {
  }

  /** What the loop yields from leg `m + 1` on, it yields from leg `m` on, as the path there is longer. */
  lemma GrowCarry(n: int, m: nat, r: seq<Point>)
    requires LegStart(m) < n
    requires r == Grow(n, (m + 1) % 4, LegLength(m + 1), Corner(m + 1), Reference(LegStart(m + 1)))
    requires |r| >= n && |r| >= LegStart(m + 1) && r == Reference(|r|)
    ensures r == Grow(n, m % 4, LegLength(m), Corner(m), Reference(LegStart(m)))
    ensures |r| >= LegStart(m)
  {
    GrowStep(n, m);
    assert LegStart(m + 1) == LegStart(m) + LegLength(m);
  }

  /** The loop state at the start of leg `m` is fixed by `m` alone, and the loop ends with a prefix of the reference. */
  lemma {:induction false} GrowMatches(n: int, m: nat)
    ensures var r := Grow(n, m % 4, LegLength(m), Corner(m), Reference(LegStart(m)));
            && |r| >= n && |r| >= LegStart(m) && r == Reference(|r|)
            && (LegStart(m) >= n ==> |r| == LegStart(m))
    decreases n - LegStart(m)
  {
    if LegStart(m) < n {
      GrowMatches(n, m + 1);
      GrowCarry(n, m, Grow(n, (m + 1) % 4, LegLength(m + 1), Corner(m + 1), Reference(LegStart(m + 1))));
    } else {
      GrowDone(n, m);
    }
  }

  /** The loop's starting state is the state before leg 0: heading east, length 1, the origin alone. */
  lemma StartState()
    ensures 0 % 4 == 0 && LegLength(0) == 1 && Corner(0) == (0, 0)
    ensures Reference(LegStart(0)) == [(0, 0)]
  {
  }

  /** A prefix of the reference spiral is the shorter reference spiral. */
  lemma ReferencePrefix(a: nat, b: nat)
    requires b <= a
    ensures Reference(a)[..b] == Reference(b)
  {
    assert forall k :: 0 <= k < b ==> Reference(a)[..b][k] == Reference(b)[k];
  }

  /** The program's spiral is the first `num_points` points of the reference spiral, none for `num_points <= 0`. */
  lemma SpiralIsReference(n: int)
    ensures Spiral(n) == Reference(Count(n))
  {
    StartState();
    GrowMatches(n, 0);
    var r := Grow(n, 0, 1, (0, 0), [(0, 0)]);
    if n >= 1 {
      ReferencePrefix(|r|, n);
    }
  }

  /** The closed-form corner of leg `4 q + r`. */
  function RingCorner(q: int, r: int): Point {
    if r == 0 then (-q, -q) else if r == 1 then (q + 1, -q) else if r == 2 then (q + 1, q + 1) else (-q - 1, q + 1)
  }

  /** The closed form of the corners: leg `m = 4q + r` starts on the boundary of the square of radius `q` or `q + 1`. */
  function Ring(m: nat): Point {
    RingCorner(m / 4, m % 4)
  }

  /** Walking leg `k` from its closed-form corner reaches the closed-form corner of leg `k + 1`. */
  lemma RingStep(k: nat)
    ensures Walk(Ring(k), k % 4, LegLength(k)) == Ring(k + 1)
  {
    var q, r := k / 4, k % 4;
    assert k == 4 * q + r;
    if r == 0 {
      assert LegLength(k) == 2 * q + 1 && (k + 1) / 4 == q && (k + 1) % 4 == 1;
    } else if r == 1 {
      assert LegLength(k) == 2 * q + 1 && (k + 1) / 4 == q && (k + 1) % 4 == 2;
    } else if r == 2 {
      assert LegLength(k) == 2 * q + 2 && (k + 1) / 4 == q && (k + 1) % 4 == 3;
    } else {
      assert LegLength(k) == 2 * q + 2 && (k + 1) / 4 == q + 1 && (k + 1) % 4 == 0;
    }
  }

  lemma {:induction false} CornerClosedForm(m: nat)
    ensures Corner(m) == Ring(m)
    decreases m
  {
    if m > 0 {
      var k := m - 1;
      CornerClosedForm(k);
      RingStep(k);
      assert Corner(m) == Walk(Corner(k), k % 4, LegLength(k));
    }
  }

  function Max(a: int, b: int): int {
    if a >= b then a else b
  }

  /** Chebyshev distance from the origin: the radius of the square ring a point lies on. */
  function Cheb(p: Point): nat {
    Max(Abs(p.0), Abs(p.1))
  }

  /** Along a leg of ring `q` heading `r`, started at its closed-form corner, the ring number never drops. */
  lemma RadiusAlongLeg(q: int, r: int, t: nat)
    requires 0 <= q && 0 <= r < 4 && t < 2 * q + (if r < 2 then 1 else 2)
    ensures Cheb(Walk(RingCorner(q, r), r, t)) <= Cheb(Walk(RingCorner(q, r), r, t + 1))
  {
    var a, b := Walk(RingCorner(q, r), r, t), Walk(RingCorner(q, r), r, t + 1);
    if r == 0 {
      assert a == (t - q, -q) && b == (t + 1 - q, -q);
      assert Cheb(a) == q <= Cheb(b);
    } else if r == 1 {
      assert a == (q + 1, t - q) && b == (q + 1, t + 1 - q);
      assert Cheb(a) == q + 1 == Cheb(b);
    } else if r == 2 {
      assert a == (q + 1 - t, q + 1) && b == (q - t, q + 1);
      assert Cheb(a) == q + 1 == Cheb(b);
    } else {
      assert a == (-q - 1, q + 1 - t) && b == (-q - 1, q - t);
      assert Cheb(a) == q + 1 == Cheb(b);
    }
  }

  /** Along a leg that starts at its closed-form corner, the ring number never drops. */
  lemma RingOutward(m: nat, t: nat)
    requires t < LegLength(m)
    ensures Cheb(Walk(Ring(m), m % 4, t)) <= Cheb(Walk(Ring(m), m % 4, t + 1))
  {
    var q, r := m / 4, m % 4;
    assert LegLength(m) == 2 * q + (if r < 2 then 1 else 2) by {
      assert m == 4 * q + r;
    }
    RadiusAlongLeg(q, r, t);
  }

  /** Along a leg, the ring number never drops. */
  lemma LegOutward(m: nat, t: nat)
    requires t < LegLength(m)
    ensures Cheb(Walk(Corner(m), m % 4, t)) <= Cheb(Walk(Corner(m), m % 4, t + 1))
  {
    CornerClosedForm(m);
    RingOutward(m, t);
  }

  /** Point `k` is `t` steps into the leg that point `k + 1` lies on, where `t + 1` steps reach point `k + 1`. */
  lemma PointBefore(k: nat)
    ensures var m := LegOf(k + 1);
            SpiralPoint(k) == Walk(Corner(m), m % 4, k + 1 - LegStart(m))
  {
    var m := LegOf(k + 1);
    var t := k + 1 - LegStart(m);
    if t >= 1 {
      LegOfUnique(k, m);
      assert SpiralPoint(k) == Walk(Corner(m), m % 4, k - LegStart(m) + 1);
    } else if m >= 1 {
      assert k == LegStart(m - 1) + LegLength(m - 1) - 1;
      LegOfUnique(k, m - 1);
      assert SpiralPoint(k) == Walk(Corner(m - 1), (m - 1) % 4, LegLength(m - 1)) == Corner(m);
    } else {
      assert k == 0;
    }
  }

  /** Consecutive points of the reference spiral are one step apart, in the heading of the leg. */
  lemma ReferenceStep(k: nat)
    ensures SpiralPoint(k + 1) == Step(SpiralPoint(k), LegOf(k + 1) % 4)
    ensures Cheb(SpiralPoint(k)) <= Cheb(SpiralPoint(k + 1))
  {
    var m := LegOf(k + 1);
    var t := k + 1 - LegStart(m);
    var c := Corner(m);
    assert SpiralPoint(k + 1) == Walk(c, m % 4, t + 1);
    PointBefore(k);
    assert SpiralPoint(k) == Walk(c, m % 4, t);
    WalkStep(c, m % 4, t);
    LegOutward(m, t);
  }

  /**
   * For `num_points >= 1` the spiral has exactly `num_points` points, starts at the origin, moves
   * one unit east, north, west or south at every step, following the legs' headings, and never
   * comes closer to the origin in the Chebyshev distance.
   */
  lemma SpiralProperties(n: int)
    ensures |Spiral(n)| == Count(n)
    ensures n >= 1 ==> Spiral(n)[0] == (0, 0)
    ensures forall k :: 0 <= k < |Spiral(n)| - 1 ==>
              Spiral(n)[k + 1] == Step(Spiral(n)[k], LegOf(k + 1) % 4)
    ensures forall k :: 0 <= k < |Spiral(n)| - 1 ==> Cheb(Spiral(n)[k]) <= Cheb(Spiral(n)[k + 1])
  {
    SpiralIsReference(n);
    forall k | 0 <= k < |Spiral(n)| - 1
      ensures Spiral(n)[k + 1] == Step(Spiral(n)[k], LegOf(k + 1) % 4)
      ensures Cheb(Spiral(n)[k]) <= Cheb(Spiral(n)[k + 1])
    {
      ReferenceStep(k);
    }
  }

  /** With the program's default arguments: twelve points for raster and snake, fifty for the spiral. */
  lemma DefaultPaths()
    ensures |Raster()| == 12 && |Snake()| == 12 && |Spiral()| == 50
  {
    SpiralProperties(50);
  }
}
