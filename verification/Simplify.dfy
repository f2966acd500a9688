/**
  tracking/simplify.go: Douglas-Peucker over a vehicle track.

  Coordinates are reals, `scale` is the metres-per-degree of longitude at a latitude (any
  function), and distances are compared by their squares, so neither cosine nor root is needed.
 */
module Simplify {

  datatype Position = Position(id: int, lat: real, lon: real)

  type Scale = real -> real

  const METERS_PER_DEGREE_LAT := 111132.0

  function Clamp01(t: real): real {
    if t < 0.0 then 0.0 else if t > 1.0 then 1.0 else t
  }

  function Square(x: real): real {
    x * x
  }

  /** Offset of `p` from `a` in metres, projected at the middle of `a` and `b`. */
  function East(scale: Scale, p: Position, a: Position, b: Position): real {
    (p.lon - a.lon) * scale((a.lat + b.lat) / 2.0)
  }

  function North(p: Position, a: Position): real {
    (p.lat - a.lat) * METERS_PER_DEGREE_LAT
  }

  /** Squared distance from (px, py) to the point at fraction t of the way to (qx, qy). */
  function ToPointAt(px: real, py: real, qx: real, qy: real, t: real): real {
    Square(px - t * qx) + Square(py - t * qy)
  }

  function ToSegment(px: real, py: real, qx: real, qy: real): real {
    var lenSq := Square(qx) + Square(qy);
    if lenSq == 0.0 then Square(px) + Square(py)
    else ToPointAt(px, py, qx, qy, Clamp01((px * qx + py * qy) / lenSq))
  }

  /** The square of perpendicularDistance. */
  function DistSq(scale: Scale, p: Position, a: Position, b: Position): real {
    ToSegment(East(scale, p, a, b), North(p, a), East(scale, b, a, b), North(b, a))
  }

  // ---- perpendicularDistance is the distance to the segment ----

  /** No point of the segment is closer than the one the code picks. */
  lemma NearestOnSegment(px: real, py: real, qx: real, qy: real, t: real)
    requires 0.0 <= t <= 1.0
    ensures ToSegment(px, py, qx, qy) <= ToPointAt(px, py, qx, qy, t)
  {
    var lenSq, dot := Square(qx) + Square(qy), px * qx + py * qy;
    SquaresVanish(qx, qy);
    if lenSq != 0.0 {
      var u := Clamp01(dot / lenSq);
      hide Square, ToPointAt, Clamp01;
      Parabola(px, py, qx, qy, t, lenSq, dot);
      Parabola(px, py, qx, qy, u, lenSq, dot);
      CloserToVertex(lenSq, dot, dot / lenSq, t, u);
    }
  }

  /** The point it picks does lie on the segment. */
  lemma PickedIsOnSegment(px: real, py: real, qx: real, qy: real) returns (u: real)
    ensures 0.0 <= u <= 1.0 && ToSegment(px, py, qx, qy) == ToPointAt(px, py, qx, qy, u)
  {
    var lenSq := Square(qx) + Square(qy);
    if lenSq == 0.0 {
      u := 0.0;
    } else {
      u := Clamp01((px * qx + py * qy) / lenSq);
    }
  }

  /**
    The square of the distance in metres, `perDegree` of them to a degree of longitude, from `p` to the
    point at fraction `t` of the way from `a` to `b`.
   */
  function GapSq(perDegree: real, p: Position, a: Position, b: Position, t: real): real {
    var east := (p.lon - a.lon - t * (b.lon - a.lon)) * perDegree;
    var north := (p.lat - a.lat - t * (b.lat - a.lat)) * 111132.0;
    east * east + north * north
  }

  lemma OffsetsScale(x: real, y: real, t: real, s: real)
    ensures x * s - t * (y * s) == (x - t * y) * s
  {
  }

  lemma GapIsOffset(scale: Scale, p: Position, a: Position, b: Position, t: real)
    ensures GapSq(scale((a.lat + b.lat) / 2.0), p, a, b, t)
      == ToPointAt(East(scale, p, a, b), North(p, a), East(scale, b, a, b), North(b, a), t)
  {
    OffsetsScale(p.lon - a.lon, b.lon - a.lon, t, scale((a.lat + b.lat) / 2.0));
    OffsetsScale(p.lat - a.lat, b.lat - a.lat, t, 111132.0);
  }

  /** On the map: no point of the segment between two positions is closer than the distance computed. */
  lemma DistanceIsLeast(scale: Scale, p: Position, a: Position, b: Position, t: real)
    requires 0.0 <= t <= 1.0
    ensures DistSq(scale, p, a, b) <= GapSq(scale((a.lat + b.lat) / 2.0), p, a, b, t)
  {
    hide ToSegment, ToPointAt, GapSq, East, North;
    GapIsOffset(scale, p, a, b, t);
    NearestOnSegment(East(scale, p, a, b), North(p, a), East(scale, b, a, b), North(b, a), t);
  }

  /** And some point of the segment is exactly that far. */
  lemma DistanceIsAttained(scale: Scale, p: Position, a: Position, b: Position) returns (t: real)
    ensures 0.0 <= t <= 1.0 && DistSq(scale, p, a, b) == GapSq(scale((a.lat + b.lat) / 2.0), p, a, b, t)
  {
    hide ToSegment, ToPointAt, GapSq, East, North;
    t := PickedIsOnSegment(East(scale, p, a, b), North(p, a), East(scale, b, a, b), North(b, a));
    GapIsOffset(scale, p, a, b, t);
  }

  /** The point at fraction `t` of the segment lies within the tolerance. */
  predicate NearAt(scale: Scale, p: Position, a: Position, b: Position, tolerance: real, t: real) {
    0.0 <= t <= 1.0 && GapSq(scale((a.lat + b.lat) / 2.0), p, a, b, t) <= tolerance * tolerance
  }

  /** Some point of the segment does. */
  ghost predicate Near(scale: Scale, p: Position, a: Position, b: Position, tolerance: real) {
    exists t: real :: NearAt(scale, p, a, b, tolerance, t)
  }

  lemma NearIff(scale: Scale, p: Position, a: Position, b: Position, tolerance: real)
    ensures Near(scale, p, a, b, tolerance) <==> DistSq(scale, p, a, b) <= tolerance * tolerance
  {
    hide DistSq, GapSq;
    if DistSq(scale, p, a, b) <= tolerance * tolerance {
      var t := DistanceIsAttained(scale, p, a, b);
      assert NearAt(scale, p, a, b, tolerance, t);
    }
    if Near(scale, p, a, b, tolerance) {
      var t: real :| NearAt(scale, p, a, b, tolerance, t);
      DistanceIsLeast(scale, p, a, b, t);
    }
  }

  lemma SquaresVanish(x: real, y: real)
    ensures Square(x) >= 0.0 && Square(y) >= 0.0
    ensures Square(x) + Square(y) == 0.0 ==> x == 0.0 && y == 0.0
  {
    SquarePositive(x);
    SquarePositive(y);
  }

  lemma SquarePositive(x: real)
    ensures Square(x) >= 0.0 && (x != 0.0 ==> Square(x) > 0.0)
  {
    if x > 0.0 {
      Positive(x, x, Square(x));
    } else if x < 0.0 {
      SquareOfNegative(x, -x);
      Positive(-x, -x, Square(-x));
    }
  }

  lemma Positive(a: real, b: real, product: real)
    requires a > 0.0 && b > 0.0 && product == a * b
    ensures product > 0.0
  {
  }

  lemma SquareOfNegative(x: real, y: real)
    requires x == -y
    ensures Square(x) == Square(y)
  {
  }

  lemma SameSign(a: real, b: real)
    requires (a >= 0.0 && b >= 0.0) || (a <= 0.0 && b <= 0.0)
    ensures a * b >= 0.0
  {
    if a <= 0.0 {
      var c, d := -a, -b;
      assert c * d == a * b;
      if b <= 0.0 {
        assert c * d >= 0.0;
      }
    }
  }

  lemma Parabola(px: real, py: real, qx: real, qy: real, t: real, lenSq: real, dot: real)
    requires lenSq == Square(qx) + Square(qy) && dot == px * qx + py * qy
    ensures ToPointAt(px, py, qx, qy, t) == Square(px) + Square(py) + (Square(t) * lenSq - 2.0 * t * dot)
  {
    SquareOfDifference(px, qx, t);
    SquareOfDifference(py, qy, t);
    assert Square(t) * lenSq == Square(t) * Square(qx) + Square(t) * Square(qy);
    assert 2.0 * t * dot == 2.0 * t * (px * qx) + 2.0 * t * (py * qy);
  }

  lemma SquareOfDifference(p: real, b: real, t: real)
    ensures Square(p - t * b) == Square(p) - 2.0 * t * (p * b) + Square(t) * Square(b)
  {
    var x := t * b;
    assert Square(p - x) == p * p - 2.0 * (p * x) + x * x;
    assert p * x == t * (p * b);
    assert x * x == Square(t) * Square(b) by {
      assert x * x == t * (b * (t * b));
      assert b * (t * b) == t * (b * b);
      assert t * (t * (b * b)) == (t * t) * (b * b);
    }
  }

  /** On the parabola with vertex `best`, the clamped vertex is lowest among [0, 1]. */
  lemma CloserToVertex(lenSq: real, dot: real, best: real, t: real, u: real)
    requires lenSq >= 0.0 && 0.0 <= t <= 1.0 && u == Clamp01(best) && dot == best * lenSq
    ensures Square(u) * lenSq - 2.0 * u * dot <= Square(t) * lenSq - 2.0 * t * dot
  {
    var gain := (t - u) * (t + u - 2.0 * best);
    SameSign(t - u, t + u - 2.0 * best);
    SameSign(gain, lenSq);
    assert gain == (Square(t) - 2.0 * t * best) - (Square(u) - 2.0 * u * best);
    Expand(lenSq, dot, best, t);
    Expand(lenSq, dot, best, u);
  }

  lemma Expand(lenSq: real, dot: real, best: real, t: real)
    requires dot == best * lenSq
    ensures (Square(t) - 2.0 * t * best) * lenSq == Square(t) * lenSq - 2.0 * t * dot
  {
    assert (2.0 * t * best) * lenSq == 2.0 * t * (best * lenSq);
  }

  // ---- The split index ----

  /** The search loop after looking at the points strictly between `first` and `n`. */
  function Farthest(scale: Scale, pos: seq<Position>, first: nat, last: nat, n: nat): (r: (nat, real))
    requires first < last < |pos| && n <= last
    ensures r.1 >= 0.0 && (r.1 > 0.0 ==> first < r.0 < n)
    decreases n
  {
    if n <= first + 1 then (first, 0.0)
    else
      var best := Farthest(scale, pos, first, last, n - 1);
      var d := DistSq(scale, pos[n - 1], pos[first], pos[last]);
      if d > best.1 then (n - 1, d) else best
  }

  /** It finds the greatest distance, at the first point that has it. */
  lemma {:induction false} FarthestIsFirstMaximum(scale: Scale, pos: seq<Position>, first: nat, last: nat, n: nat)
    requires first < last < |pos| && n <= last
    ensures var r := Farthest(scale, pos, first, last, n);
      && (r.1 > 0.0 ==> DistSq(scale, pos[r.0], pos[first], pos[last]) == r.1)
      && (forall i | first < i < n :: DistSq(scale, pos[i], pos[first], pos[last]) <= r.1)
      && (r.1 > 0.0 ==> forall i | first < i < r.0 :: DistSq(scale, pos[i], pos[first], pos[last]) < r.1)
    decreases n
  {
    hide DistSq;
    if n > first + 1 {
      FarthestIsFirstMaximum(scale, pos, first, last, n - 1);
    }
  }

  /** The first maximum is the only index the search can return. */
  lemma FirstMaximum(scale: Scale, pos: seq<Position>, last: nat, k: nat, d: real)
    requires 0 < k < last < |pos| && d > 0.0 && DistSq(scale, pos[k], pos[0], pos[last]) == d
    requires forall i | 0 < i < last :: DistSq(scale, pos[i], pos[0], pos[last]) <= d
    requires forall i | 0 < i < k :: DistSq(scale, pos[i], pos[0], pos[last]) < d
    ensures Farthest(scale, pos, 0, last, last) == (k, d)
  {
    hide DistSq, Farthest;
    FarthestIsFirstMaximum(scale, pos, 0, last, last);
  }

  /** Which points strictly inside (first, last) simplifySegment marks. */
  function Kept(scale: Scale, pos: seq<Position>, tolerance: real, first: nat, last: nat): (k: set<nat>)
    requires first < last < |pos| && tolerance > 0.0
    ensures forall i | i in k :: first < i < last
    decreases last - first
  {
    if last <= first + 1 then {}
    else
      var far := Farthest(scale, pos, first, last, last);
      if far.1 <= Square(tolerance) then {}
      else
        Kept(scale, pos, tolerance, first, far.0) + {far.0} + Kept(scale, pos, tolerance, far.0, last)
  }

  /** simplifySegment, marking `keep` in place. */
  method SimplifySegment(scale: Scale, pos: seq<Position>, first: nat, last: nat, tolerance: real, keep: array<bool>)
    requires first < last < |pos| == keep.Length && tolerance > 0.0
    modifies keep
    ensures forall i: nat | i < keep.Length ::
      keep[i] == (old(keep[i]) || i in Kept(scale, pos, tolerance, first, last))
    decreases last - first
  {
    hide DistSq;
    if last <= first + 1 {
      return;
    }
    var maxSq := 0.0;
    var maxIdx := first;
    var i := first + 1;
    while i < last
      invariant first < i <= last && (maxIdx, maxSq) == Farthest(scale, pos, first, last, i)
    {
      var d := DistSq(scale, pos[i], pos[first], pos[last]);
      if d > maxSq {
        maxSq := d;
        maxIdx := i;
      }
      i := i + 1;
    }
    if maxSq <= Square(tolerance) {
      return;
    }
    keep[maxIdx] := true;
    SimplifySegment(scale, pos, first, maxIdx, tolerance, keep);
    SimplifySegment(scale, pos, maxIdx, last, tolerance, keep);
  }

  /** The points of pos[first..n] whose index is in `marks`. */
  function Pick(pos: seq<Position>, marks: set<nat>, first: nat, n: nat): seq<Position>
    requires first <= n <= |pos|
    decreases n
  {
    if n == first then []
    else Pick(pos, marks, first, n - 1) + if n - 1 in marks then [pos[n - 1]] else []
  }

  function Marks(scale: Scale, pos: seq<Position>, tolerance: real): set<nat>
    requires |pos| >= 2 && tolerance > 0.0
  {
    {0} + Kept(scale, pos, tolerance, 0, |pos| - 1) + {|pos| - 1}
  }

  /** Simplify itself, against the recursion on point sequences. */
  method SimplifyTrack(scale: Scale, pos: seq<Position>, tolerance: real) returns (out: seq<Position>)
    ensures out == Simplified(scale, pos, tolerance)
    ensures |pos| >= 3 && tolerance > 0.0 ==> out == Pick(pos, Marks(scale, pos, tolerance), 0, |pos|)
  {
    hide Kept, Reduce, Farthest, DistSq;
    if |pos| < 3 || tolerance <= 0.0 {
      return pos;
    }
    var keep := new bool[|pos|](_ => false);
    keep[0] := true;
    keep[|pos| - 1] := true;
    SimplifySegment(scale, pos, 0, |pos| - 1, tolerance, keep);
    ghost var marks := Marks(scale, pos, tolerance);
    out := [];
    for i := 0 to |pos|
      invariant forall k: nat | k < |pos| :: keep[k] == (k in marks)
      invariant out == Pick(pos, marks, 0, i)
    {
      if keep[i] {
        out := out + [pos[i]];
      }
    }
    MarksAreReduce(scale, pos, tolerance);
  }

  // ---- The same algorithm as a recursion on point sequences ----

  function Reduce(scale: Scale, s: seq<Position>, tolerance: real): (r: seq<Position>)
    requires |s| >= 2 && tolerance > 0.0
    ensures 2 <= |r| <= |s| && r[0] == s[0] && r[|r| - 1] == s[|s| - 1]
    decreases |s|
  {
    if |s| == 2 then s
    else
      var far := Farthest(scale, s, 0, |s| - 1, |s| - 1);
      if far.1 <= Square(tolerance) then [s[0], s[|s| - 1]]
      else Reduce(scale, s[..far.0 + 1], tolerance) + Reduce(scale, s[far.0..], tolerance)[1..]
  }

  function Simplified(scale: Scale, pos: seq<Position>, tolerance: real): seq<Position> {
    if |pos| < 3 || tolerance <= 0.0 then pos else Reduce(scale, pos, tolerance)
  }

  lemma {:induction false} FarthestInSlice(scale: Scale, pos: seq<Position>, first: nat, last: nat, n: nat)
    requires first < last < |pos| && first <= n <= last
    ensures var here, there := Farthest(scale, pos[first..last + 1], 0, last - first, n - first), Farthest(scale, pos, first, last, n);
      here.1 == there.1 && here.0 + first == there.0
    decreases n
  {
    hide DistSq;
    if n > first + 1 {
      FarthestInSlice(scale, pos, first, last, n - 1);
    }
  }

  lemma {:induction false} PickSplit(pos: seq<Position>, marks: set<nat>, first: nat, m: nat, n: nat)
    requires first <= m <= n <= |pos|
    ensures Pick(pos, marks, first, n) == Pick(pos, marks, first, m) + Pick(pos, marks, m, n)
    decreases n
  {
    if n > m {
      PickSplit(pos, marks, first, m, n - 1);
    }
  }

  lemma {:induction false} PickAgree(pos: seq<Position>, a: set<nat>, b: set<nat>, first: nat, n: nat)
    requires first <= n <= |pos| && forall i: nat | first <= i < n :: i in a <==> i in b
    ensures Pick(pos, a, first, n) == Pick(pos, b, first, n)
    decreases n
  {
    if n > first {
      PickAgree(pos, a, b, first, n - 1);
    }
  }

  /** One unfolding of Kept. */
  lemma KeptStep(scale: Scale, pos: seq<Position>, tolerance: real, first: nat, last: nat)
    requires first < last < |pos| && tolerance > 0.0
    ensures var far := Farthest(scale, pos, first, last, last);
      if last == first + 1 || far.1 <= Square(tolerance) then Kept(scale, pos, tolerance, first, last) == {}
      else
        && first < far.0 < last
        && Kept(scale, pos, tolerance, first, last)
          == Kept(scale, pos, tolerance, first, far.0) + {far.0} + Kept(scale, pos, tolerance, far.0, last)
  {
    SquarePositive(tolerance);
  }

  /** One unfolding of Reduce. */
  lemma ReduceStep(scale: Scale, s: seq<Position>, tolerance: real)
    requires |s| >= 2 && tolerance > 0.0
    ensures var far := Farthest(scale, s, 0, |s| - 1, |s| - 1);
      if |s| == 2 || far.1 <= Square(tolerance) then Reduce(scale, s, tolerance) == [s[0], s[|s| - 1]]
      else
        && 0 < far.0 < |s| - 1
        && Reduce(scale, s, tolerance)
          == Reduce(scale, s[..far.0 + 1], tolerance) + Reduce(scale, s[far.0..], tolerance)[1..]
  {
    SquarePositive(tolerance);
  }

  /** Marking in place and recursion on sequences keep the same points of every segment. */
  lemma {:induction false} KeptIsReduce(scale: Scale, pos: seq<Position>, tolerance: real, first: nat, last: nat)
    requires first < last < |pos| && tolerance > 0.0
    ensures Pick(pos, {first} + Kept(scale, pos, tolerance, first, last) + {last}, first, last + 1)
      == Reduce(scale, pos[first..last + 1], tolerance)
    decreases last - first
  {
    hide Farthest, DistSq, Pick, Kept, Reduce, Square;
    KeptStep(scale, pos, tolerance, first, last);
    var far := Farthest(scale, pos, first, last, last);
    var marks := {first} + Kept(scale, pos, tolerance, first, last) + {last};
    if last == first + 1 || far.1 <= Square(tolerance) {
      SliceEnds(scale, pos, tolerance, first, last, pos[first..last + 1]);
      PickEnds(pos, marks, first, last);
    } else {
      SliceStep(scale, pos, tolerance, first, far.0, last, pos[first..last + 1]);
      KeptIsReduce(scale, pos, tolerance, first, far.0);
      KeptIsReduce(scale, pos, tolerance, far.0, last);
      PickHalves(pos, marks,
        {first} + Kept(scale, pos, tolerance, first, far.0) + {far.0},
        {far.0} + Kept(scale, pos, tolerance, far.0, last) + {last}, first, far.0, last);
    }
  }

  /** One unfolding of Reduce on a slice, in terms of the whole track. */
  lemma SliceEnds(scale: Scale, pos: seq<Position>, tolerance: real, first: nat, last: nat, s: seq<Position>)
    requires first < last < |pos| && tolerance > 0.0 && s == pos[first..last + 1]
    requires last == first + 1 || Farthest(scale, pos, first, last, last).1 <= Square(tolerance)
    ensures Reduce(scale, s, tolerance) == [pos[first], pos[last]]
  {
    hide Farthest, Reduce, Square, DistSq;
    FarthestInSlice(scale, pos, first, last, last);
    ReduceStep(scale, s, tolerance);
    assert s[0] == pos[first] && s[|s| - 1] == pos[last];
  }

  lemma SliceStep(scale: Scale, pos: seq<Position>, tolerance: real, first: nat, m: nat, last: nat, s: seq<Position>)
    requires first < m < last < |pos| && tolerance > 0.0 && s == pos[first..last + 1]
    requires var far := Farthest(scale, pos, first, last, last); far.0 == m && far.1 > Square(tolerance)
    ensures Reduce(scale, s, tolerance)
      == Reduce(scale, pos[first..m + 1], tolerance) + Reduce(scale, pos[m..last + 1], tolerance)[1..]
  {
    hide Farthest, Reduce, Square;
    FarthestInSlice(scale, pos, first, last, last);
    SliceOfSlice(pos, first, m, last);
    ReduceStep(scale, s, tolerance);
  }

  lemma SliceOfSlice(pos: seq<Position>, first: nat, m: nat, last: nat)
    requires first < m < last < |pos|
    ensures pos[first..last + 1][..m - first + 1] == pos[first..m + 1]
    ensures pos[first..last + 1][m - first..] == pos[m..last + 1]
  {
  }

  lemma PickHalves(pos: seq<Position>, marks: set<nat>, left: set<nat>, right: set<nat>, first: nat, m: nat, last: nat)
    requires first < m < last < |pos| && m in right
    requires forall i: nat | first <= i <= m :: i in marks <==> i in left
    requires forall i: nat | m < i <= last :: i in marks <==> i in right
    ensures |Pick(pos, right, m, last + 1)| > 0
    ensures Pick(pos, marks, first, last + 1) == Pick(pos, left, first, m + 1) + Pick(pos, right, m, last + 1)[1..]
  {
    hide Pick;
    PickSplit(pos, marks, first, m + 1, last + 1);
    PickAgree(pos, marks, left, first, m + 1);
    PickAgree(pos, marks, right, m + 1, last + 1);
    PickSplit(pos, right, m, m + 1, last + 1);
    PickOne(pos, right, m);
  }

  lemma PickOne(pos: seq<Position>, marks: set<nat>, m: nat)
    requires m < |pos| && m in marks
    ensures Pick(pos, marks, m, m + 1) == [pos[m]]
  {
    assert Pick(pos, marks, m, m) == [];
  }

  lemma PickEnds(pos: seq<Position>, marks: set<nat>, first: nat, last: nat)
    requires first < last < |pos| && marks == {first, last}
    ensures Pick(pos, marks, first, last + 1) == [pos[first], pos[last]]
  {
    hide Pick;
    PickSplit(pos, marks, first, first + 1, last + 1);
    PickSplit(pos, marks, first + 1, last, last + 1);
    PickOne(pos, marks, last);
    PickOne(pos, marks, first);
    PickAgree(pos, marks, {}, first + 1, last);
    PickNone(pos, first + 1, last);
  }

  lemma {:induction false} PickNone(pos: seq<Position>, first: nat, n: nat)
    requires first <= n <= |pos|
    ensures Pick(pos, {}, first, n) == []
    decreases n
  {
    if n > first {
      PickNone(pos, first, n - 1);
    }
  }

  lemma MarksAreReduce(scale: Scale, pos: seq<Position>, tolerance: real)
    requires |pos| >= 2 && tolerance > 0.0
    ensures Pick(pos, Marks(scale, pos, tolerance), 0, |pos|) == Reduce(scale, pos, tolerance)
  {
    hide Kept, Reduce, Pick;
    KeptIsReduce(scale, pos, tolerance, 0, |pos| - 1);
    assert pos[0..|pos|] == pos;
  }

  // ---- The three guarantees ----

  /** Both ends are kept between `first` and `last`, and nothing between them is. */
  predicate KeptNeighbours(scale: Scale, pos: seq<Position>, tolerance: real, first: nat, last: nat, a: nat, b: nat)
    requires first < last < |pos| && tolerance > 0.0
  {
    var marks := {first} + Kept(scale, pos, tolerance, first, last) + {last};
    a in marks && b in marks && forall k: nat | a < k < b :: k !in marks
  }

  lemma {:induction false} DroppedIsClose(
      scale: Scale, pos: seq<Position>, tolerance: real, first: nat, last: nat, a: nat, i: nat, b: nat)
    requires first <= a < i < b <= last < |pos| && tolerance > 0.0
    ensures KeptNeighbours(scale, pos, tolerance, first, last, a, b)
      ==> DistSq(scale, pos[i], pos[a], pos[b]) <= Square(tolerance)
    decreases last - first
  {
    hide DistSq, Kept, Square;
    KeptStep(scale, pos, tolerance, first, last);
    FarthestIsFirstMaximum(scale, pos, first, last, last);
    var far := Farthest(scale, pos, first, last, last);
    if far.1 > Square(tolerance) && KeptNeighbours(scale, pos, tolerance, first, last, a, b) {
      if b <= far.0 {
        DroppedIsClose(scale, pos, tolerance, first, far.0, a, i, b);
      } else {
        assert far.0 in Kept(scale, pos, tolerance, first, last);
        DroppedIsClose(scale, pos, tolerance, far.0, last, a, i, b);
      }
    }
  }

  /** Every dropped point is within the tolerance of some point of the segment between its kept neighbours. */
  lemma DroppedWithinTolerance(
      scale: Scale, pos: seq<Position>, tolerance: real, first: nat, last: nat, a: nat, i: nat, b: nat)
    requires first <= a < i < b <= last < |pos| && tolerance > 0.0
    ensures KeptNeighbours(scale, pos, tolerance, first, last, a, b) ==> Near(scale, pos[i], pos[a], pos[b], tolerance)
  {
    hide DistSq, Near, KeptNeighbours;
    DroppedIsClose(scale, pos, tolerance, first, last, a, i, b);
    NearIff(scale, pos[i], pos[a], pos[b], tolerance);
  }

  /** And no point is kept for nothing: at its split it was farther than the tolerance from the whole segment. */
  lemma {:induction false} KeptIsFar(
      scale: Scale, pos: seq<Position>, tolerance: real, first: nat, last: nat, i: nat) returns (a: nat, b: nat)
    requires first < last < |pos| && tolerance > 0.0 && i in Kept(scale, pos, tolerance, first, last)
    ensures first <= a < i < b <= last && !Near(scale, pos[i], pos[a], pos[b], tolerance)
    ensures {a, b} <= {first} + Kept(scale, pos, tolerance, first, last) + {last}
    decreases last - first
  {
    hide DistSq, Kept, Near;
    KeptStep(scale, pos, tolerance, first, last);
    FarthestIsFirstMaximum(scale, pos, first, last, last);
    var far := Farthest(scale, pos, first, last, last);
    if i == far.0 {
      a, b := first, last;
      NearIff(scale, pos[i], pos[a], pos[b], tolerance);
    } else if i < far.0 {
      a, b := KeptIsFar(scale, pos, tolerance, first, far.0, i);
    } else {
      a, b := KeptIsFar(scale, pos, tolerance, far.0, last, i);
    }
  }

  /** A track shrinks to its two ends exactly when every inner point is near the segment between them. */
  lemma OnlyEndsIff(scale: Scale, pos: seq<Position>, tolerance: real)
    requires |pos| >= 3 && tolerance > 0.0
    ensures Simplified(scale, pos, tolerance) == [pos[0], pos[|pos| - 1]] <==>
      forall i | 0 < i < |pos| - 1 :: Near(scale, pos[i], pos[0], pos[|pos| - 1], tolerance)
  {
    hide DistSq, Near, Reduce;
    var n := |pos| - 1;
    var far := Farthest(scale, pos, 0, n, n);
    FarthestIsFirstMaximum(scale, pos, 0, n, n);
    ReduceStep(scale, pos, tolerance);
    forall i | 0 < i < n ensures Near(scale, pos[i], pos[0], pos[n], tolerance) <==> DistSq(scale, pos[i], pos[0], pos[n]) <= tolerance * tolerance {
      NearIff(scale, pos[i], pos[0], pos[n], tolerance);
    }
    if far.1 > tolerance * tolerance {
      assert |Simplified(scale, pos, tolerance)| >= 3;
    }
  }

  /** Too few points, or no tolerance: nothing is dropped. */
  lemma NothingToSimplify(scale: Scale, pos: seq<Position>, tolerance: real)
    requires |pos| < 3 || tolerance <= 0.0
    ensures Simplified(scale, pos, tolerance) == pos
  {
  }

  lemma SquareMonotone(small: real, large: real)
    requires 0.0 < small <= large
    ensures Square(small) <= Square(large)
  {
    assert small * small <= small * large;
    assert small * large <= large * large;
  }

  /** A larger tolerance never keeps a point a smaller one drops. */
  lemma {:induction false} KeptMonotone(
      scale: Scale, pos: seq<Position>, small: real, large: real, first: nat, last: nat)
    requires first < last < |pos| && 0.0 < small <= large
    ensures Kept(scale, pos, large, first, last) <= Kept(scale, pos, small, first, last)
    decreases last - first
  {
    hide DistSq, Kept, Farthest, Square;
    SquareMonotone(small, large);
    KeptStep(scale, pos, small, first, last);
    KeptStep(scale, pos, large, first, last);
    var far := Farthest(scale, pos, first, last, last);
    if last > first + 1 && far.1 > Square(large) {
      KeptMonotone(scale, pos, small, large, first, far.0);
      KeptMonotone(scale, pos, small, large, far.0, last);
    }
  }

  /** Inner points of the result are inner points of the input. */
  lemma {:induction false} ReduceInner(scale: Scale, s: seq<Position>, tolerance: real, j: nat) returns (i: nat)
    requires |s| >= 2 && tolerance > 0.0 && 0 < j < |Reduce(scale, s, tolerance)| - 1
    ensures 0 < i < |s| - 1 && s[i] == Reduce(scale, s, tolerance)[j]
    decreases |s|
  {
    hide DistSq, Farthest, Reduce, Square;
    ReduceStep(scale, s, tolerance);
    var far := Farthest(scale, s, 0, |s| - 1, |s| - 1);
    var left := Reduce(scale, s[..far.0 + 1], tolerance);
    if j < |left| - 1 {
      i := ReduceInner(scale, s[..far.0 + 1], tolerance, j);
    } else if j == |left| - 1 {
      i := far.0;
    } else {
      i := ReduceInner(scale, s[far.0..], tolerance, j - |left| + 1);
      i := i + far.0;
    }
  }

  /** Reducing the kept points again splits at the same point. */
  lemma SameSplit(scale: Scale, s: seq<Position>, tolerance: real, m: nat, d: real, left: seq<Position>, right: seq<Position>)
    requires |s| > 2 && tolerance > 0.0 && 0 < m < |s| - 1 && d > Square(tolerance)
    requires Farthest(scale, s, 0, |s| - 1, |s| - 1) == (m, d)
    requires left == Reduce(scale, s[..m + 1], tolerance) && right == Reduce(scale, s[m..], tolerance)
    ensures Reduce(scale, s, tolerance) == left + right[1..]
    ensures var r := left + right[1..]; Farthest(scale, r, 0, |r| - 1, |r| - 1) == (|left| - 1, d)
  {
    hide DistSq, Reduce, Farthest, Square;
    ReduceStep(scale, s, tolerance);
    SquarePositive(tolerance);
    FarthestIsFirstMaximum(scale, s, 0, |s| - 1, |s| - 1);
    var r, k := Reduce(scale, s, tolerance), |left| - 1;
    forall j | 0 < j < |r| - 1 ensures DistSq(scale, r[j], s[0], s[|s| - 1]) <= d {
      var i := ReduceInner(scale, s, tolerance, j);
    }
    forall j | 0 < j < k ensures DistSq(scale, r[j], s[0], s[|s| - 1]) < d {
      var i := ReduceInner(scale, s[..m + 1], tolerance, j);
    }
    FirstMaximum(scale, r, |r| - 1, k, d);
  }

  lemma Halves(left: seq<Position>, right: seq<Position>)
    requires |left| >= 2 && |right| >= 2 && left[|left| - 1] == right[0]
    ensures var r, k := left + right[1..], |left| - 1; r[..k + 1] == left && r[k..] == right && k < |r| - 1
  {
  }

  lemma {:induction false} ReduceIdempotent(scale: Scale, s: seq<Position>, tolerance: real)
    requires |s| >= 2 && tolerance > 0.0
    ensures Reduce(scale, Reduce(scale, s, tolerance), tolerance) == Reduce(scale, s, tolerance)
    decreases |s|
  {
    hide DistSq, Farthest, Reduce, Square;
    ReduceStep(scale, s, tolerance);
    var far := Farthest(scale, s, 0, |s| - 1, |s| - 1);
    if |s| == 2 || far.1 <= Square(tolerance) {
      ReduceStep(scale, [s[0], s[|s| - 1]], tolerance);
    } else {
      ReduceIdempotent(scale, s[..far.0 + 1], tolerance);
      ReduceIdempotent(scale, s[far.0..], tolerance);
      SplitIdempotent(scale, s, tolerance, far.0, far.1,
        Reduce(scale, s[..far.0 + 1], tolerance), Reduce(scale, s[far.0..], tolerance));
    }
  }

  lemma SplitIdempotent(
      scale: Scale, s: seq<Position>, tolerance: real, m: nat, d: real, left: seq<Position>, right: seq<Position>)
    requires |s| > 2 && tolerance > 0.0 && 0 < m < |s| - 1 && d > Square(tolerance)
    requires Farthest(scale, s, 0, |s| - 1, |s| - 1) == (m, d)
    requires left == Reduce(scale, s[..m + 1], tolerance) && right == Reduce(scale, s[m..], tolerance)
    requires Reduce(scale, left, tolerance) == left && Reduce(scale, right, tolerance) == right
    ensures Reduce(scale, Reduce(scale, s, tolerance), tolerance) == Reduce(scale, s, tolerance)
  {
    hide DistSq, Farthest, Reduce, Square;
    SameSplit(scale, s, tolerance, m, d, left, right);
    Halves(left, right);
    Fixpoint(scale, left + right[1..], tolerance, |left| - 1, d, left, right);
  }

  lemma Fixpoint(
      scale: Scale, r: seq<Position>, tolerance: real, k: nat, d: real, left: seq<Position>, right: seq<Position>)
    requires tolerance > 0.0 && 0 < k < |r| - 1 && d > Square(tolerance)
    requires Farthest(scale, r, 0, |r| - 1, |r| - 1) == (k, d)
    requires r[..k + 1] == left && r[k..] == right && r == left + right[1..]
    requires Reduce(scale, left, tolerance) == left && Reduce(scale, right, tolerance) == right
    ensures Reduce(scale, r, tolerance) == r
  {
    hide Farthest, Reduce, Square;
    ReduceStep(scale, r, tolerance);
  }

  /** Simplifying a simplified track with the same tolerance changes nothing. */
  lemma SimplifyIdempotent(scale: Scale, pos: seq<Position>, tolerance: real)
    ensures Simplified(scale, Simplified(scale, pos, tolerance), tolerance) == Simplified(scale, pos, tolerance)
  {
    if |pos| >= 3 && tolerance > 0.0 {
      ReduceIdempotent(scale, pos, tolerance);
    }
  }
}
