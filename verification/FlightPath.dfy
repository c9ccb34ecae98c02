/**
  The flight path check: the nearest point on a segment, and the walk along the segments while
  position samples arrive. Distances are compared by their squares, over exact reals.
 */
module FlightPath {
  import opened Basics

  datatype Vec = Vec(x: real, y: real, z: real)

  function Minus(a: Vec, b: Vec): Vec
  {
    Vec(a.x - b.x, a.y - b.y, a.z - b.z)
  }

  function Dot(a: Vec, b: Vec): real
  {
    a.x * b.x + a.y * b.y + a.z * b.z
  }

  /** The point a + t * (b - a). */
  function At(a: Vec, b: Vec, t: real): Vec
  {
    Vec(a.x + t * (b.x - a.x), a.y + t * (b.y - a.y), a.z + t * (b.z - a.z))
  }

  function DistSq(p: Vec, q: Vec): real
  {
    Dot(Minus(p, q), Minus(p, q))
  }

  ghost predicate OnSegment(q: Vec, a: Vec, b: Vec)
  {
    exists t: real :: 0.0 <= t <= 1.0 && q == At(a, b, t)
  }

  /** q is on the segment, and no point of the segment is nearer to pos. */
  ghost predicate IsNearest(q: Vec, a: Vec, b: Vec, pos: Vec)
  {
    OnSegment(q, a, b) && forall t: real | 0.0 <= t <= 1.0 :: DistSq(pos, q) <= DistSq(pos, At(a, b, t))
  }

  /** pos lies level with b or beyond it, seen along a segment it is not behind the start of. */
  predicate PastEnd(a: Vec, b: Vec, pos: Vec)
  {
    var v, w := Minus(b, a), Minus(pos, a);
    0.0 < Dot(w, v) && Dot(v, v) <= Dot(w, v)
  }

  function Nearest(a: Vec, b: Vec, pos: Vec): Vec
  {
    var v, w := Minus(b, a), Minus(pos, a);
    var c1, c2 := Dot(w, v), Dot(v, v);
    if c1 <= 0.0 then a else if c2 <= c1 then b else At(a, b, c1 / c2)
  }

  lemma SquareNonNegative(x: real)
    ensures x * x >= 0.0
  {
  }

  lemma DotSelf(v: Vec)
    ensures Dot(v, v) >= 0.0
  {
    SquareNonNegative(v.x);
    SquareNonNegative(v.y);
    SquareNonNegative(v.z);
  }

  lemma CoordinateExpand(w: real, v: real, t: real)
    ensures (w - t * v) * (w - t * v) == w * w - 2.0 * t * (w * v) + t * t * (v * v)
  {
  }

  /** Distance along the segment is a parabola in t. */
  lemma Parabola(a: Vec, b: Vec, pos: Vec, t: real)
    ensures var v, w := Minus(b, a), Minus(pos, a);
      DistSq(pos, At(a, b, t)) == Dot(w, w) - 2.0 * t * Dot(w, v) + t * t * Dot(v, v)
  {
    var v, w := Minus(b, a), Minus(pos, a);
    CoordinateExpand(w.x, v.x, t);
    CoordinateExpand(w.y, v.y, t);
    CoordinateExpand(w.z, v.z, t);
    var q := Minus(pos, At(a, b, t));
    assert q.x == w.x - t * v.x && q.y == w.y - t * v.y && q.z == w.z - t * v.z;
    Distribute(2.0 * t, w.x * v.x, w.y * v.y, w.z * v.z);
    Distribute(t * t, v.x * v.x, v.y * v.y, v.z * v.z);
  }

  lemma Distribute(k: real, x: real, y: real, z: real)
    ensures k * (x + y + z) == k * x + k * y + k * z
  {
  }

  lemma BeforeStart(c1: real, c2: real, t: real)
    requires c1 <= 0.0 <= c2 && 0.0 <= t <= 1.0
    ensures 0.0 <= -2.0 * t * c1 + t * t * c2
  {
    assert t * c1 <= 0.0;
    assert t * t >= 0.0;
    assert t * t * c2 >= 0.0;
  }

  lemma AfterEnd(c1: real, c2: real, t: real)
    requires 0.0 <= c2 <= c1 && 0.0 <= t <= 1.0
    ensures -2.0 * c1 + c2 <= -2.0 * t * c1 + t * t * c2
  {
    var u := 1.0 - t;
    assert u * (c1 - c2) >= 0.0;
    assert u * u * c2 >= 0.0 by { SquareNonNegative(u); }
    assert -2.0 * t * c1 + t * t * c2 - (-2.0 * c1 + c2) == 2.0 * (u * (c1 - c2)) + u * u * c2;
  }

  lemma Vertex(c1: real, c2: real, t: real)
    requires 0.0 < c2
    ensures var x := c1 / c2; -2.0 * x * c1 + x * x * c2 <= -2.0 * t * c1 + t * t * c2
  {
    var x := c1 / c2;
    assert x * c2 == c1;
    var d := t - x;
    SquareNonNegative(d);
    assert c2 * (d * d) >= 0.0;
    assert c2 * (d * d) == t * t * c2 - 2.0 * t * (x * c2) + x * (x * c2);
    assert x * x * c2 == x * (x * c2);
  }

  lemma RatioInUnit(c1: real, c2: real)
    requires 0.0 < c1 < c2
    ensures 0.0 <= c1 / c2 <= 1.0
  {
  }

  lemma Ends(a: Vec, b: Vec)
    ensures At(a, b, 0.0) == a && At(a, b, 1.0) == b
  {
  }

  /** In all three branches, and also when the segment is a single point. */
  lemma NearestIsNearest(a: Vec, b: Vec, pos: Vec)
    ensures IsNearest(Nearest(a, b, pos), a, b, pos)
  {
    hide Dot, DistSq, At, Minus;
    var v, w := Minus(b, a), Minus(pos, a);
    var c1, c2 := Dot(w, v), Dot(v, v);
    var s := if c1 <= 0.0 then 0.0 else if c2 <= c1 then 1.0 else c1 / c2;
    DotSelf(v);
    Ends(a, b);
    if 0.0 < c1 < c2 {
      RatioInUnit(c1, c2);
    }
    assert Nearest(a, b, pos) == At(a, b, s);
    Parabola(a, b, pos, s);
    forall t: real | 0.0 <= t <= 1.0
      ensures DistSq(pos, At(a, b, s)) <= DistSq(pos, At(a, b, t))
    {
      Parabola(a, b, pos, t);
      if c1 <= 0.0 {
        BeforeStart(c1, c2, t);
      } else if c2 <= c1 {
        AfterEnd(c1, c2, t);
      } else {
        Vertex(c1, c2, t);
      }
    }
  }

  lemma ProductNonNegative(x: real, y: real)
    requires x >= 0.0 && y >= 0.0
    ensures x * y >= 0.0
  {
  }

  function Square(x: real): real
  {
    x * x
  }

  lemma SquaresOrdered(x: real, y: real)
    ensures 0.0 <= x && x < y ==> x * x < y * y
    ensures 0.0 <= x && x <= y ==> x * x <= y * y
  {
    if 0.0 <= x && x <= y {
      assert y * y - x * x == (y - x) * (y + x);
      if x < y {
        assert y + x > 0.0;
        assert (y - x) * (y + x) > 0.0;
      }
    }
  }

  lemma SquareSign(x: real)
    ensures Square(x) >= 0.0
    ensures x != 0.0 ==> Square(x) > 0.0
  {
    SquareNonNegative(x);
    if x > 0.0 {
      SquaresOrdered(0.0, x);
    } else if x < 0.0 {
      SquaresOrdered(0.0, -x);
      assert (-x) * (-x) == x * x;
    }
  }

  lemma BeyondVertex(c1: real, c2: real, t: real)
    requires 0.0 <= c2 <= c1 && t <= 1.0
    ensures -2.0 * c1 + c2 <= -2.0 * t * c1 + t * t * c2
  {
    var u := 1.0 - t;
    ProductNonNegative(u, c1 - c2);
    SquareNonNegative(u);
    ProductNonNegative(u * u, c2);
    assert -2.0 * t * c1 + t * t * c2 - (-2.0 * c1 + c2) == 2.0 * (u * (c1 - c2)) + u * u * c2;
  }

  lemma SquareGap(t: real, k: real)
    ensures (1.0 - t) * (1.0 - t) * k == k - 2.0 * (t * k) + t * (t * k)
  {
    var tk := t * k;
    assert (1.0 - t) * k == k - tk;
    assert (1.0 - t) * (1.0 - t) * k == (1.0 - t) * (k - tk);
    assert t * (k - tk) == tk - t * tk;
  }

  lemma BelowVertex(c1: real, c2: real)
    requires c1 < c2 && 0.0 < c2
    ensures var t := c1 / c2; t < 1.0 && -2.0 * t * c1 + t * t * c2 < -2.0 * c1 + c2
  {
    var t := c1 / c2;
    assert t * c2 == c1;
    var u := 1.0 - t;
    assert u * c2 == c2 - c1;
    assert u > 0.0;
    assert u * u > 0.0;
    assert u * u * c2 > 0.0;
    SquareGap(t, c2);
    assert t * t * c2 == t * (t * c2) == t * c1;
  }

  lemma DotIsSquares(v: Vec)
    ensures Dot(v, v) == Square(v.x) + Square(v.y) + Square(v.z)
  {
  }

  lemma Apart(a: Vec, b: Vec)
    requires a != b
    ensures Dot(Minus(b, a), Minus(b, a)) > 0.0
  {
    hide Square, Dot;
    var v := Minus(b, a);
    DotIsSquares(v);
    SquareSign(v.x);
    SquareSign(v.y);
    SquareSign(v.z);
    assert v.x != 0.0 || v.y != 0.0 || v.z != 0.0;
  }

  /**
    The end of a segment is passed if and only if, of all points of its line up to the end, the end is
    the nearest; a segment that is a single point is never passed.
   */
  lemma PastEndIff(a: Vec, b: Vec, pos: Vec)
    ensures PastEnd(a, b, pos) <==> a != b && forall t: real | t <= 1.0 :: DistSq(pos, b) <= DistSq(pos, At(a, b, t))
  {
    hide Dot, DistSq, At, Minus;
    var v, w := Minus(b, a), Minus(pos, a);
    var c1, c2 := Dot(w, v), Dot(v, v);
    if a == b {
      NoLength(a, pos);
    } else {
      Apart(a, b);
      Ends(a, b);
      Parabola(a, b, pos, 1.0);
      if c2 <= c1 {
        forall t: real | t <= 1.0
          ensures DistSq(pos, b) <= DistSq(pos, At(a, b, t))
        {
          Parabola(a, b, pos, t);
          BeyondVertex(c1, c2, t);
        }
      } else {
        var t := c1 / c2;
        BelowVertex(c1, c2);
        Parabola(a, b, pos, t);
        assert t <= 1.0 && DistSq(pos, At(a, b, t)) < DistSq(pos, b);
      }
    }
  }

  lemma NoLength(a: Vec, pos: Vec)
    ensures Dot(Minus(pos, a), Minus(a, a)) == 0.0
  {
  }

  //
  // Distances by their squares
  //

  /** distance > radius, for the distance whose square is d2. */
  predicate Exceeds(d2: real, radius: real)
  {
    radius < 0.0 || d2 > radius * radius
  }

  /** distance < radius. */
  predicate Within(d2: real, radius: real)
  {
    radius > 0.0 && d2 < radius * radius
  }

  /** Comparing squares decides what comparing the norm itself would. */
  lemma NormComparison(d: real, radius: real)
    requires d >= 0.0
    ensures Exceeds(d * d, radius) <==> d > radius
    ensures Within(d * d, radius) <==> d < radius
  {
    SquaresOrdered(d, radius);
    SquaresOrdered(radius, d);
  }

  //
  // The walk
  //

  datatype Outcome = Stopped | Finished | LeftTunnel | NoPosition | NoSuchSegment

  /** How a walk ended, and the segment that was active at each sample that had a position. */
  datatype Walk = Walk(outcome: Outcome, visited: seq<nat>)

  /** The segment is done: its end was passed, or is nearer than the tunnel radius. */
  predicate Advances(a: Vec, b: Vec, pos: Vec, radius: real)
  {
    PastEnd(a, b, pos) || Within(DistSq(pos, b), radius)
  }

  /**
    A segment is left if and only if its end was passed, in the sense of PastEndIff, or d, the distance
    from it, is less than the tunnel radius.
   */
  lemma AdvancesIff(a: Vec, b: Vec, pos: Vec, radius: real, d: real)
    requires d >= 0.0 && d * d == DistSq(pos, b)
    ensures Advances(a, b, pos, radius)
      <==> d < radius || (a != b && forall t: real | t <= 1.0 :: DistSq(pos, b) <= DistSq(pos, At(a, b, t)))
  {
    hide DistSq, At, PastEnd;
    PastEndIff(a, b, pos);
    NormComparison(d, radius);
  }

  /** One sample per turn of the loop, None before a position was received; the walk from segment current on. */
  function WalkFrom(positions: seq<Vec>, radius: real, samples: seq<Option<Vec>>, current: nat, count: nat): Walk
    decreases |samples|
  {
    if samples == [] then Walk(Stopped, [])
    else
      match samples[0]
      case None =>
        if count + 1 > 10 then Walk(NoPosition, [])
        else WalkFrom(positions, radius, samples[1..], current, count + 1)
      case Some(pos) =>
        if current + 1 >= |positions| then Walk(NoSuchSegment, [])
        else
          var a, b := positions[current], positions[current + 1];
          if Exceeds(DistSq(pos, Nearest(a, b, pos)), radius) then Walk(LeftTunnel, [current])
          else
            var next := if Advances(a, b, pos, radius) then current + 1 else current;
            if next == |positions| - 1 then Walk(Finished, [current])
            else
              var w := WalkFrom(positions, radius, samples[1..], next, count + 1);
              Walk(w.outcome, [current] + w.visited)
  }

  function Positions(samples: seq<Option<Vec>>): seq<Vec>
  {
    if samples == [] then []
    else (if samples[0].Some? then [samples[0].value] else []) + Positions(samples[1..])
  }

  /** pos is inside the tunnel around segment k. */
  predicate InTunnel(positions: seq<Vec>, radius: real, k: nat, pos: Vec)
  {
    k + 1 < |positions|
    && !Exceeds(DistSq(pos, Nearest(positions[k], positions[k + 1], pos)), radius)
  }

  /**
    Segments are visited from current on, one after the other, never out of range; a segment is left
    exactly when it is done; and each sample but the last was in its segment's tunnel.
   */
  ghost predicate Orderly(positions: seq<Vec>, radius: real, current: nat, visited: seq<nat>, ps: seq<Vec>)
  {
    && |visited| <= |ps|
    && (visited != [] ==> visited[0] == current)
    && (forall i | 0 <= i < |visited| :: visited[i] + 1 < |positions|)
    && (forall i | 0 <= i < |visited| - 1 :: InTunnel(positions, radius, visited[i], ps[i]))
    && (forall i | 0 <= i < |visited| - 1 ::
          var k := visited[i];
          visited[i + 1] == if Advances(positions[k], positions[k + 1], ps[i], radius) then k + 1 else k)
  }

  lemma OrderlyFirst(positions: seq<Vec>, radius: real, current: nat, next: nat,
                     visited: seq<nat>, pos: Vec, ps: seq<Vec>)
    requires current + 1 < |positions|
    requires Orderly(positions, radius, next, visited, ps)
    requires InTunnel(positions, radius, current, pos)
    requires next == if Advances(positions[current], positions[current + 1], pos, radius) then current + 1 else current
    ensures Orderly(positions, radius, current, [current] + visited, [pos] + ps)
  {
    hide InTunnel, Advances;
    var v, q := [current] + visited, [pos] + ps;
    forall i | 0 <= i < |v| - 1
      ensures InTunnel(positions, radius, v[i], q[i])
      ensures v[i + 1] == if Advances(positions[v[i]], positions[v[i] + 1], q[i], radius) then v[i] + 1 else v[i]
    {
      if i > 0 {
        assert v[i] == visited[i - 1] && v[i + 1] == visited[i] && q[i] == ps[i - 1];
      }
    }
  }

  /** Every walk, over any samples, is orderly; with two positions or more no segment is ever missing. */
  lemma {:induction false} WalkInOrder(positions: seq<Vec>, radius: real, samples: seq<Option<Vec>>,
                                       current: nat, count: nat)
    requires current + 1 < |positions|
    ensures var w := WalkFrom(positions, radius, samples, current, count);
      w.outcome != NoSuchSegment && Orderly(positions, radius, current, w.visited, Positions(samples))
    decreases |samples|
  {
    hide Exceeds, Advances, DistSq, Nearest;
    if samples == [] {
    } else {
      match samples[0]
      case None =>
        if count + 1 <= 10 {
          WalkInOrder(positions, radius, samples[1..], current, count + 1);
          assert Positions(samples) == Positions(samples[1..]);
        }
      case Some(pos) =>
        var a, b := positions[current], positions[current + 1];
        var next := if Advances(a, b, pos, radius) then current + 1 else current;
        assert Positions(samples) == [pos] + Positions(samples[1..]);
        if InTunnel(positions, radius, current, pos) && next != |positions| - 1 {
          WalkInOrder(positions, radius, samples[1..], next, count + 1);
          var visited := WalkFrom(positions, radius, samples[1..], next, count + 1).visited;
          OrderlyFirst(positions, radius, current, next, visited, pos, Positions(samples[1..]));
        }
    }
  }

  /**
    A walk is finished if and only if its last sample was in the tunnel and finished the last segment; it
    left the tunnel if and only if its last sample is outside.
   */
  ghost predicate EndsRightly(positions: seq<Vec>, radius: real, w: Walk, ps: seq<Vec>)
  {
    var n := |w.visited|;
    && n <= |ps|
    && (w.outcome == Finished <==>
          && n > 0 && w.visited[n - 1] == |positions| - 2
          && InTunnel(positions, radius, |positions| - 2, ps[n - 1])
          && Advances(positions[|positions| - 2], positions[|positions| - 1], ps[n - 1], radius))
    && (w.outcome == LeftTunnel <==> n > 0 && !InTunnel(positions, radius, w.visited[n - 1], ps[n - 1]))
  }

  lemma EndStays(positions: seq<Vec>, radius: real, current: nat, w: Walk, pos: Vec, ps: seq<Vec>)
    requires EndsRightly(positions, radius, w, ps)
    requires InTunnel(positions, radius, current, pos)
    requires current + 2 == |positions| ==> !Advances(positions[current], positions[current + 1], pos, radius)
    ensures EndsRightly(positions, radius, Walk(w.outcome, [current] + w.visited), [pos] + ps)
  {
    hide InTunnel, Advances;
    var n, v, q := |w.visited|, [current] + w.visited, [pos] + ps;
    if n > 0 {
      assert v[n] == w.visited[n - 1] && q[n] == ps[n - 1];
    }
  }

  lemma {:induction false} WalkEndsRightly(positions: seq<Vec>, radius: real, samples: seq<Option<Vec>>,
                                           current: nat, count: nat)
    requires current + 1 < |positions|
    ensures EndsRightly(positions, radius, WalkFrom(positions, radius, samples, current, count), Positions(samples))
    decreases |samples|
  {
    hide Exceeds, Advances, DistSq, Nearest;
    if samples == [] {
    } else {
      match samples[0]
      case None =>
        if count + 1 <= 10 {
          WalkEndsRightly(positions, radius, samples[1..], current, count + 1);
          assert Positions(samples) == Positions(samples[1..]);
        }
      case Some(pos) =>
        var a, b := positions[current], positions[current + 1];
        var next := if Advances(a, b, pos, radius) then current + 1 else current;
        assert Positions(samples) == [pos] + Positions(samples[1..]);
        if InTunnel(positions, radius, current, pos) && next != |positions| - 1 {
          WalkEndsRightly(positions, radius, samples[1..], next, count + 1);
          var w := WalkFrom(positions, radius, samples[1..], next, count + 1);
          EndStays(positions, radius, current, w, pos, Positions(samples[1..]));
        }
    }
  }

  /** Where the walk stands behind samples that did not end it. */
  function Reached(positions: seq<Vec>, radius: real, samples: seq<Option<Vec>>, current: nat): nat
    decreases |samples|
  {
    if samples == [] then current
    else
      var next :=
        if samples[0].Some? && current + 1 < |positions|
           && Advances(positions[current], positions[current + 1], samples[0].value, radius)
        then current + 1 else current;
      Reached(positions, radius, samples[1..], next)
  }

  function Before(visited: seq<nat>, w: Walk): Walk
  {
    Walk(w.outcome, visited + w.visited)
  }

  lemma WalkStep(positions: seq<Vec>, radius: real, first: Option<Vec>, rest: seq<Option<Vec>>,
                 current: nat, count: nat)
    ensures WalkFrom(positions, radius, [first] + rest, current, count) ==
      match first
      case None =>
        if count + 1 > 10 then Walk(NoPosition, []) else WalkFrom(positions, radius, rest, current, count + 1)
      case Some(pos) =>
        if current + 1 >= |positions| then Walk(NoSuchSegment, [])
        else if !InTunnel(positions, radius, current, pos) then Walk(LeftTunnel, [current])
        else
          var a, b := positions[current], positions[current + 1];
          var next := if Advances(a, b, pos, radius) then current + 1 else current;
          if next == |positions| - 1 then Walk(Finished, [current])
          else Before([current], WalkFrom(positions, radius, rest, next, count + 1))
  {
    hide Exceeds, Advances, DistSq, Nearest;
    assert ([first] + rest)[1..] == rest;
  }

  lemma ReachedStep(positions: seq<Vec>, radius: real, first: Option<Vec>, rest: seq<Option<Vec>>, current: nat)
    ensures var advances := first.Some? && current + 1 < |positions|
        && Advances(positions[current], positions[current + 1], first.value, radius);
      Reached(positions, radius, [first] + rest, current)
        == Reached(positions, radius, rest, if advances then current + 1 else current)
  {
    hide Advances;
    assert ([first] + rest)[1..] == rest;
  }

  lemma WalkOfNothing(positions: seq<Vec>, radius: real, current: nat, count: nat)
    ensures WalkFrom(positions, radius, [], current, count) == Walk(Stopped, [])
    ensures Reached(positions, radius, [], current) == current
  {
  }

  /** A walk that was neither finished nor failed has used up every sample. */
  lemma {:induction false} StoppedAtEnd(positions: seq<Vec>, radius: real, samples: seq<Option<Vec>>,
                                        current: nat, count: nat)
    requires WalkFrom(positions, radius, samples, current, count).outcome == Stopped
    ensures |WalkFrom(positions, radius, samples, current, count).visited| == |Positions(samples)|
    decreases |samples|
  {
    hide InTunnel, Advances, WalkFrom;
    if samples == [] {
      WalkOfNothing(positions, radius, current, count);
    } else {
      var first, rest := samples[0], samples[1..];
      assert samples == [first] + rest;
      WalkStep(positions, radius, first, rest, current, count);
      var advances := first.Some? && Advances(positions[current], positions[current + 1], first.value, radius);
      StoppedAtEnd(positions, radius, rest, if advances then current + 1 else current, count + 1);
    }
  }

  /** A walk over more samples goes on where the walk over the first ones stopped; an ended one stays ended. */
  lemma {:induction false} WalkAppend(positions: seq<Vec>, radius: real, a: seq<Option<Vec>>, b: seq<Option<Vec>>,
                                      current: nat, count: nat)
    ensures var w := WalkFrom(positions, radius, a, current, count);
      WalkFrom(positions, radius, a + b, current, count) ==
        if w.outcome != Stopped then w
        else Before(w.visited, WalkFrom(positions, radius, b, Reached(positions, radius, a, current), count + |a|))
    decreases |a|
  {
    hide InTunnel, Advances, WalkFrom, Reached;
    if a == [] {
      assert a + b == b;
      WalkOfNothing(positions, radius, current, count);
      assert [] + WalkFrom(positions, radius, b, current, count).visited
        == WalkFrom(positions, radius, b, current, count).visited;
    } else {
      var first, rest := a[0], a[1..];
      assert a == [first] + rest && a + b == [first] + (rest + b);
      WalkStep(positions, radius, first, rest, current, count);
      WalkStep(positions, radius, first, rest + b, current, count);
      ReachedStep(positions, radius, first, rest, current);
      var advances := first.Some? && current + 1 < |positions|
        && Advances(positions[current], positions[current + 1], first.value, radius);
      var next := if advances then current + 1 else current;
      WalkAppend(positions, radius, rest, b, next, count + 1);
      var w := WalkFrom(positions, radius, rest, next, count + 1);
      var later := WalkFrom(positions, radius, b, Reached(positions, radius, rest, next), count + 1 + |rest|);
      assert [current] + (w.visited + later.visited) == [current] + w.visited + later.visited;
    }
  }

  /** Sample i has no position, and ten samples or more came before it, the first being number count. */
  predicate TooLate(samples: seq<Option<Vec>>, count: nat, i: nat)
  {
    i < |samples| && samples[i].None? && count + i >= 10
  }

  lemma OneSample(positions: seq<Vec>, radius: real, sample: Option<Vec>, current: nat, count: nat)
    ensures WalkFrom(positions, radius, [sample], current, count).outcome == NoPosition
      <==> sample.None? && count >= 10
  {
    hide Exceeds, Advances, DistSq, Nearest;
    assert [sample][1..] == [];
  }

  /**
    A walk gives up for want of a position if and only if some sample without one comes when ten or more
    have been awaited, and the samples before it have not ended the walk.
   */
  lemma NoPositionIff(positions: seq<Vec>, radius: real, samples: seq<Option<Vec>>, current: nat, count: nat)
    ensures WalkFrom(positions, radius, samples, current, count).outcome == NoPosition
      <==> exists i: nat :: TooLate(samples, count, i)
             && WalkFrom(positions, radius, samples[..i], current, count).outcome == Stopped
  {
    hide WalkFrom;
    if WalkFrom(positions, radius, samples, current, count).outcome == NoPosition {
      var i := GivesUpSomewhere(positions, radius, samples, current, count);
    }
    forall i: nat | TooLate(samples, count, i)
        && WalkFrom(positions, radius, samples[..i], current, count).outcome == Stopped
      ensures WalkFrom(positions, radius, samples, current, count).outcome == NoPosition
    {
      var a, at := samples[..i], Reached(positions, radius, samples[..i], current);
      assert samples == a + ([samples[i]] + samples[i + 1..]);
      OneSample(positions, radius, samples[i], at, count + i);
      WalkAppend(positions, radius, [samples[i]], samples[i + 1..], at, count + i);
      WalkAppend(positions, radius, a, [samples[i]] + samples[i + 1..], current, count);
    }
  }

  lemma {:induction false} GivesUpSomewhere(positions: seq<Vec>, radius: real, samples: seq<Option<Vec>>,
                                            current: nat, count: nat) returns (i: nat)
    requires WalkFrom(positions, radius, samples, current, count).outcome == NoPosition
    ensures TooLate(samples, count, i)
    ensures WalkFrom(positions, radius, samples[..i], current, count).outcome == Stopped
    decreases |samples|
  {
    hide Exceeds, Advances, DistSq, Nearest;
    assert samples != [];
    if samples[0].None? && count + 1 > 10 {
      i := 0;
    } else {
      var next := if samples[0].Some? && Advances(positions[current], positions[current + 1], samples[0].value, radius)
        then current + 1 else current;
      i := GivesUpSomewhere(positions, radius, samples[1..], next, count + 1);
      i := i + 1;
      assert samples[..i][0] == samples[0] && samples[..i][1..] == samples[1..][..i - 1];
    }
  }

  lemma {:induction false} NoSegmentSkipped(positions: seq<Vec>, radius: real, visited: seq<nat>, ps: seq<Vec>, k: nat)
    requires visited != [] && Orderly(positions, radius, visited[0], visited, ps)
    requires visited[0] <= k <= visited[|visited| - 1]
    ensures k in visited
    decreases |visited|
  {
    hide InTunnel, Advances;
    var n := |visited|;
    if k != visited[n - 1] {
      assert n > 1;
      var shorter := visited[..n - 1];
      NoSegmentSkipped(positions, radius, shorter, ps, k);
      assert k in shorter;
    }
  }

  /**
    A walk from the first segment that ends with no more positions: every sample was inside the tunnel
    of the segment active at that sample, and every segment was active at some sample.
   */
  lemma FinishedWalk(positions: seq<Vec>, radius: real, samples: seq<Option<Vec>>)
    requires |positions| >= 2
    requires WalkFrom(positions, radius, samples, 0, 0).outcome == Finished
    ensures var visited, ps := WalkFrom(positions, radius, samples, 0, 0).visited, Positions(samples);
      && |visited| <= |ps|
      && (forall i | 0 <= i < |visited| :: InTunnel(positions, radius, visited[i], ps[i]))
      && (forall k | 0 <= k < |positions| - 1 :: k in visited)
  {
    hide InTunnel, Advances, WalkFrom;
    WalkInOrder(positions, radius, samples, 0, 0);
    WalkEndsRightly(positions, radius, samples, 0, 0);
    var visited := WalkFrom(positions, radius, samples, 0, 0).visited;
    forall k | 0 <= k < |positions| - 1
      ensures k in visited
    {
      NoSegmentSkipped(positions, radius, visited, Positions(samples), k);
    }
  }

  class FlightPathAssertion {
    const positions: seq<Vec>
    const tunnelRadius: real
    var center: Vec
    var endOfSegment: bool
    var failed: bool

    constructor (positions: seq<Vec>, tunnelRadius: real)
      requires positions != []
      ensures this.positions == positions && this.tunnelRadius == tunnelRadius
      ensures center == positions[0] && !endOfSegment && !failed
    {
      this.positions, this.tunnelRadius := positions, tunnelRadius;
      center, endOfSegment, failed := positions[0], false, false;
    }

    /** The squared distance; center becomes the nearest point, and passing the end is remembered. */
    method DistanceToLine(a: Vec, b: Vec, pos: Vec) returns (d2: real)
      modifies `center, `endOfSegment
      ensures center == Nearest(a, b, pos) && IsNearest(center, a, b, pos)
      ensures endOfSegment == (old(endOfSegment) || PastEnd(a, b, pos))
      ensures d2 == DistSq(pos, center)
    {
      hide IsNearest;
      NearestIsNearest(a, b, pos);
      var v, w := Minus(b, a), Minus(pos, a);
      var c1 := Dot(w, v);
      if c1 <= 0.0 {
        center := a;
        return DistSq(pos, a);
      }
      var c2 := Dot(v, v);
      if c2 <= c1 {
        center := b;
        endOfSegment := true;
        return DistSq(pos, b);
      }
      var x := c1 / c2;
      var l := At(a, b, x);
      center := l;
      return DistSq(pos, l);
    }

    /** The loop of run, one sample per turn; a stop request ends the samples. */
    method Run(samples: seq<Option<Vec>>) returns (outcome: Outcome, visited: seq<nat>)
      requires !endOfSegment && !failed
      modifies this
      ensures Walk(outcome, visited) == WalkFrom(positions, tunnelRadius, samples, 0, 0)
      ensures failed <==> outcome == LeftTunnel || outcome == NoPosition
    {
      hide Exceeds, Within, DistSq, Nearest, PastEnd, IsNearest;
      var current: nat, count: nat := 0, 0;
      visited := [];
      for i := 0 to |samples|
        invariant !endOfSegment && !failed
        invariant WalkFrom(positions, tunnelRadius, samples, 0, 0)
          == Before(visited, WalkFrom(positions, tunnelRadius, samples[i..], current, count))
      {
        assert samples[i..][1..] == samples[i + 1..];
        if samples[i].Some? {
          var pos := samples[i].value;
          if current + 1 >= |positions| {
            assert visited + [] == visited;
            return NoSuchSegment, visited;
          }
          var a, b := positions[current], positions[current + 1];
          var d2 := DistanceToLine(a, b, pos);
          var b2 := DistSq(pos, b);
          ghost var w := WalkFrom(positions, tunnelRadius, samples[i + 1..],
            if Advances(a, b, pos, tunnelRadius) then current + 1 else current, count + 1);
          assert visited + ([current] + w.visited) == visited + [current] + w.visited;
          visited := visited + [current];
          if Exceeds(d2, tunnelRadius) {
            failed := true;
            return LeftTunnel, visited;
          }
          if endOfSegment || Within(b2, tunnelRadius) {
            endOfSegment := false;
            current := current + 1;
          }
          if current == |positions| - 1 {
            return Finished, visited;
          }
        }
        count := count + 1;
        if count > 10 && samples[i].None? {
          failed := true;
          assert visited + [] == visited;
          return NoPosition, visited;
        }
      }
      assert visited + [] == visited;
      return Stopped, visited;
    }
  }
}
