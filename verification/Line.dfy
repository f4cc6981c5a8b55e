/** The integer line algorithm (src/gui/draw.c:112-154). */
module Line {
  import opened Arithmetic

  datatype Point = Point(x: int, y: int)

  function Abs(n: int): nat { if n < 0 then -n else n }

  function Sign(n: int): int { if n < 0 then -1 else if n > 0 then 1 else 0 }

  /** Step i of a line with these extents along the longer and the shorter axis. */
  function Minor(i: nat, major: nat, minor: nat): nat { if major == 0 then 0 else i * minor / major }

  /** The points of the line, from start to end. */
  function At(p: Point, q: Point, i: nat): Point {
    var dx, dy := q.x - p.x, q.y - p.y;
    if Abs(dx) >= Abs(dy) then Point(p.x + Sign(dx) * i, p.y + Sign(dy) * Minor(i, Abs(dx), Abs(dy)))
    else Point(p.x + Sign(dx) * Minor(i, Abs(dy), Abs(dx)), p.y + Sign(dy) * i)
  }

  function Steps(p: Point, q: Point): nat { if Abs(q.x - p.x) >= Abs(q.y - p.y) then Abs(q.x - p.x) else Abs(q.y - p.y) }

  /** The error term wraps around exactly when the quotient goes up by one. */
  lemma StepUp(i: nat, major: nat, minor: nat, y: nat)
    requires 0 < major && minor <= major && y < major && i * minor == Minor(i, major, minor) * major + y
    ensures Minor(i + 1, major, minor) == Minor(i, major, minor) + if y + minor >= major then 1 else 0
    ensures (i + 1) * minor == Minor(i + 1, major, minor) * major + (y + minor - if y + minor >= major then major else 0)
  {
    var q := Minor(i, major, minor);
    assert (i + 1) * minor == i * minor + minor;
    if y + minor >= major {
      assert (q + 1) * major == q * major + major;
      DivUnique((i + 1) * minor, major, q + 1, y + minor - major);
    } else {
      DivUnique((i + 1) * minor, major, q, y + minor);
    }
  }

  lemma Ends(major: nat, minor: nat)
    requires minor <= major
    ensures Minor(0, major, minor) == 0 && Minor(major, major, minor) == minor
  {
    if major > 0 {
      DivUnique(major * minor, major, minor, 0);
    }
  }

  lemma Within(i: nat, major: nat, minor: nat)
    requires i <= major && minor <= major
    ensures Minor(i, major, minor) <= minor
    ensures i < major ==> Minor(i, major, minor) <= Minor(i + 1, major, minor) <= Minor(i, major, minor) + 1
  {
    if major > 0 {
      Monotone(i, major, minor);
      Ordered(i * minor, major * minor, major);
      Ends(major, minor);
      DivMod(i * minor, major);
      StepUp(i, major, minor, i * minor % major);
    }
  }

  lemma SignTimes(d: int, m: nat, n: nat)
    requires m <= Abs(d)
    ensures Sign(d) * Abs(d) == d
    ensures 0 <= Sign(d) * m <= d || d <= Sign(d) * m <= 0
    ensures Abs(m - n) <= 1 ==> Abs(Sign(d) * m - Sign(d) * n) <= 1
  {
  }

  predicate Between(a: int, b: int, c: int) { a <= b <= c || c <= b <= a }

  /** The coordinates along the longer axis, from a over d, and along the shorter one, from b over e. */
  lemma Along(a: int, d: int, b: int, e: int, i: nat)
    requires Abs(e) <= Abs(d) && i <= Abs(d)
    ensures Sign(d) * 0 == 0 && Sign(e) * Minor(0, Abs(d), Abs(e)) == 0
    ensures Sign(d) * Abs(d) == d && Sign(e) * Minor(Abs(d), Abs(d), Abs(e)) == e
    ensures Between(a, a + Sign(d) * i, a + d) && Between(b, b + Sign(e) * Minor(i, Abs(d), Abs(e)), b + e)
    ensures i < Abs(d) ==> Abs(Sign(d) * (i + 1) - Sign(d) * i) <= 1
    ensures i < Abs(d) ==> Abs(Sign(e) * Minor(i + 1, Abs(d), Abs(e)) - Sign(e) * Minor(i, Abs(d), Abs(e))) <= 1
  {
    hide Minor, Sign;
    Ends(Abs(d), Abs(e));
    Within(i, Abs(d), Abs(e));
    SignTimes(d, i, i + 1);
    SignTimes(e, Minor(i, Abs(d), Abs(e)), Minor(i + 1, Abs(d), Abs(e)));
  }

  /** The line begins and ends at the given points, stays in their bounding box, and has no gap: each point is a
      neighbour of the one before. */
  lemma LineIs(p: Point, q: Point, i: nat)
    requires i <= Steps(p, q)
    ensures At(p, q, 0) == p && At(p, q, Steps(p, q)) == q
    ensures Between(p.x, At(p, q, i).x, q.x) && Between(p.y, At(p, q, i).y, q.y)
    ensures i < Steps(p, q) ==> Abs(At(p, q, i + 1).x - At(p, q, i).x) <= 1 && Abs(At(p, q, i + 1).y - At(p, q, i).y) <= 1
  {
    hide Minor, Sign;
    var dx, dy := q.x - p.x, q.y - p.y;
    if Abs(dx) >= Abs(dy) { Along(p.x, dx, p.y, dy, i); } else { Along(p.y, dy, p.x, dx, i); }
  }

  /** The way from a towards d, by n. */
  function Towards(a: int, d: int, n: nat): int { if d < 0 then a - n else if d > 0 then a + n else a }

  /** Along the longer axis a point is one further than the one before; along the shorter one it has gone as many whole steps as
      the line has there: minor / major of the way, rounded down. */
  lemma RoundedDown(p: Point, q: Point, i: nat) returns (n: nat)
    requires i <= Steps(p, q)
    ensures var dx, dy := q.x - p.x, q.y - p.y;
      if Abs(dx) >= Abs(dy) then
        && At(p, q, i) == Point(Towards(p.x, dx, i), Towards(p.y, dy, n))
        && n * Abs(dx) <= i * Abs(dy) && (dx != 0 ==> i * Abs(dy) < n * Abs(dx) + Abs(dx))
      else
        && At(p, q, i) == Point(Towards(p.x, dx, n), Towards(p.y, dy, i))
        && n * Abs(dy) <= i * Abs(dx) < n * Abs(dy) + Abs(dy)
  {
    var dx, dy := q.x - p.x, q.y - p.y;
    if Abs(dx) >= Abs(dy) {
      n := Minor(i, Abs(dx), Abs(dy));
      FloorIs(i, Abs(dx), Abs(dy));
      SignedSteps(dx, i);
      SignedSteps(dy, n);
    } else {
      n := Minor(i, Abs(dy), Abs(dx));
      FloorIs(i, Abs(dy), Abs(dx));
      SignedSteps(dx, n);
      SignedSteps(dy, i);
    }
  }

  lemma FloorIs(i: nat, major: nat, minor: nat)
    requires i <= major && minor <= major
    ensures var n := Minor(i, major, minor); n * major <= i * minor && (major > 0 ==> i * minor < n * major + major)
    ensures minor == 0 ==> Minor(i, major, minor) == 0
  {
    if major > 0 { DivMod(i * minor, major); }
  }

  lemma SignedSteps(d: int, n: nat)
    ensures forall a :: a + Sign(d) * n == Towards(a, d, n)
  {
  }

  /** The pixels set, in order. */
  method DrawLine(p: Point, q: Point) returns (plotted: seq<Point>)
    ensures |plotted| == Steps(p, q) + 1 && forall i :: 0 <= i < |plotted| ==> plotted[i] == At(p, q, i)
  {
    hide Minor;
    var dx, dy := q.x - p.x, q.y - p.y;
    var dxabs, dyabs, sdx, sdy := Abs(dx), Abs(dy), Sign(dx), Sign(dy);
    var x, y, px, py := 0, 0, p.x, p.y;
    plotted := [Point(px, py)];
    if dxabs >= dyabs {
      Ends(dxabs, dyabs);
      for i := 0 to dxabs
        invariant |plotted| == i + 1 && forall k :: 0 <= k < |plotted| ==> plotted[k] == At(p, q, k)
        invariant px == p.x + sdx * i && py == p.y + sdy * Minor(i, dxabs, dyabs)
        invariant 0 <= y && (dxabs > 0 ==> y < dxabs) && i * dyabs == Minor(i, dxabs, dyabs) * dxabs + y
      {
        StepUp(i, dxabs, dyabs, y);
        y := y + dyabs;
        if y >= dxabs {
          y := y - dxabs;
          py := py + sdy;
        }
        px := px + sdx;
        plotted := plotted + [Point(px, py)];
      }
    } else {
      Ends(dyabs, dxabs);
      for i := 0 to dyabs
        invariant |plotted| == i + 1 && forall k :: 0 <= k < |plotted| ==> plotted[k] == At(p, q, k)
        invariant py == p.y + sdy * i && px == p.x + sdx * Minor(i, dyabs, dxabs)
        invariant 0 <= x < dyabs && i * dxabs == Minor(i, dyabs, dxabs) * dyabs + x
      {
        StepUp(i, dyabs, dxabs, x);
        x := x + dxabs;
        if x >= dyabs {
          x := x - dyabs;
          px := px + sdx;
        }
        py := py + sdy;
        plotted := plotted + [Point(px, py)];
      }
    }
  }
}
