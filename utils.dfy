/** The small numeric and string helpers of the game crate's utility module:
    comparisons, the trailing-zero trim of `nice_float`, and the 2D polygon queries. */
module Utils {
  import opened Vectors
  import opened Options

  // ---------------------------------------------------------------------------
  // min / max / clamp (generic over PartialOrd in the source; used on f32)

  /** `max(x, y)` returns `x` only when `x > y`; on equal values it returns `y`. */
  function Max(x: real, y: real): (r: real)
    ensures r >= x && r >= y
    ensures r == x || r == y
  {
    if x > y then x else y
  }

  /** `min(x, y)` returns `x` only when `x < y`. */
  function Min(x: real, y: real): (r: real)
    ensures r <= x && r <= y
    ensures r == x || r == y
  {
    if x < y then x else y
  }

  /** `clamp(x, min, max)`: the bound that `x` falls outside of, or `x` itself. */
  function Clamp(x: real, lo: real, hi: real): (r: real)
    ensures lo <= hi ==> lo <= r <= hi
    ensures lo <= x <= hi ==> r == x
    ensures x < lo ==> r == lo
    ensures lo <= x && hi < x ==> r == hi
  {
    if x < lo then lo else if x > hi then hi else x
  }

  // ---------------------------------------------------------------------------
  // nice_float: only the trim applied to the already formatted string

  /** `n` copies of `c`. */
  function Repeat(c: char, n: nat): (r: string)
    ensures |r| == n && forall i :: 0 <= i < n ==> r[i] == c
  {
    seq(n, _ => c)
  }

  /** `str::trim_end_matches(c)` for a single character: `s` is the result followed by copies
      of `c`, and the result does not itself end in `c`. */
  function TrimEndMatches(s: string, c: char): (r: string)
    ensures |r| <= |s| && s == r + Repeat(c, |s| - |r|)
    ensures |r| > 0 ==> r[|r| - 1] != c
    decreases |s|
  {
    if |s| > 0 && s[|s| - 1] == c then
      var t := TrimEndMatches(s[..|s| - 1], c);
      assert s == t + Repeat(c, |s| - |t|) by {
        assert s == s[..|s| - 1] + [c];
        assert Repeat(c, |s| - 1 - |t|) + [c] == Repeat(c, |s| - |t|);
      }
      t
    else
      assert s == s + Repeat(c, 0);
      s
  }

  /** The part of `nice_float` after `format!`: a string containing a '.' loses its
      trailing '0's and then its trailing '.'s, and an empty result becomes "0". So with a
      '.' the string is some `t`, then `k` dots, then `m` zeros, where `t` does not end in
      '.' and, when there are no dots to strip, does not end in '0' either; the result is `t`,
      or "0" when `t` is empty. A string without '.' is kept, unless it is empty. */
  function NiceFloatTrim(formatted: string): (r: string)
    ensures r != []
    ensures '.' !in formatted ==> r == if formatted == [] then "0" else formatted
    ensures '.' in formatted ==>
              exists t: string, k: nat, m: nat ::
                && formatted == t + Repeat('.', k) + Repeat('0', m)
                && (t != [] ==> t[|t| - 1] != '.')
                && (k == 0 && t != [] ==> t[|t| - 1] != '0')
                && r == (if t == [] then "0" else t)
  {
    if '.' in formatted then
      var t0 := TrimEndMatches(formatted, '0');
      var t := TrimEndMatches(t0, '.');
      assert formatted == t + Repeat('.', |t0| - |t|) + Repeat('0', |formatted| - |t0|);
      if t == [] then "0" else t
    else if formatted == [] then "0"
    else formatted
  }

  /** Trailing copies of `c` make no difference to the trim. */
  lemma {:induction false} TrimEndMatchesRepeat(u: string, c: char, n: nat)
    ensures TrimEndMatches(u + Repeat(c, n), c) == TrimEndMatches(u, c)
    decreases n
  {
    if n > 0 {
      var s := u + Repeat(c, n);
      assert s[|s| - 1] == c;
      assert s[..|s| - 1] == u + Repeat(c, n - 1);
      TrimEndMatchesRepeat(u, c, n - 1);
    } else {
      assert u + Repeat(c, 0) == u;
    }
  }

  /** The converse of `NiceFloatTrim`'s contract: any split of a string with a '.' into `t`,
      dots and zeros that meets the same conditions gives the trim's result, so the
      contract determines it. */
  lemma NiceFloatTrimSplit(formatted: string, t: string, k: nat, m: nat)
    requires '.' in formatted && formatted == t + Repeat('.', k) + Repeat('0', m)
    requires t != [] ==> t[|t| - 1] != '.'
    requires k == 0 && t != [] ==> t[|t| - 1] != '0'
    ensures NiceFloatTrim(formatted) == if t == [] then "0" else t
  {
    TrimEndMatchesRepeat(t + Repeat('.', k), '0', m);
    var u := t + Repeat('.', k);
    if k > 0 {
      assert u[|u| - 1] == '.';
      TrimEndMatchesRepeat(t, '.', k);
    } else {
      assert u == t;
    }
  }

  /** The expectations of `nice_float_test`, on the strings `format!("{:.2}", f)` yields. */
  lemma NiceFloatDropsZeroFraction()
    ensures NiceFloatTrim("15.00") == "15"
  {
    assert Repeat('.', 1) == "." && Repeat('0', 2) == "00";
    NiceFloatTrimSplit("15.00", "15", 1, 2);
  }

  lemma NiceFloatZeroIsZero()
    ensures NiceFloatTrim("0.00") == "0"
  {
    assert Repeat('.', 1) == "." && Repeat('0', 2) == "00";
    NiceFloatTrimSplit("0.00", "0", 1, 2);
  }

  lemma NiceFloatKeepsSignificantDigits()
    ensures NiceFloatTrim("0.10") == "0.1"
    ensures NiceFloatTrim("-0.11") == "-0.11"
  {
    assert Repeat('.', 0) == "" && Repeat('0', 1) == "0" && Repeat('0', 0) == "";
    NiceFloatTrimSplit("0.10", "0.1", 0, 1);
    NiceFloatTrimSplit("-0.11", "-0.11", 0, 0);
  }

  /** An integer without a '.' keeps its trailing zeros. */
  lemma NiceFloatKeepsIntegerZeros()
    ensures NiceFloatTrim("100") == "100"
  {
    assert '.' !in "100" by {
      assert "100"[0] != '.' && "100"[1] != '.' && "100"[2] != '.';
    }
  }

  /** With a '.', only the zeros after it go, and the '.' with them. */
  lemma NiceFloatTrimsAfterInteger()
    ensures NiceFloatTrim("100.10") == "100.1"
    ensures NiceFloatTrim("100.00") == "100"
  {
    assert Repeat('.', 0) == "" && Repeat('.', 1) == "." && Repeat('0', 1) == "0" && Repeat('0', 2) == "00";
    NiceFloatTrimSplit("100.10", "100.1", 0, 1);
    NiceFloatTrimSplit("100.00", "100", 1, 2);
  }

  // ---------------------------------------------------------------------------
  // Nearest point on a segment

  /** The point of the segment v1..v2 nearest to `t`, by clamping the projection parameter. */
  function NearestLinePoint(v1: Vec2, v2: Vec2, t: Vec2): Vec2
  {
    var v1T := Sub2(t, v1);
    var v2V1 := Sub2(v2, v1);
    var normSq := Max(NormSq2(v2V1), 1.0 / 100000000000000000000.0);
    var dot := Dot2(v1T, v2V1) / normSq;
    if dot < 0.0 then v1
    else if dot > 1.0 then v2
    else Add2(v1, Scale2(dot, Sub2(v2, v1)))
  }

  /** The point with parameter `s` on the segment from v1 to v2. */
  function SegmentPoint(v1: Vec2, v2: Vec2, s: real): Vec2
  {
    Add2(v1, Scale2(s, Sub2(v2, v1)))
  }

  /** The projection parameter `nearest_line_point` computes before clamping. */
  function ProjectionParam(v1: Vec2, v2: Vec2, t: Vec2): real
  {
    Dot2(Sub2(t, v1), Sub2(v2, v1)) / Max(NormSq2(Sub2(v2, v1)), 1.0 / 100000000000000000000.0)
  }

  /** The result is the segment point at the projection parameter clamped to [0, 1]:
      `v1` below 0, `v2` above 1. */
  lemma NearestLinePointClamps(v1: Vec2, v2: Vec2, t: Vec2)
    ensures NearestLinePoint(v1, v2, t) == SegmentPoint(v1, v2, Clamp(ProjectionParam(v1, v2, t), 0.0, 1.0))
    ensures ProjectionParam(v1, v2, t) < 0.0 ==> NearestLinePoint(v1, v2, t) == v1
    ensures ProjectionParam(v1, v2, t) > 1.0 ==> NearestLinePoint(v1, v2, t) == v2
  {
    assert SegmentPoint(v1, v2, 0.0) == v1;
    assert SegmentPoint(v1, v2, 1.0) == v2;
  }

  /** Squared distance from `t` to the segment point with parameter `s`, as a quadratic in `s`. */
  lemma SegmentDistSq(v1: Vec2, v2: Vec2, t: Vec2, s: real)
    ensures NormSq2(Sub2(SegmentPoint(v1, v2, s), t))
         == s * s * NormSq2(Sub2(v2, v1)) - 2.0 * s * Dot2(Sub2(t, v1), Sub2(v2, v1)) + NormSq2(Sub2(t, v1))
  {
    var dx, dy := v2.x - v1.x, v2.y - v1.y;
    var ax, ay := t.x - v1.x, t.y - v1.y;
    assert SegmentPoint(v1, v2, s).x - t.x == s * dx - ax;
    assert SegmentPoint(v1, v2, s).y - t.y == s * dy - ay;
    assert (s * dx - ax) * (s * dx - ax) == s * s * (dx * dx) - 2.0 * s * (ax * dx) + ax * ax;
    assert (s * dy - ay) * (s * dy - ay) == s * s * (dy * dy) - 2.0 * s * (ay * dy) + ay * ay;
  }

  /** g(s) - g(u) for the quadratic g(s) = s*s*dd - 2*s*p, with p = dot * dd. */
  lemma QuadraticDifference(dd: real, p: real, dot: real, s: real, u: real)
    requires p == dot * dd
    ensures (s * s * dd - 2.0 * s * p) - (u * u * dd - 2.0 * u * p) == dd * ((s - u) * (s + u - 2.0 * dot))
  {
    calc {
      (s * s * dd - 2.0 * s * p) - (u * u * dd - 2.0 * u * p);
      (s * s - u * u) * dd - 2.0 * (s - u) * (dot * dd);
      ((s - u) * (s + u)) * dd - ((s - u) * (2.0 * dot)) * dd;
      dd * ((s - u) * (s + u - 2.0 * dot));
    }
  }

  /** The clamped parameter minimises (s - u) * (s + u - 2 dot) over s in [0, 1]. */
  lemma ClampMinimises(dot: real, s: real)
    requires 0.0 <= s <= 1.0
    ensures (s - Clamp(dot, 0.0, 1.0)) * (s + Clamp(dot, 0.0, 1.0) - 2.0 * dot) >= 0.0
  {
    var u := Clamp(dot, 0.0, 1.0);
    if dot < 0.0 {
      assert u == 0.0;
      assert s >= 0.0 && s - 2.0 * dot >= 0.0;
      MulNonNeg(s, s - 2.0 * dot);
    } else if dot > 1.0 {
      assert u == 1.0;
      MulNonNeg(1.0 - s, 2.0 * dot - s - 1.0);
      assert (s - 1.0) * (s + 1.0 - 2.0 * dot) == (1.0 - s) * (2.0 * dot - s - 1.0);
    } else {
      assert u == dot;
      assert s + u - 2.0 * dot == s - u;
      if s - u >= 0.0 {
        MulNonNeg(s - u, s - u);
      } else {
        MulNonNeg(u - s, u - s);
        assert (s - u) * (s - u) == (u - s) * (u - s);
      }
    }
  }

  lemma MulNonNeg(a: real, b: real)
    requires (a >= 0.0 && b >= 0.0)
    ensures a * b >= 0.0
  {
  }

  /** Whenever the segment is not shorter than the 1e-10 guard, the clamped projection is
      indeed the nearest point of the segment: no segment point is closer to `t`. */
  lemma NearestLinePointIsNearest(v1: Vec2, v2: Vec2, t: Vec2, s: real)
    requires NormSq2(Sub2(v2, v1)) >= 1.0 / 100000000000000000000.0
    requires 0.0 <= s <= 1.0
    ensures NormSq2(Sub2(NearestLinePoint(v1, v2, t), t)) <= NormSq2(Sub2(SegmentPoint(v1, v2, s), t))
  {
    var u := Clamp(ProjectionParam(v1, v2, t), 0.0, 1.0);
    NearestLinePointClamps(v1, v2, t);
    SegmentDistSq(v1, v2, t, s);
    SegmentDistSq(v1, v2, t, u);
    QuadraticMin(NormSq2(Sub2(v2, v1)), Dot2(Sub2(t, v1), Sub2(v2, v1)), NormSq2(Sub2(t, v1)), s);
  }

  /** Over [0, 1], the quadratic s*s*dd - 2*s*p + n with dd > 0 is smallest at p / dd
      clamped to [0, 1]. */
  lemma QuadraticMin(dd: real, p: real, n: real, s: real)
    requires dd >= 1.0 / 100000000000000000000.0
    requires 0.0 <= s <= 1.0
    ensures var u := Clamp(p / Max(dd, 1.0 / 100000000000000000000.0), 0.0, 1.0);
            u * u * dd - 2.0 * u * p + n <= s * s * dd - 2.0 * s * p + n
  {
    assert Max(dd, 1.0 / 100000000000000000000.0) == dd;
    var dot := p / dd;
    var u := Clamp(dot, 0.0, 1.0);
    assert p == dot * dd;
    QuadraticDifference(dd, p, dot, s, u);
    ClampMinimises(dot, s);
    MulNonNeg(dd, (s - u) * (s + u - 2.0 * dot));
  }

  /** The four cases of `test_nearest_line_point`, exact over the reals. */
  lemma NearestLinePointBeforeStart()
    ensures NearestLinePoint(Vec2(1.0, 2.0), Vec2(3.0, 4.0), Vec2(-1.0, -1.0)) == Vec2(1.0, 2.0)
  {
  }

  lemma NearestLinePointAfterEnd()
    ensures NearestLinePoint(Vec2(1.0, 2.0), Vec2(3.0, 4.0), Vec2(5.0, 5.0)) == Vec2(3.0, 4.0)
  {
  }

  lemma NearestLinePointOnSegment()
    ensures NearestLinePoint(Vec2(1.0, 2.0), Vec2(3.0, 4.0), Vec2(2.0, 3.0)) == Vec2(2.0, 3.0)
  {
    MidpointOfExampleSegment(Vec2(2.0, 3.0));
  }

  lemma NearestLinePointBeside()
    ensures NearestLinePoint(Vec2(1.0, 2.0), Vec2(3.0, 4.0), Vec2(1.0, 4.0)) == Vec2(2.0, 3.0)
  {
    MidpointOfExampleSegment(Vec2(1.0, 4.0));
  }

  /** On the segment (1,2)..(3,4), every point whose projection dot product is 4 projects to
      the midpoint. */
  lemma MidpointOfExampleSegment(t: Vec2)
    requires Dot2(Sub2(t, Vec2(1.0, 2.0)), Vec2(2.0, 2.0)) == 4.0
    ensures NearestLinePoint(Vec2(1.0, 2.0), Vec2(3.0, 4.0), t) == Vec2(2.0, 3.0)
  {
    var v1, v2 := Vec2(1.0, 2.0), Vec2(3.0, 4.0);
    assert Sub2(v2, v1) == Vec2(2.0, 2.0);
    assert NormSq2(Sub2(v2, v1)) == 8.0;
    assert Max(8.0, 1.0 / 100000000000000000000.0) == 8.0;
    assert ProjectionParam(v1, v2, t) == 0.5;
    NearestLinePointClamps(v1, v2, t);
    assert SegmentPoint(v1, v2, 0.5) == Vec2(2.0, 3.0);
  }

  // ---------------------------------------------------------------------------
  // Polygon queries; both assert at least three vertices

  /** The candidate the loop of `nearest_poly_point` computes for the edge starting at vertex `i`. */
  function EdgeCandidate(vs: seq<Vec2>, t: Vec2, i: nat): Vec2
    requires i < |vs|
  {
    NearestLinePoint(vs[i], vs[(i + 1) % |vs|], t)
  }

  function CandidateDistSq(vs: seq<Vec2>, t: Vec2, i: nat): real
    requires i < |vs|
  {
    NormSq2(Sub2(EdgeCandidate(vs, t, i), t))
  }

  /** Returns the edge candidate with the smallest squared distance to `t`; the first edge
      wins ties because the comparison is strict.
      A polygon of fewer than three vertices fails the source's assertion; that panic is `None`. */
  method NearestPolyPoint(vs: seq<Vec2>, t: Vec2) returns (r: Option<Vec2>)
    ensures r.None? <==> |vs| < 3
    ensures r.Some? ==>
              exists k :: 0 <= k < |vs| && r.value == EdgeCandidate(vs, t, k)
                && (forall j :: 0 <= j < |vs| ==> CandidateDistSq(vs, t, k) <= CandidateDistSq(vs, t, j))
                && (forall j :: 0 <= j < k ==> CandidateDistSq(vs, t, k) < CandidateDistSq(vs, t, j))
  {
    if |vs| < 3 {
      return None;
    }
    // `best_dist_sq` starts at +infinity, modelled by `found == false`.
    var found := false;
    var bestDistSq := 0.0;
    var best := Vec2(0.0, 0.0);
    ghost var bestIdx := 0;
    var idx := 0;
    while idx < |vs|
      invariant 0 <= idx <= |vs|
      invariant found <==> idx > 0
      invariant found ==> 0 <= bestIdx < idx && best == EdgeCandidate(vs, t, bestIdx)
                          && bestDistSq == CandidateDistSq(vs, t, bestIdx)
      invariant found ==> forall j :: 0 <= j < idx ==> bestDistSq <= CandidateDistSq(vs, t, j)
      invariant found ==> forall j :: 0 <= j < bestIdx ==> bestDistSq < CandidateDistSq(vs, t, j)
    {
      var v1 := vs[idx];
      var v2 := vs[(idx + 1) % |vs|];
      var candPoint := NearestLinePoint(v1, v2, t);
      var candDistSq := NormSq2(Sub2(candPoint, t));
      if !found || candDistSq < bestDistSq {
        best := candPoint;
        bestDistSq := candDistSq;
        bestIdx := idx;
        found := true;
      }
      idx := idx + 1;
    }
    r := Some(best);
  }

  /** The outward normal test `(t - v1) . normal(v2 - v1)` for the edge starting at vertex `i`. */
  function EdgeSide(vs: seq<Vec2>, t: Vec2, i: nat): real
    requires i < |vs|
  {
    var v1 := vs[i];
    var v2 := vs[(i + 1) % |vs|];
    var v1V2 := Sub2(v2, v1);
    var normal := Vec2(-v1V2.y, v1V2.x);
    Dot2(Sub2(t, v1), normal)
  }

  /** A point is inside a clockwise polygon when it lies strictly on the negative side of every edge. */
  predicate InsidePoly(vs: seq<Vec2>, t: Vec2)
  {
    forall i :: 0 <= i < |vs| ==> EdgeSide(vs, t, i) < 0.0
  }

  /** `is_inside_poly`: folds the edge tests with `&=` and returns false at the first failing edge;
      fewer than three vertices fail the assertion, modelled as `None`. */
  method IsInsidePoly(vs: seq<Vec2>, t: Vec2) returns (r: Option<bool>)
    ensures r.None? <==> |vs| < 3
    ensures r.Some? ==> (r.value <==> InsidePoly(vs, t))
  {
    if |vs| < 3 {
      return None;
    }
    var inside := true;
    var idx := 0;
    while idx < |vs|
      invariant 0 <= idx <= |vs|
      invariant inside
      invariant forall i :: 0 <= i < idx ==> EdgeSide(vs, t, i) < 0.0
    {
      inside := inside && EdgeSide(vs, t, idx) < 0.0;
      if !inside {
        return Some(false);
      }
      idx := idx + 1;
    }
    r := Some(true);
  }

  /** The clockwise square of `test_is_inside_poly`. */
  const TestSquare := [Vec2(0.0, 0.0), Vec2(0.0, 3.0), Vec2(3.0, 3.0), Vec2(3.0, 0.0)]

  /** Each edge of the test square has `(1, 1)` on its inner side; one edge per case keeps
      the arithmetic of the four edges apart. */
  lemma SquareEdgeInside(i: nat)
    requires i < 4
    ensures EdgeSide(TestSquare, Vec2(1.0, 1.0), i) < 0.0
  {
    if i == 0 {
      assert EdgeSide(TestSquare, Vec2(1.0, 1.0), 0) == -3.0;
    } else if i == 1 {
      assert EdgeSide(TestSquare, Vec2(1.0, 1.0), 1) == -6.0;
    } else if i == 2 {
      assert EdgeSide(TestSquare, Vec2(1.0, 1.0), 2) == -6.0;
    } else {
      assert EdgeSide(TestSquare, Vec2(1.0, 1.0), 3) == -3.0;
    }
  }

  /** The expectations of `test_is_inside_poly`. */
  lemma InsideSquare()
    ensures InsidePoly(TestSquare, Vec2(1.0, 1.0))
  {
    forall i | 0 <= i < |TestSquare|
      ensures EdgeSide(TestSquare, Vec2(1.0, 1.0), i) < 0.0
    {
      SquareEdgeInside(i);
    }
  }

  lemma OutsideSquare()
    ensures !InsidePoly(TestSquare, Vec2(-1.0, -1.0))
  {
    assert EdgeSide(TestSquare, Vec2(-1.0, -1.0), 0) == 3.0;
  }

  /** The clockwise quadrilateral of `test_is_inside_poly`. */
  const TestQuad := [Vec2(-1.0, 1.0), Vec2(1.0, 3.0), Vec2(4.0, -3.0), Vec2(-1.0, -1.0)]

  lemma QuadEdgeInside(i: nat)
    requires i < 4
    ensures EdgeSide(TestQuad, Vec2(0.0, 0.0), i) < 0.0
  {
    if i == 0 {
      assert EdgeSide(TestQuad, Vec2(0.0, 0.0), 0) == -4.0;
    } else if i == 1 {
      assert EdgeSide(TestQuad, Vec2(0.0, 0.0), 1) == -15.0;
    } else if i == 2 {
      assert EdgeSide(TestQuad, Vec2(0.0, 0.0), 2) == -7.0;
    } else {
      assert EdgeSide(TestQuad, Vec2(0.0, 0.0), 3) == -2.0;
    }
  }

  lemma InsideQuadrilateral()
    ensures InsidePoly(TestQuad, Vec2(0.0, 0.0))
  {
    forall i | 0 <= i < |TestQuad|
      ensures EdgeSide(TestQuad, Vec2(0.0, 0.0), i) < 0.0
    {
      QuadEdgeInside(i);
    }
  }
}
