/** Where an attachment lies: an arc-length walk along a polyline, in exact arithmetic. The length of a step
    is a parameter, known by its square. */
module PathAttachment {

  /** A double, of which only finite ones have a value here. */
  datatype Number = Finite(value: real) | NonFinite

  datatype Point = Point(x: real, y: real)

  datatype Side = A | B

  datatype Attachment = Attachment(side: Side, offset: Number, lateral: Number)

  type Path = seq<Point>

  type Hypot = (real, real) -> real

  datatype Resolution =
    | At(point: Point)
    | PathTooShort
    | BadAttachment
    | PathWithoutLength

  function Square(x: real): real { x * x }

  ghost predicate Metric(hypot: Hypot)
  {
    forall dx, dy :: hypot(dx, dy) >= 0.0 && Square(hypot(dx, dy)) == Square(dx) + Square(dy)
  }

  predicate Usable(a: Attachment)
  {
    a.offset.Finite? && 0.0 <= a.offset.value <= 1.0 && a.lateral.Finite?
  }

  /** The length of segment i. */
  function Len(hypot: Hypot, path: Path, i: nat): real
    requires i + 1 < |path|
  {
    hypot(path[i + 1].x - path[i].x, path[i + 1].y - path[i].y)
  }

  /** The arc length from the start of the path to vertex n. */
  function UpTo(hypot: Hypot, path: Path, n: nat): real
    requires n < |path|
  {
    if n == 0 then 0.0 else UpTo(hypot, path, n - 1) + Len(hypot, path, n - 1)
  }

  function Total(hypot: Hypot, path: Path): real
    requires path != []
  {
    UpTo(hypot, path, |path| - 1)
  }

  function Fraction(a: Attachment): real
    requires Usable(a)
  {
    if a.side == A then a.offset.value else 1.0 - a.offset.value
  }

  function Scale(r: real, s: real): real { r * s }
  function Ratio(r: real, s: real): real requires s != 0.0 { r / s }

  /** The point a part of the way from one point to another, moved sideways. */
  function Beside(p: Point, q: Point, length: real, ratio: real, lateral: real): Point
    requires length != 0.0
  {
    Point(p.x + Scale(ratio, q.x - p.x) - Ratio(Scale(lateral, q.y - p.y), length),
          p.y + Scale(ratio, q.y - p.y) + Ratio(Scale(lateral, q.x - p.x), length))
  }

  /** The place with the given arc length lies on segment i, that part of the way along. */
  ghost predicate On(hypot: Hypot, path: Path, arc: real, i: nat, ratio: real)
  {
    && i + 1 < |path|
    && Len(hypot, path, i) > 0.0
    && 0.0 <= ratio <= 1.0
    && arc == UpTo(hypot, path, i) + Scale(ratio, Len(hypot, path, i))
  }

  /** Every segment before segment i ends short of the given arc length, unless it is a mere point. */
  ghost predicate FirstAt(hypot: Hypot, path: Path, arc: real, i: nat)
    requires i < |path|
  {
    forall j :: 0 <= j < i && Len(hypot, path, j) > 0.0 ==> UpTo(hypot, path, j + 1) < arc
  }

  /** The point of an attachment: on the first segment that reaches its arc length. */
  ghost predicate Resolves(hypot: Hypot, path: Path, a: Attachment, i: nat, ratio: real, point: Point)
    requires path != [] && Usable(a)
  {
    var arc := Scale(Fraction(a), Total(hypot, path));
    && On(hypot, path, arc, i, ratio)
    && FirstAt(hypot, path, arc, i)
    && point == Beside(path[i], path[i + 1], Len(hypot, path, i), ratio, a.lateral.value)
  }

  // ---- Arithmetic -----------------------------------------------------------------------------------

  lemma ScaleOrder(r: real, r': real, s: real)
    requires s > 0.0
    ensures r < r' <==> Scale(r, s) < Scale(r', s)
  {
    if r < r' {
      assert (r' - r) * s > 0.0;
    } else {
      assert (r - r') * s >= 0.0;
    }
  }

  lemma ScaleEnds(s: real)
    ensures Scale(0.0, s) == 0.0 && Scale(1.0, s) == s
  {
  }

  lemma RatioScales(r: real, s: real)
    requires s > 0.0
    ensures Scale(Ratio(r, s), s) == r
    ensures 0.0 <= r <= s ==> 0.0 <= Ratio(r, s) <= 1.0
  {
    var q := Ratio(r, s);
    assert q * s == r;
    ScaleOrder(q, 0.0, s);
    ScaleOrder(1.0, q, s);
    ScaleEnds(s);
    hide Ratio;
  }

  lemma ScaleBounds(r: real, s: real)
    requires 0.0 <= r <= 1.0 && s >= 0.0
    ensures 0.0 <= Scale(r, s) <= s
    ensures s > 0.0 && Scale(r, s) == 0.0 ==> r == 0.0
    ensures s > 0.0 && Scale(r, s) == s ==> r == 1.0
  {
    ScaleEnds(s);
    if s > 0.0 {
      ScaleOrder(0.0, r, s);
      ScaleOrder(r, 0.0, s);
      ScaleOrder(r, 1.0, s);
      ScaleOrder(1.0, r, s);
    }
  }

  lemma ScaleRest(r: real, s: real)
    ensures Scale(1.0 - r, s) == s - Scale(r, s)
    ensures Scale(r, -s) == -Scale(r, s) && Scale(-r, s) == -Scale(r, s)
  {
  }

  lemma SquareOrder(r: real, s: real)
    requires r >= 0.0 && s >= 0.0
    ensures r < s <==> Square(r) < Square(s)
  {
    assert Square(r) == Scale(r, r) && Square(s) == Scale(s, s) && Scale(r, s) == Scale(s, r);
    assert Scale(0.0, 0.0) == 0.0;
    if s > 0.0 {
      ScaleOrder(r, s, s);
      ScaleOrder(0.0, s, s);
    }
    if r > 0.0 {
      ScaleOrder(r, s, r);
      ScaleOrder(0.0, r, r);
    }
    ScaleEnds(s);
    ScaleEnds(r);
    hide Scale, Square;
  }

  lemma SquareRoots(r: real, s: real)
    requires r >= 0.0 && s >= 0.0 && Square(r) == Square(s)
    ensures r == s
  {
    hide Square;
    SquareOrder(r, s);
    SquareOrder(s, r);
  }

  lemma SquareSign(x: real)
    ensures Square(x) >= 0.0 && Square(-x) == Square(x)
    ensures Square(x) == 0.0 <==> x == 0.0
  {
    assert Square(-x) == Square(x) && Square(0.0) == 0.0;
    SquareOrder(0.0, if x < 0.0 then -x else x);
    hide Square;
  }

  lemma ScaleInjective(r: real, r': real, s: real)
    requires s > 0.0 && Scale(r, s) == Scale(r', s)
    ensures r == r'
  {
    hide Scale;
    ScaleOrder(r, r', s);
    ScaleOrder(r', r, s);
  }

  // ---- Arc length -----------------------------------------------------------------------------------

  lemma LenSquared(hypot: Hypot, path: Path, i: nat)
    requires Metric(hypot) && i + 1 < |path|
    ensures Len(hypot, path, i) >= 0.0
    ensures Len(hypot, path, i) == 0.0 ==> path[i] == path[i + 1]
  {
    var (dx, dy) := (path[i + 1].x - path[i].x, path[i + 1].y - path[i].y);
    SquareSign(dx);
    SquareSign(dy);
    SquareSign(hypot(dx, dy));
    hide Square;
  }

  /** Arc length never decreases, and two vertices with the same arc length are the same point. */
  lemma {:induction false} UpToGrows(hypot: Hypot, path: Path, m: nat, n: nat)
    requires Metric(hypot) && m <= n < |path|
    ensures UpTo(hypot, path, m) <= UpTo(hypot, path, n)
    ensures UpTo(hypot, path, m) == UpTo(hypot, path, n) ==> path[m] == path[n]
    decreases n
  {
    if m < n {
      UpToGrows(hypot, path, m, n - 1);
      LenSquared(hypot, path, n - 1);
      hide Metric, Len;
    }
  }

  /** Each arc length has one place only: a place on a later segment is the same point. */
  lemma OnSamePoint(hypot: Hypot, path: Path, arc: real, i: nat, ratio: real, k: nat, ratio': real)
    requires Metric(hypot) && On(hypot, path, arc, i, ratio) && On(hypot, path, arc, k, ratio') && i <= k
    ensures i == k ==> ratio == ratio'
    ensures i < k ==> ratio == 1.0 && ratio' == 0.0 && path[i + 1] == path[k]
    ensures i < k ==> UpTo(hypot, path, k) == arc
  {
    hide Metric, Len, Scale;
    var (l, l') := (Len(hypot, path, i), Len(hypot, path, k));
    ScaleBounds(ratio, l);
    ScaleBounds(ratio', l');
    if i < k {
      UpToGrows(hypot, path, i + 1, k);
      assert UpTo(hypot, path, i + 1) == UpTo(hypot, path, i) + l;
    } else {
      ScaleInjective(ratio, ratio', l);
    }
  }

  lemma FirstIsFirst(hypot: Hypot, path: Path, arc: real, i: nat, k: nat, ratio: real)
    requires i < |path| && FirstAt(hypot, path, arc, i) && On(hypot, path, arc, k, ratio)
    ensures i <= k
  {
    ScaleBounds(ratio, Len(hypot, path, k));
    hide Len, Scale;
    assert UpTo(hypot, path, k + 1) == UpTo(hypot, path, k) + Len(hypot, path, k);
  }

  /** An attachment has at most one point. */
  lemma ResolvesUniquely(hypot: Hypot, path: Path, a: Attachment, i: nat, ratio: real, p: Point, k: nat, ratio': real, q: Point)
    requires path != [] && Usable(a) && Metric(hypot)
    requires Resolves(hypot, path, a, i, ratio, p) && Resolves(hypot, path, a, k, ratio', q)
    ensures p == q && i == k && ratio == ratio'
  {
    var arc := Scale(Fraction(a), Total(hypot, path));
    FirstIsFirst(hypot, path, arc, i, k, ratio');
    FirstIsFirst(hypot, path, arc, k, i, ratio);
    OnSamePoint(hypot, path, arc, i, ratio, k, ratio');
  }

  // ---- Reversal -------------------------------------------------------------------------------------

  function Reversed(path: Path): (r: Path)
    ensures |r| == |path|
  {
    seq(|path|, i requires 0 <= i < |path| => path[|path| - 1 - i])
  }

  function OtherSide(a: Attachment): Attachment
    requires a.lateral.Finite?
  {
    Attachment(if a.side == A then B else A, a.offset, Finite(-a.lateral.value))
  }

  lemma ReversedLen(hypot: Hypot, path: Path, i: nat)
    requires Metric(hypot) && i + 1 < |path|
    ensures Len(hypot, Reversed(path), |path| - 2 - i) == Len(hypot, path, i)
  {
    var (dx, dy) := (path[i + 1].x - path[i].x, path[i + 1].y - path[i].y);
    assert Len(hypot, Reversed(path), |path| - 2 - i) == hypot(-dx, -dy);
    SquareSign(dx);
    SquareSign(dy);
    hide Square;
    SquareRoots(hypot(-dx, -dy), hypot(dx, dy));
  }

  lemma {:induction false} ReversedUpTo(hypot: Hypot, path: Path, n: nat)
    requires Metric(hypot) && n < |path|
    ensures UpTo(hypot, Reversed(path), n) == Total(hypot, path) - UpTo(hypot, path, |path| - 1 - n)
  {
    hide Len, Metric, Reversed;
    if n > 0 {
      var m := |path| - 1 - n;
      ReversedUpTo(hypot, path, n - 1);
      ReversedLen(hypot, path, m);
      assert UpTo(hypot, path, m + 1) == UpTo(hypot, path, m) + Len(hypot, path, m);
    }
  }

  /** A place on the reversed path is a place on the path, seen from the other end. */
  lemma OnReversed(hypot: Hypot, path: Path, arc: real, j: nat, ratio: real)
    requires Metric(hypot) && path != [] && On(hypot, Reversed(path), Total(hypot, path) - arc, j, ratio)
    ensures On(hypot, path, arc, |path| - 2 - j, 1.0 - ratio)
  {
    var k := |path| - 2 - j;
    ReversedUpTo(hypot, path, j);
    ReversedLen(hypot, path, k);
    ScaleRest(ratio, Len(hypot, path, k));
    hide Len, Metric, Scale;
    assert UpTo(hypot, path, k + 1) == UpTo(hypot, path, k) + Len(hypot, path, k);
  }

  lemma UpToZero(hypot: Hypot, path: Path)
    requires path != []
    ensures UpTo(hypot, path, 0) == 0.0
  {
  }

  lemma OppositeArc(hypot: Hypot, path: Path, a: Attachment)
    requires Metric(hypot) && path != [] && Usable(a)
    ensures Usable(OtherSide(a))
    ensures Scale(Fraction(OtherSide(a)), Total(hypot, Reversed(path)))
            == Total(hypot, path) - Scale(Fraction(a), Total(hypot, path))
  {
    ReversedUpTo(hypot, path, |path| - 1);
    ScaleRest(Fraction(a), Total(hypot, path));
    hide Len, Metric, Scale, UpTo;
    assert UpTo(hypot, path, 0) == 0.0 by { UpToZero(hypot, path); }
    assert Fraction(OtherSide(a)) == 1.0 - Fraction(a);
  }

  /** Walking a segment the other way, on the other side of it, leads to the same point. */
  lemma BesideReversed(p: Point, q: Point, length: real, ratio: real, lateral: real)
    requires length != 0.0
    ensures Beside(q, p, length, ratio, -lateral) == Beside(p, q, length, 1.0 - ratio, lateral)
  {
    var (dx, dy) := (q.x - p.x, q.y - p.y);
    assert p.x - q.x == -dx && p.y - q.y == -dy;
    ScaleRest(ratio, dx);
    ScaleRest(ratio, dy);
    ScaleRest(-lateral, dx);
    ScaleRest(-lateral, dy);
    ScaleRest(lateral, dx);
    ScaleRest(lateral, dy);
    hide Scale, Ratio;
  }

  /** The sideways direction of segment i. */
  function Normal(hypot: Hypot, path: Path, i: nat): Point
    requires i + 1 < |path|
  {
    var length := Len(hypot, path, i);
    if length == 0.0 then Point(0.0, 0.0) else Point(-Ratio(path[i + 1].y - path[i].y, length), Ratio(path[i + 1].x - path[i].x, length))
  }

  lemma ScaledRatio(l: real, d: real, s: real)
    requires s != 0.0
    ensures Ratio(Scale(l, d), s) == Scale(l, Ratio(d, s))
  {
    var q := d / s;
    assert d == q * s;
    assert l * d == (l * q) * s;
  }

  /** The vertices on the two sides of a bend, moved sideways by the same amount. */
  lemma BesideVertex(p: Point, q: Point, length: real, lateral: real)
    requires length != 0.0
    ensures var (dx, dy) := (Ratio(q.x - p.x, length), Ratio(q.y - p.y, length));
            && Beside(p, q, length, 0.0, lateral) == Point(p.x - Scale(lateral, dy), p.y + Scale(lateral, dx))
            && Beside(p, q, length, 1.0, lateral) == Point(q.x - Scale(lateral, dy), q.y + Scale(lateral, dx))
  {
    ScaledRatio(lateral, q.x - p.x, length);
    ScaledRatio(lateral, q.y - p.y, length);
    ScaleEnds(q.x - p.x);
    ScaleEnds(q.y - p.y);
    hide Scale, Ratio;
  }

  lemma ScaleSame(l: real, r: real, s: real)
    ensures Scale(l, r) == Scale(l, s) <==> l == 0.0 || r == s
  {
    if Scale(l, r) == Scale(l, s) {
      assert l * (r - s) == 0.0;
    }
  }

  /** The two sides of a vertex, seen with the same lateral, are one point only if the path does not bend. */
  lemma AcrossVertexIff(hypot: Hypot, path: Path, i: nat, k: nat, l: real)
    requires i + 1 < |path| && k + 1 < |path| && path[i + 1] == path[k]
    requires Len(hypot, path, i) > 0.0 && Len(hypot, path, k) > 0.0
    ensures Beside(path[i], path[i + 1], Len(hypot, path, i), 1.0, l)
            == Beside(path[k], path[k + 1], Len(hypot, path, k), 0.0, l)
            <==> l == 0.0 || Normal(hypot, path, i) == Normal(hypot, path, k)
  {
    BesideVertex(path[i], path[i + 1], Len(hypot, path, i), l);
    BesideVertex(path[k], path[k + 1], Len(hypot, path, k), l);
    var (n, n') := (Normal(hypot, path, i), Normal(hypot, path, k));
    ScaleSame(l, n.y, n'.y);
    ScaleSame(l, -n.x, -n'.x);
    hide Scale, Ratio, Len, Beside;
  }

  /** A segment with a length on which the given arc length falls, at an end of it or between. */
  ghost predicate Touches(hypot: Hypot, path: Path, arc: real, i: nat)
  {
    i + 1 < |path| && Len(hypot, path, i) > 0.0 && UpTo(hypot, path, i) <= arc <= UpTo(hypot, path, i + 1)
  }

  /** The path does not bend at the given arc length: it falls inside a segment or at an end of the path, or
      the segments before and behind the vertex run in one direction. */
  ghost predicate StraightAt(hypot: Hypot, path: Path, arc: real)
  {
    forall i, k :: Touches(hypot, path, arc, i) && Touches(hypot, path, arc, k) ==>
                     Normal(hypot, path, i) == Normal(hypot, path, k)
  }

  lemma OnTouches(hypot: Hypot, path: Path, arc: real, i: nat, ratio: real)
    requires On(hypot, path, arc, i, ratio)
    ensures Touches(hypot, path, arc, i)
  {
    ScaleBounds(ratio, Len(hypot, path, i));
    hide Len, Scale;
    assert UpTo(hypot, path, i + 1) == UpTo(hypot, path, i) + Len(hypot, path, i);
  }

  /** Of two touched segments the one in front ends, and the one behind begins, at the arc length. */
  lemma TouchedTwice(hypot: Hypot, path: Path, arc: real, i: nat, k: nat)
    requires Metric(hypot) && Touches(hypot, path, arc, i) && Touches(hypot, path, arc, k) && i < k
    ensures UpTo(hypot, path, i + 1) == arc == UpTo(hypot, path, k)
    ensures UpTo(hypot, path, i) < arc < UpTo(hypot, path, k + 1)
  {
    UpToGrows(hypot, path, i + 1, k);
    hide Metric, Len;
    assert UpTo(hypot, path, i + 1) == UpTo(hypot, path, i) + Len(hypot, path, i);
    assert UpTo(hypot, path, k + 1) == UpTo(hypot, path, k) + Len(hypot, path, k);
  }

  /** A place touches no segments but the first and the last that it is on. */
  lemma StraightIff(hypot: Hypot, path: Path, arc: real, i: nat, k: nat)
    requires Metric(hypot) && Touches(hypot, path, arc, i) && Touches(hypot, path, arc, k) && i <= k
    requires forall m: nat :: Touches(hypot, path, arc, m) ==> i <= m
    requires i == k ==> forall m: nat :: Touches(hypot, path, arc, m) ==> m <= k
    ensures StraightAt(hypot, path, arc) <==> Normal(hypot, path, i) == Normal(hypot, path, k)
  {
    hide Metric, Normal, Touches;
    forall m: nat | Touches(hypot, path, arc, m)
      ensures m == i || m == k
    {
      if i < m && i < k {
        TouchedTwice(hypot, path, arc, i, m);
        TouchedTwice(hypot, path, arc, i, k);
        if m < k {
          TouchedTwice(hypot, path, arc, m, k);
        } else if k < m {
          TouchedTwice(hypot, path, arc, k, m);
        }
      }
    }
  }

  /** A touched segment is one the place is on. */
  lemma TouchesOn(hypot: Hypot, path: Path, arc: real, i: nat) returns (ratio: real)
    requires Touches(hypot, path, arc, i)
    ensures On(hypot, path, arc, i, ratio)
  {
    var (rest, length) := (arc - UpTo(hypot, path, i), Len(hypot, path, i));
    ratio := Ratio(rest, length);
    RatioScales(rest, length);
    hide Len, Ratio, Scale;
    assert UpTo(hypot, path, i + 1) == UpTo(hypot, path, i) + length;
  }

  /** The walk from the other end stops on the last segment that the place is on. */
  lemma ReversedIsLast(hypot: Hypot, path: Path, arc: real, j: nat, m: nat)
    requires path != [] && Metric(hypot) && j < |path| - 1
    requires FirstAt(hypot, Reversed(path), Total(hypot, path) - arc, j) && Touches(hypot, path, arc, m)
    ensures m <= |path| - 2 - j
  {
    var l := |path| - 2 - m;
    ReversedLen(hypot, path, m);
    ReversedUpTo(hypot, path, l + 1);
    assert |path| - 1 - (l + 1) == m;
    hide Len, Metric, UpTo;
    assert Len(hypot, Reversed(path), l) > 0.0;
    assert UpTo(hypot, Reversed(path), l + 1) >= Total(hypot, path) - arc;
  }

  /** Reversing the path, and attaching from the other side with the opposite lateral, gives the same point
      exactly when there is no lateral, or the path does not bend where the point falls. */
  lemma ReversedSamePointIff(hypot: Hypot, path: Path, a: Attachment, i: nat, ratio: real, p: Point, j: nat, ratio': real, q: Point)
    requires path != [] && Usable(a) && Metric(hypot) && Usable(OtherSide(a))
    requires Resolves(hypot, path, a, i, ratio, p) && Resolves(hypot, Reversed(path), OtherSide(a), j, ratio', q)
    ensures p == q <==> a.lateral.value == 0.0 || StraightAt(hypot, path, Scale(Fraction(a), Total(hypot, path)))
  {
    hide Scale, Ratio, Beside, Metric, FirstAt, Normal, Touches, StraightAt;
    var arc := Scale(Fraction(a), Total(hypot, path));
    var (k, l) := (|path| - 2 - j, a.lateral.value);
    OppositeArc(hypot, path, a);
    OnReversed(hypot, path, arc, j, ratio');
    FirstIsFirst(hypot, path, arc, i, k, 1.0 - ratio');
    OnSamePoint(hypot, path, arc, i, ratio, k, 1.0 - ratio');
    ReversedLen(hypot, path, k);
    BesideReversed(path[k], path[k + 1], Len(hypot, path, k), ratio', l);
    assert q == Beside(path[k], path[k + 1], Len(hypot, path, k), 1.0 - ratio', l);
    OnTouches(hypot, path, arc, i, ratio);
    OnTouches(hypot, path, arc, k, 1.0 - ratio');
    forall m: nat | Touches(hypot, path, arc, m)
      ensures i <= m <= k
    {
      ReversedIsLast(hypot, path, arc, j, m);
      var part := TouchesOn(hypot, path, arc, m);
      FirstIsFirst(hypot, path, arc, i, m, part);
    }
    StraightIff(hypot, path, arc, i, k);
    if i < k {
      AcrossVertexIff(hypot, path, i, k, l);
    }
  }

  /** At a vertex between two segments with a length the point belongs to the one in front. */
  lemma OnFirstSegment(hypot: Hypot, path: Path, a: Attachment, i: nat, ratio: real, p: Point, m: nat)
    requires path != [] && Usable(a) && Metric(hypot) && Resolves(hypot, path, a, i, ratio, p)
    requires Touches(hypot, path, Scale(Fraction(a), Total(hypot, path)), m)
    ensures Touches(hypot, path, Scale(Fraction(a), Total(hypot, path)), i) && i <= m
  {
    hide Scale, Metric, FirstAt, Touches, Beside;
    var arc := Scale(Fraction(a), Total(hypot, path));
    OnTouches(hypot, path, arc, i, ratio);
    var part := TouchesOn(hypot, path, arc, m);
    FirstIsFirst(hypot, path, arc, i, m, part);
  }

  // ---- Where the point is ---------------------------------------------------------------------------

  function Dot(px: real, py: real, qx: real, qy: real): real { px * qx + py * qy }

  /** Twice the area between two directions: positive if the second is to the left of the first. */
  function Cross(px: real, py: real, qx: real, qy: real): real { px * qy - py * qx }

  lemma SquareOfScale(r: real, x: real)
    ensures Square(Scale(r, x)) == Scale(Square(r), Square(x))
  {
    assert (r * x) * (r * x) == (r * r) * (x * x);
  }

  lemma ScaleOfSum(r: real, x: real, y: real)
    ensures Scale(r, x + y) == Scale(r, x) + Scale(r, y)
  {
  }

  lemma ScaleNotNegative(r: real, s: real)
    requires r >= 0.0 && s >= 0.0
    ensures Scale(r, s) >= 0.0
  {
    if r > 0.0 && s > 0.0 {
      assert r * s > 0.0;
    } else {
      assert r * s == 0.0;
    }
  }

  /** A part of a step is as long as that part of its length. */
  lemma PartOfStep(hypot: Hypot, dx: real, dy: real, length: real, r: real)
    requires Metric(hypot) && length == hypot(dx, dy) && r >= 0.0
    ensures hypot(Scale(r, dx), Scale(r, dy)) == Scale(r, length)
  {
    SquareOfScale(r, dx);
    SquareOfScale(r, dy);
    SquareOfScale(r, length);
    assert Square(length) == Square(dx) + Square(dy);
    ScaleOfSum(Square(r), Square(dx), Square(dy));
    ScaleNotNegative(r, length);
    hide Square, Scale;
    SquareRoots(hypot(Scale(r, dx), Scale(r, dy)), Scale(r, length));
  }

  lemma SumScales(r: real, r': real, s: real)
    ensures Scale(r + r', s) == Scale(r, s) + Scale(r', s)
  {
  }

  /** The direction of a step has length one. */
  lemma UnitDirection(dx: real, dy: real, length: real)
    requires length > 0.0 && Square(length) == Square(dx) + Square(dy)
    ensures var (nx, ny) := (Ratio(dx, length), Ratio(dy, length));
            Scale(nx, length) == dx && Scale(ny, length) == dy && Square(nx) + Square(ny) == 1.0
  {
    var (nx, ny) := (Ratio(dx, length), Ratio(dy, length));
    RatioScales(dx, length);
    RatioScales(dy, length);
    SquareOfScale(nx, length);
    SquareOfScale(ny, length);
    SquareSign(length);
    ScaleEnds(Square(length));
    SumScales(Square(nx), Square(ny), Square(length));
    hide Square, Scale, Ratio;
    ScaleInjective(Square(nx) + Square(ny), 1.0, Square(length));
  }

  /** A step to the side of a direction of length one. */
  lemma StepAside(nx: real, ny: real, length: real, l: real)
    requires Square(nx) + Square(ny) == 1.0
    ensures var (sx, sy, dx, dy) := (-Scale(l, ny), Scale(l, nx), Scale(nx, length), Scale(ny, length));
            && Dot(sx, sy, dx, dy) == 0.0
            && Cross(dx, dy, sx, sy) == Scale(l, length)
            && Square(sx) + Square(sy) == Square(l)
  {
    var one := nx * nx + ny * ny;
    assert (-(l * ny)) * (nx * length) + (l * nx) * (ny * length) == 0.0;
    assert (nx * length) * (l * nx) - (ny * length) * (-(l * ny)) == (l * length) * one;
    assert (l * ny) * (l * ny) + (l * nx) * (l * nx) == (l * l) * one;
  }

  /** The absolute value. */
  function Abs(x: real): real { if x < 0.0 then -x else x }

  lemma LengthOfSquare(hypot: Hypot, x: real, y: real, l: real)
    requires Metric(hypot) && Square(x) + Square(y) == Square(l)
    ensures hypot(x, y) == Abs(l)
  {
    SquareSign(l);
    hide Square;
    SquareRoots(hypot(x, y), Abs(l));
  }

  lemma NoStepAside(l: real, n: real)
    ensures l == 0.0 ==> Scale(l, n) == 0.0
  {
  }

  function Foot(p: Point, q: Point, ratio: real): Point
  {
    Point(p.x + Scale(ratio, q.x - p.x), p.y + Scale(ratio, q.y - p.y))
  }

  /** How far the foot is from the two ends. */
  lemma FootBetween(hypot: Hypot, p: Point, q: Point, ratio: real)
    requires Metric(hypot) && 0.0 <= ratio <= 1.0
    ensures var (foot, length) := (Foot(p, q, ratio), hypot(q.x - p.x, q.y - p.y));
            && hypot(foot.x - p.x, foot.y - p.y) == Scale(ratio, length)
            && hypot(q.x - foot.x, q.y - foot.y) == length - Scale(ratio, length)
  {
    hide Scale, Metric;
    var (dx, dy) := (q.x - p.x, q.y - p.y);
    PartOfStep(hypot, dx, dy, hypot(dx, dy), ratio);
    PartOfStep(hypot, dx, dy, hypot(dx, dy), 1.0 - ratio);
    ScaleRest(ratio, dx);
    ScaleRest(ratio, dy);
    ScaleRest(ratio, hypot(dx, dy));
    var foot := Foot(p, q, ratio);
    assert q.x - foot.x == Scale(1.0 - ratio, dx) && q.y - foot.y == Scale(1.0 - ratio, dy);
    assert foot.x - p.x == Scale(ratio, dx) && foot.y - p.y == Scale(ratio, dy);
  }

  /** How the point stands to the foot. */
  lemma BesideFoot(hypot: Hypot, p: Point, q: Point, ratio: real, l: real)
    requires Metric(hypot) && hypot(q.x - p.x, q.y - p.y) > 0.0
    ensures var (foot, length) := (Foot(p, q, ratio), hypot(q.x - p.x, q.y - p.y));
            var point := Beside(p, q, length, ratio, l);
            && hypot(point.x - foot.x, point.y - foot.y) == Abs(l)
            && Dot(point.x - foot.x, point.y - foot.y, q.x - p.x, q.y - p.y) == 0.0
            && Cross(q.x - p.x, q.y - p.y, point.x - foot.x, point.y - foot.y) == Scale(l, length)
            && (l == 0.0 ==> point == foot)
  {
    hide Scale, Ratio, Square, Dot, Cross;
    var (dx, dy) := (q.x - p.x, q.y - p.y);
    var length := hypot(dx, dy);
    assert Square(length) == Square(dx) + Square(dy);
    hide Metric;
    var (nx, ny) := (Ratio(dx, length), Ratio(dy, length));
    UnitDirection(dx, dy, length);
    StepAside(nx, ny, length, l);
    ScaledRatio(l, dx, length);
    ScaledRatio(l, dy, length);
    NoStepAside(l, nx);
    NoStepAside(l, ny);
    LengthOfSquare(hypot, -Scale(l, ny), Scale(l, nx), l);
    var (foot, point) := (Foot(p, q, ratio), Beside(p, q, length, ratio, l));
    assert point.x - foot.x == -Scale(l, ny) && point.y - foot.y == Scale(l, nx);
  }

  lemma ArcOf(a: Attachment, total: real)
    requires Usable(a)
    ensures Scale(Fraction(a), total) == if a.side == A then a.offset.value * total else total - a.offset.value * total
  {
    ScaleRest(a.offset.value, total);
  }

  lemma ScaleIsProduct(r: real, s: real)
    ensures Scale(r, s) == r * s
  {
  }

  /** The foot of an attachment lies on its segment, as far from the two ends of it as the arc length tells.
      The arc length is the given part of the total, from the one end of the path or from the other. The point
      of the attachment is moved from the foot at a right angle to the segment, by the lateral, to the left
      of it if that is positive. */
  lemma PointOfAttachment(hypot: Hypot, path: Path, a: Attachment, i: nat, ratio: real, p: Point) returns (foot: Point)
    requires path != [] && Usable(a) && Metric(hypot) && Resolves(hypot, path, a, i, ratio, p)
    ensures i + 1 < |path|
    ensures var (from, to, l, total) := (path[i], path[i + 1], a.lateral.value, Total(hypot, path));
            var arc := if a.side == A then a.offset.value * total else total - a.offset.value * total;
            && hypot(foot.x - from.x, foot.y - from.y) == arc - UpTo(hypot, path, i)
            && hypot(to.x - foot.x, to.y - foot.y) == UpTo(hypot, path, i + 1) - arc
            && hypot(p.x - foot.x, p.y - foot.y) == Abs(l)
            && Dot(p.x - foot.x, p.y - foot.y, to.x - from.x, to.y - from.y) == 0.0
            && Cross(to.x - from.x, to.y - from.y, p.x - foot.x, p.y - foot.y) == l * hypot(to.x - from.x, to.y - from.y)
            && (l == 0.0 ==> p == foot)
  {
    hide Scale, Ratio, Square, Dot, Cross, FirstAt, Metric, Beside, Foot;
    foot := Foot(path[i], path[i + 1], ratio);
    var length := Len(hypot, path, i);
    ArcOf(a, Total(hypot, path));
    FootBetween(hypot, path[i], path[i + 1], ratio);
    BesideFoot(hypot, path[i], path[i + 1], ratio, a.lateral.value);
    ScaleIsProduct(a.lateral.value, length);
    assert UpTo(hypot, path, i + 1) == UpTo(hypot, path, i) + length;
  }

  // ---- The code -------------------------------------------------------------------------------------

  function Clamp(r: real): real { if r < 0.0 then 0.0 else if r > 1.0 then 1.0 else r }

  /** One segment reaches the arc length, or is passed. */
  lemma WalkOn(hypot: Hypot, path: Path, arc: real, i: nat)
    requires Metric(hypot) && i + 1 < |path| && FirstAt(hypot, path, arc, i)
    requires UpTo(hypot, path, i) == 0.0 || UpTo(hypot, path, i) < arc
    requires Len(hypot, path, i) <= 0.0 || arc - UpTo(hypot, path, i) > Len(hypot, path, i)
    ensures FirstAt(hypot, path, arc, i + 1)
    ensures UpTo(hypot, path, i + 1) == 0.0 || UpTo(hypot, path, i + 1) < arc
    ensures Len(hypot, path, i) <= 0.0 ==> UpTo(hypot, path, i + 1) == UpTo(hypot, path, i)
  {
    LenSquared(hypot, path, i);
    hide Len, Metric;
  }

  lemma Arrive(hypot: Hypot, path: Path, arc: real, i: nat)
    requires i + 1 < |path| && FirstAt(hypot, path, arc, i) && 0.0 <= arc
    requires UpTo(hypot, path, i) == 0.0 || UpTo(hypot, path, i) < arc
    requires Len(hypot, path, i) > 0.0 && arc - UpTo(hypot, path, i) <= Len(hypot, path, i)
    ensures var ratio := Ratio(arc - UpTo(hypot, path, i), Len(hypot, path, i));
            On(hypot, path, arc, i, ratio) && Clamp(ratio) == ratio
  {
    hide Len, Ratio, Scale, UpTo, FirstAt;
    var (rest, length) := (arc - UpTo(hypot, path, i), Len(hypot, path, i));
    assert rest >= 0.0;
    RatioScales(rest, length);
  }

  method Measure(hypot: Hypot, path: Path) returns (lengths: seq<real>, total: real)
    requires Metric(hypot) && |path| >= 2
    ensures |lengths| == |path| - 1 && forall j :: 0 <= j < |lengths| ==> lengths[j] == Len(hypot, path, j)
    ensures total == Total(hypot, path) >= 0.0
  {
    UpToGrows(hypot, path, 0, |path| - 1);
    hide Metric;
    lengths := [];
    total := 0.0;
    var index := 1;
    while index < |path|
      invariant 1 <= index <= |path|
      invariant |lengths| == index - 1
      invariant forall j :: 0 <= j < index - 1 ==> lengths[j] == Len(hypot, path, j)
      invariant total == UpTo(hypot, path, index - 1)
    {
      var length := hypot(path[index].x - path[index - 1].x, path[index].y - path[index - 1].y);
      lengths := lengths + [length];
      total := total + length;
      index := index + 1;
    }
  }

  lemma FirstAtStart(hypot: Hypot, path: Path, arc: real)
    requires path != []
    ensures FirstAt(hypot, path, arc, 0)
  {
  }

  /** The walk along the path, which never comes to its end without a point. */
  method Walk(hypot: Hypot, path: Path, lengths: seq<real>, arc: real, lateral: real)
    returns (point: Point, ghost segment: nat, ghost part: real)
    requires Metric(hypot) && |path| >= 2
    requires |lengths| == |path| - 1 && forall j :: 0 <= j < |lengths| ==> lengths[j] == Len(hypot, path, j)
    requires 0.0 <= arc <= Total(hypot, path) && Total(hypot, path) > 0.0
    ensures On(hypot, path, arc, segment, part) && FirstAt(hypot, path, arc, segment)
    ensures point == Beside(path[segment], path[segment + 1], Len(hypot, path, segment), part, lateral)
  {
    FirstAtStart(hypot, path, arc);
    assert UpTo(hypot, path, 0) == 0.0;
    var remaining := arc;
    var index := 0;
    hide Metric, Len, FirstAt, On, Beside, Ratio, Scale, Clamp;
    while index < |lengths|
      invariant index <= |lengths|
      invariant remaining == arc - UpTo(hypot, path, index)
      invariant FirstAt(hypot, path, arc, index)
      invariant UpTo(hypot, path, index) == 0.0 || UpTo(hypot, path, index) < arc
    {
      var length := lengths[index];
      if remaining <= length || index + 1 == |lengths| {
        if length <= 0.0 {
          WalkOn(hypot, path, arc, index);
          index := index + 1;
          continue;
        }
        assert UpTo(hypot, path, index + 1) == UpTo(hypot, path, index) + length;
        Arrive(hypot, path, arc, index);
        var ratio := Clamp(Ratio(remaining, length));
        segment, part := index, ratio;
        return Beside(path[index], path[index + 1], length, ratio, lateral), segment, part;
      }
      WalkOn(hypot, path, arc, index);
      assert UpTo(hypot, path, index + 1) == UpTo(hypot, path, index) + length;
      remaining := remaining - length;
      index := index + 1;
    }
    assert false;
  }

  /** Always a point, on a path with a length, and it lies exactly at the given part of the total length. */
  method Resolve(hypot: Hypot, path: Path, a: Attachment)
    returns (r: Resolution, ghost segment: nat, ghost part: real)
    requires Metric(hypot)
    ensures r == PathTooShort <==> |path| < 2
    ensures r == BadAttachment <==>
              |path| >= 2 && !(a.offset.Finite? && 0.0 <= a.offset.value && a.offset.value <= 1.0 && a.lateral.Finite?)
    ensures r == PathWithoutLength <==> |path| >= 2 && Usable(a) && Total(hypot, path) == 0.0
    ensures r.At? ==> Resolves(hypot, path, a, segment, part, r.point)
  {
    segment, part := 0, 0.0;
    if |path| < 2 {
      return PathTooShort, segment, part;
    }
    if !a.offset.Finite? || a.offset.value < 0.0 || a.offset.value > 1.0 || !a.lateral.Finite? {
      return BadAttachment, segment, part;
    }
    hide Scale, Metric, Len, UpTo, FirstAt, On;
    var lengths, total := Measure(hypot, path);
    if total <= 0.0 {
      return PathWithoutLength, segment, part;
    }
    var fraction := if a.side == A then a.offset.value else 1.0 - a.offset.value;
    ScaleBounds(fraction, total);
    var point;
    point, segment, part := Walk(hypot, path, lengths, Scale(fraction, total), a.lateral.value);
    r := At(point);
  }
}
