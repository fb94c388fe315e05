/**
  The order-1 simplex: a line segment between two endpoints of the same
  dimension D. Every operation is a pure function of the two endpoints.
  Coordinates are exact reals, so the midpoint and the per-dimension
  gradient carry no rounding.
 */
module Lines {
  import opened Vectors

  /**
    A segment from a to b. The constructor Line(xa, xb) is the two-argument
    constructor of the source: it stores xa as a and xb as b.
   */
  datatype Line = Line(a: Vec, b: Vec)

  /** Both endpoints of a Line<D, P> have the dimension D. */
  predicate Valid(l: Line) {
    |l.a| == |l.b|
  }

  /** The same segment with its endpoints in the other order. */
  function Reversed(l: Line): Line {
    Line(l.b, l.a)
  }

  /** The default constructor: both endpoints are value-initialised (zero). */
  function Default(d: nat): (l: Line)
    ensures Valid(l) && |l.a| == d
    ensures forall i :: 0 <= i < d ==> l.a[i] == 0.0 && l.b[i] == 0.0
  {
    Line(Zero(d), Zero(d))
  }

  /** The vector that leads from a to b. */
  function Difference(l: Line): (r: Vec)
    requires Valid(l)
    ensures |r| == |l.a|
    ensures forall i :: 0 <= i < |r| ==> l.a[i] + r[i] == l.b[i]
  {
    Sub(l.b, l.a)
  }

  /** Adding the difference to a gives b, and reversing the line negates the difference. */
  lemma DifferenceLeadsFromAToB(l: Line)
    requires Valid(l)
    ensures Add(l.a, Difference(l)) == l.b
    ensures Difference(Reversed(l)) == Scale(Difference(l), -1.0)
  {
  }

  /** The point reached from a after the fraction t of the way to b. */
  function PointAt(l: Line, t: real): (r: Vec)
    requires Valid(l)
    ensures |r| == |l.a|
    ensures forall i :: 0 <= i < |r| ==> r[i] == l.a[i] + t * (l.b[i] - l.a[i])
  {
    Add(l.a, Scale(Difference(l), t))
  }

  /** The parametric form starts at a and ends at b. */
  lemma PointAtEnds(l: Line)
    requires Valid(l)
    ensures PointAt(l, 0.0) == l.a
    ensures PointAt(l, 1.0) == l.b
  {
  }

  /** The midpoint (a + b) / 2: as far from a as b is from it. */
  function Center(l: Line): (r: Vec)
    requires Valid(l)
    ensures |r| == |l.a|
    ensures forall i :: 0 <= i < |r| ==> r[i] - l.a[i] == l.b[i] - r[i]
  {
    Divide(Add(l.a, l.b), 2.0)
  }

  /**
    The center is the point half way along the segment, it does not depend
    on the order of the endpoints, and the line is defined at every
    coordinate of it.
   */
  lemma CenterIsHalfWay(l: Line)
    requires Valid(l)
    ensures Center(l) == PointAt(l, 0.5)
    ensures Center(Reversed(l)) == Center(l)
    ensures forall dim :: 0 <= dim < |l.a| ==> DefinedAt(l, Center(l)[dim], dim)
  {
  }

  /** The two endpoints as an indexable pair: index 0 is a, index 1 is b. */
  function Points(l: Line): (r: seq<Vec>)
    ensures |r| == 2
    ensures r[0] == l.a && r[1] == l.b
  {
    [l.a, l.b]
  }

  /**
    Writing endpoint i through the mutable view that points() returns:
    the new line's pair is the old pair with entry i replaced.
   */
  function SetPoint(l: Line, i: nat, v: Vec): (r: Line)
    requires Valid(l) && |v| == |l.a| && i < 2
    ensures Valid(r)
    ensures Points(r) == Points(l)[i := v]
  {
    if i == 0 then Line(v, l.b) else Line(l.a, v)
  }

  /** The pair of points determines the line. */
  lemma PointsDetermineLine(l: Line, m: Line)
    ensures Points(l) == Points(m) <==> l == m
  {
  }

  /**
    The difference divided by its own coordinate at dim: that coordinate
    becomes 1 and every other one keeps its ratio to it. The source divides
    by zero when the line has no extent in dim; that is its callers'
    obligation.
   */
  function Gradient(l: Line, dim: nat): (r: Vec)
    requires Valid(l) && dim < |l.a|
    requires l.a[dim] != l.b[dim]
    ensures |r| == |l.a|
    ensures r[dim] == 1.0
    ensures forall i :: 0 <= i < |r| ==> r[i] * Difference(l)[dim] == Difference(l)[i]
  {
    var d := Difference(l);
    DivideOwnCoordinate(d, dim);
    Divide(d, d[dim])
  }

  /**
    Scaling the gradient by the difference's coordinate at dim gives the
    difference back, and the gradient does not depend on the order of the
    endpoints.
   */
  lemma GradientProperties(l: Line, dim: nat)
    requires Valid(l) && dim < |l.a|
    requires l.a[dim] != l.b[dim]
    ensures Scale(Gradient(l, dim), Difference(l)[dim]) == Difference(l)
    ensures Gradient(Reversed(l), dim) == Gradient(l, dim)
  {
    var g, h := Gradient(l, dim), Gradient(Reversed(l), dim);
    var k := Difference(l)[dim];
    forall i | 0 <= i < |l.a|
      ensures Scale(g, k)[i] == Difference(l)[i]
      ensures h[i] == g[i]
    {
      assert k * g[i] == g[i] * k;
      assert h[i] * -k == -Difference(l)[i];
      assert h[i] * k == g[i] * k;
    }
  }

  /** The smaller of the two endpoints' coordinates at dim. */
  function SmallestValue(l: Line, dim: nat): (r: real)
    requires Valid(l) && dim < |l.a|
    ensures r <= l.a[dim] && r <= l.b[dim]
    ensures r == l.a[dim] || r == l.b[dim]
  {
    if l.b[dim] < l.a[dim] then l.b[dim] else l.a[dim]
  }

  /** The greater of the two endpoints' coordinates at dim. */
  function GreatestValue(l: Line, dim: nat): (r: real)
    requires Valid(l) && dim < |l.a|
    ensures l.a[dim] <= r && l.b[dim] <= r
    ensures r == l.a[dim] || r == l.b[dim]
  {
    if l.a[dim] < l.b[dim] then l.b[dim] else l.a[dim]
  }

  /**
    The range of a line in one dimension is a non-empty interval, it does
    not depend on the order of the endpoints, and it is a single value
    exactly when both endpoints agree in that dimension.
   */
  lemma ValueRange(l: Line, dim: nat)
    requires Valid(l) && dim < |l.a|
    ensures SmallestValue(l, dim) <= GreatestValue(l, dim)
    ensures SmallestValue(Reversed(l), dim) == SmallestValue(l, dim)
    ensures GreatestValue(Reversed(l), dim) == GreatestValue(l, dim)
    ensures SmallestValue(l, dim) == GreatestValue(l, dim) <==> l.a[dim] == l.b[dim]
  {
  }

  /**
    Whether value lies between the line's smallest and greatest value in
    dim, that is between a[dim] and b[dim] in whichever order they come.
   */
  predicate DefinedAt(l: Line, value: real, dim: nat): (r: bool)
    requires Valid(l) && dim < |l.a|
    ensures r <==> (l.a[dim] <= value <= l.b[dim] || l.b[dim] <= value <= l.a[dim])
  {
    SmallestValue(l, dim) <= value <= GreatestValue(l, dim)
  }

  /** t * w stays between 0 and w when t is between 0 and 1 and w is not negative. */
  lemma FractionBetween(t: real, w: real)
    requires 0.0 <= t <= 1.0 && 0.0 <= w
    ensures 0.0 <= t * w <= w
  {
  }

  /** Going from x up to y, the point x + t * (y - x) with t in [0, 1] lies between them. */
  lemma BetweenUpward(x: real, y: real, t: real)
    requires 0.0 <= t <= 1.0 && x <= y
    ensures x <= x + t * (y - x) <= y
  {
    FractionBetween(t, y - x);
    var p := t * (y - x);
    assert 0.0 <= p <= y - x;
  }

  /** Going from x down to y, the point x + t * (y - x) is y + (1 - t) * (x - y), between them. */
  lemma BetweenDownward(x: real, y: real, t: real)
    requires 0.0 <= t <= 1.0 && y <= x
    ensures y <= x + t * (y - x) <= x
  {
    var s := 1.0 - t;
    FractionBetween(s, x - y);
    assert x + t * (y - x) == y + s * (x - y);
  }

  /**
    A line is defined at value in dim exactly when some point of the
    segment (a fraction t in [0, 1] of the way from a to b) has that
    coordinate.
   */
  lemma DefinedAtIffOnSegment(l: Line, value: real, dim: nat)
    requires Valid(l) && dim < |l.a|
    ensures DefinedAt(l, value, dim) <==>
            exists t :: 0.0 <= t <= 1.0 && PointAt(l, t)[dim] == value
  {
    var x, y := l.a[dim], l.b[dim];
    if DefinedAt(l, value, dim) {
      if x == y {
        PointAtEnds(l);
        assert PointAt(l, 0.0)[dim] == value;
      } else {
        DefinedAtParameter(l, value, dim);
        var t := (value - x) / (y - x);
        assert PointAt(l, t)[dim] == value;
      }
    }
    if t :| 0.0 <= t <= 1.0 && PointAt(l, t)[dim] == value {
      assert value == x + t * (y - x);
      if x <= y {
        BetweenUpward(x, y, t);
      } else {
        BetweenDownward(x, y, t);
      }
    }
  }

  /**
    The point of the line whose coordinate at dim is value. Where the line
    is not defined at value the result is the empty (all-zero) vector. A
    line with no extent in dim gives its endpoint a.
   */
  function ValueAt(l: Line, value: real, dim: nat): (r: Vec)
    requires Valid(l) && dim < |l.a|
    ensures |r| == |l.a|
    ensures DefinedAt(l, value, dim) ==> r[dim] == value
    ensures !DefinedAt(l, value, dim) ==> r == Zero(|l.a|)
  {
    if !DefinedAt(l, value, dim) then Zero(|l.a|)
    else if l.a[dim] == l.b[dim] then l.a
    else Add(l.a, Scale(Gradient(l, dim), value - l.a[dim]))
  }

  /** Where the line is defined, ValueAt gives a point of the segment. */
  lemma ValueAtOnSegment(l: Line, value: real, dim: nat)
    requires Valid(l) && dim < |l.a|
    requires DefinedAt(l, value, dim)
    ensures exists t :: 0.0 <= t <= 1.0 && ValueAt(l, value, dim) == PointAt(l, t)
  {
    var x, y := l.a[dim], l.b[dim];
    if x == y {
      PointAtEnds(l);
      assert ValueAt(l, value, dim) == PointAt(l, 0.0);
    } else {
      var t := (value - x) / (y - x);
      DefinedAtParameter(l, value, dim);
      var g, d := Gradient(l, dim), Difference(l);
      forall i | 0 <= i < |l.a|
        ensures ValueAt(l, value, dim)[i] == PointAt(l, t)[i]
      {
        calc {
          t * d[i];
          t * (g[i] * (y - x));
          (t * (y - x)) * g[i];
          (value - x) * g[i];
        }
      }
      assert ValueAt(l, value, dim) == PointAt(l, t);
    }
  }

  /** For a line with extent in dim, the parameter of value lies in [0, 1] when the line is defined there. */
  lemma DefinedAtParameter(l: Line, value: real, dim: nat)
    requires Valid(l) && dim < |l.a|
    requires DefinedAt(l, value, dim) && l.a[dim] != l.b[dim]
    ensures 0.0 <= (value - l.a[dim]) / (l.b[dim] - l.a[dim]) <= 1.0
    ensures (value - l.a[dim]) / (l.b[dim] - l.a[dim]) * (l.b[dim] - l.a[dim]) == value - l.a[dim]
  {
    FractionOf(value - l.a[dim], l.b[dim] - l.a[dim]);
  }

  /** The ratio p / w of a part p of w that lies between 0 and w is between 0 and 1. */
  lemma FractionOf(p: real, w: real)
    requires w != 0.0
    requires 0.0 < w ==> 0.0 <= p <= w
    requires w < 0.0 ==> w <= p <= 0.0
    ensures 0.0 <= p / w <= 1.0
    ensures p / w * w == p
  {
    assert p / w * w == p;
  }

  /** At the endpoints' own coordinates ValueAt gives the endpoints back. */
  lemma ValueAtEndpoints(l: Line, dim: nat)
    requires Valid(l) && dim < |l.a|
    ensures ValueAt(l, l.a[dim], dim) == l.a
    ensures l.a[dim] != l.b[dim] ==> ValueAt(l, l.b[dim], dim) == l.b
  {
    if l.a[dim] != l.b[dim] {
      var g := Gradient(l, dim);
      assert ValueAt(l, l.a[dim], dim) == Add(l.a, Scale(g, 0.0));
      forall i | 0 <= i < |l.a|
        ensures ValueAt(l, l.b[dim], dim)[i] == l.b[i]
      {
        assert (l.b[dim] - l.a[dim]) * g[i] == Difference(l)[i];
      }
    }
  }

  /**
    Conversion to a Line of another dimension od: each endpoint keeps its
    first coordinates, drops those beyond od and gains zeros up to od.
   */
  function Convert(l: Line, od: nat): (r: Line)
    requires Valid(l)
    ensures Valid(r) && |r.a| == od
    ensures forall i :: 0 <= i < od && i < |l.a| ==> r.a[i] == l.a[i] && r.b[i] == l.b[i]
    ensures forall i :: |l.a| <= i < od ==> r.a[i] == 0.0 && r.b[i] == 0.0
  {
    Line(Resize(l.a, od), Resize(l.b, od))
  }

  /**
    Conversion keeps the order of the endpoints, is the identity at the
    same dimension, converts the difference alongside the endpoints and
    keeps where the line is defined in the dimensions both types share.
   */
  lemma ConvertProperties(l: Line, od: nat)
    requires Valid(l)
    ensures Convert(Reversed(l), od) == Reversed(Convert(l, od))
    ensures Convert(l, |l.a|) == l
    ensures Difference(Convert(l, od)) == Resize(Difference(l), od)
    ensures forall v, dim :: 0 <= dim < od && dim < |l.a| ==>
              (DefinedAt(Convert(l, od), v, dim) <==> DefinedAt(l, v, dim))
  {
  }

  /** The squared Euclidean length: the sum of the squared coordinates of v. */
  function SumOfSquares(v: Vec): (r: real)
    ensures 0.0 <= r
  {
    if v == [] then 0.0 else v[0] * v[0] + SumOfSquares(v[1..])
  }

  lemma {:induction false} ZeroSumOfSquares(n: nat)
    ensures SumOfSquares(Zero(n)) == 0.0
  {
    if n > 0 {
      assert Zero(n)[1..] == Zero(n - 1);
      ZeroSumOfSquares(n - 1);
    }
  }

  /** The square of the line's length (the distance between a and b); zero for a degenerate line. */
  function SquaredLength(l: Line): (r: real)
    requires Valid(l)
    ensures 0.0 <= r
    ensures l.a == l.b ==> r == 0.0
  {
    var d := Difference(l);
    if l.a == l.b then
      assert d == Zero(|l.a|);
      ZeroSumOfSquares(|l.a|);
      SumOfSquares(d)
    else
      SumOfSquares(d)
  }

  lemma {:induction false} SumOfSquaresNegated(v: Vec)
    ensures SumOfSquares(Scale(v, -1.0)) == SumOfSquares(v)
  {
    if v != [] {
      assert Scale(v, -1.0)[1..] == Scale(v[1..], -1.0);
      SumOfSquaresNegated(v[1..]);
    }
  }

  /** The length does not depend on the order of the endpoints. */
  lemma SquaredLengthReversed(l: Line)
    requires Valid(l)
    ensures SquaredLength(Reversed(l)) == SquaredLength(l)
  {
    DifferenceLeadsFromAToB(l);
    SumOfSquaresNegated(Difference(l));
  }

  /**
    A worked example: the line from (0, 0) to
    (2, 0) is defined at 1 but not at 3 in dimension 0, its point there is
    (1, 0), its gradient in dimension 0 is (1, 0) and its length is 2.
   */
  lemma HorizontalLineExample()
    ensures var l := Line([0.0, 0.0], [2.0, 0.0]);
      && DefinedAt(l, 1.0, 0) && !DefinedAt(l, 3.0, 0)
      && ValueAt(l, 1.0, 0) == [1.0, 0.0]
      && Gradient(l, 0) == [1.0, 0.0]
      && SquaredLength(l) == 4.0
  {
  }

  /** Converting the 2-dimensional line (1, 2)-(3, 4) to 3 dimensions zero-fills the new coordinate. */
  lemma ConvertExample()
    ensures Convert(Line([1.0, 2.0], [3.0, 4.0]), 3) == Line([1.0, 2.0, 0.0], [3.0, 4.0, 0.0])
  {
  }
}
