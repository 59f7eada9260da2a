/** One-dimensional interpolation over knots (x[i], y[i]): the recentred
    knots of the piecewise-constant interpolator, its cached interval search,
    and the tables that map style names and point counts to styles. */
module Interpolation {
  import opened Errors

  /** The interpolation styles, in the order of their integer codes. */
  datatype Style =
    | Unknown
    | Constant
    | Linear
    | NaturalSpline
    | CubicSpline
    | CubicSplinePeriodic
    | AkimaSpline
    | AkimaSplinePeriodic
    | NumStyles

  /** The integer value of each style: UNKNOWN is -1, NUM_STYLES one past the last real style. */
  function Code(s: Style): int
  {
    match s
    case Unknown => -1
    case Constant => 0
    case Linear => 1
    case NaturalSpline => 2
    case CubicSpline => 3
    case CubicSplinePeriodic => 4
    case AkimaSpline => 5
    case AkimaSplinePeriodic => 6
    case NumStyles => 7
  }

  /** The interpolation types of the external spline library. */
  datatype GslType = GslLinear | GslCspline | GslCsplinePeriodic | GslAkima | GslAkimaPeriodic

  predicate Sorted(s: seq<real>)
  {
    forall i, j :: 0 <= i < j < |s| ==> s[i] <= s[j]
  }

  // ---------------------------------------------------------------- recenter

  /** Moves the knots to the midpoints between neighbours so that each
      original point sits inside its own constant step; the two end knots are
      placed half a spacing beyond the first and last points. */
  method Recenter(x: seq<real>, y: seq<real>) returns (r: Result<(seq<real>, seq<real>)>)
    ensures |x| != |y| ==> r == Err(InvalidParameterError)
    ensures |x| == |y| == 0 ==> r == Err(OutOfRangeError)
    ensures |x| == |y| == 1 ==> r == Ok((x, y))
    ensures |x| == |y| >= 2 ==> r.Ok? && RecenteredFrom(x, y, r.value.0, r.value.1)
  {
    if |x| != |y| {
      return Err(InvalidParameterError);
    }
    var len := |x|;
    if len == 0 {
      return Err(OutOfRangeError);
    } else if len == 1 {
      return Ok((x, y));
    }
    var rx := [0.5 * (3.0 * x[0] - x[1])];
    var ry := [y[0]];
    var i := 0;
    while i < len - 1
      invariant 0 <= i <= len - 1
      invariant |rx| == |ry| == i + 1
      invariant rx[0] == 0.5 * (3.0 * x[0] - x[1]) && ry[0] == y[0]
      invariant forall j :: 1 <= j <= i ==> rx[j] == 0.5 * (x[j - 1] + x[j])
      invariant forall j :: 1 <= j <= i ==> ry[j] == 0.5 * (y[j - 1] + y[j])
    {
      rx := rx + [0.5 * (x[i] + x[i + 1])];
      ry := ry + [0.5 * (y[i] + y[i + 1])];
      i := i + 1;
    }
    rx := rx + [0.5 * (3.0 * x[len - 1] - x[len - 2])];
    ry := ry + [y[len - 1]];
    return Ok((rx, ry));
  }

  /** The knots (rx, ry) are the recentred form of (x, y), for at least two points:
      len+1 knots, end values y[0] and y[len-1], interior knots at midpoints. */
  ghost predicate RecenteredFrom(x: seq<real>, y: seq<real>, rx: seq<real>, ry: seq<real>)
    requires |x| == |y| >= 2
  {
    var len := |x|;
    && |rx| == |ry| == len + 1
    && rx[0] == 0.5 * (3.0 * x[0] - x[1])
    && rx[len] == 0.5 * (3.0 * x[len - 1] - x[len - 2])
    && ry[0] == y[0]
    && ry[len] == y[len - 1]
    && (forall j :: 1 <= j < len ==> rx[j] == 0.5 * (x[j - 1] + x[j]))
    && (forall j :: 1 <= j < len ==> ry[j] == 0.5 * (y[j - 1] + y[j]))
  }

  /** Recentring sorted knots keeps them sorted, and every original point lies
      between the two recentred knots around it. */
  lemma RecenteredKnotsBracket(x: seq<real>, y: seq<real>, rx: seq<real>, ry: seq<real>)
    requires |x| == |y| >= 2 && Sorted(x)
    requires RecenteredFrom(x, y, rx, ry)
    ensures Sorted(rx)
    ensures forall i :: 0 <= i < |x| ==> rx[i] <= x[i] <= rx[i + 1]
  {
    var len := |x|;
    forall i | 0 <= i < len
      ensures rx[i] <= x[i] <= rx[i + 1]
    {
      if i == 0 {
        assert x[0] <= x[1];
      } else {
        assert x[i - 1] <= x[i];
      }
      if i == len - 1 {
        assert x[len - 2] <= x[len - 1];
      } else {
        assert x[i] <= x[i + 1];
      }
    }
    forall i, j | 0 <= i < j < |rx|
      ensures rx[i] <= rx[j]
    {
      assert rx[i] <= x[i] <= rx[i + 1];
      assert x[i] <= x[j - 1] <= rx[j];
    }
  }

  // ------------------------------------------------ piecewise-constant search

  /** The position `std::upper_bound` finds in sorted knots: the number of
      knots that are not greater than `v`. */
  function FirstAbove(x: seq<real>, v: real): (p: nat)
    ensures p <= |x|
  {
    if |x| == 0 then 0
    else if x[0] > v then 0
    else 1 + FirstAbove(x[1..], v)
  }

  lemma {:induction false} FirstAboveSplits(x: seq<real>, v: real)
    requires Sorted(x)
    ensures forall i :: 0 <= i < FirstAbove(x, v) ==> x[i] <= v
    ensures forall i :: FirstAbove(x, v) <= i < |x| ==> x[i] > v
  {
    if |x| > 0 && x[0] <= v {
      FirstAboveSplits(x[1..], v);
      forall i | 0 < i < FirstAbove(x, v) ensures x[i] <= v {
        assert x[1..][i - 1] == x[i];
      }
      forall i | FirstAbove(x, v) <= i < |x| ensures x[i] > v {
        assert x[1..][i - 1] == x[i];
      }
    }
  }

  lemma {:induction false} FirstAboveUnique(x: seq<real>, v: real, p: nat)
    requires Sorted(x) && p <= |x|
    requires forall i :: 0 <= i < p ==> x[i] <= v
    requires forall i :: p <= i < |x| ==> x[i] > v
    ensures FirstAbove(x, v) == p
  {
    if |x| > 0 && x[0] <= v {
      assert p >= 1;
      FirstAboveUnique(x[1..], v, p - 1);
    }
  }

  /** The value of the piecewise-constant interpolator at `v`. */
  function ConstantValue(x: seq<real>, y: seq<real>, v: real): real
    requires |x| == |y| >= 1
  {
    var p := FirstAbove(x, v);
    if p == |x| then y[|y| - 1]
    else if p == 0 then y[0]
    else y[p - 1]
  }

  /** The step function's three cases: left of the first knot, at or right
      of the last knot, and inside the interval x[i] <= v < x[i+1]. */
  lemma ConstantValueCases(x: seq<real>, y: seq<real>, v: real)
    requires |x| == |y| >= 1 && Sorted(x)
    ensures v < x[0] ==> ConstantValue(x, y, v) == y[0]
    ensures v >= x[|x| - 1] ==> ConstantValue(x, y, v) == y[|y| - 1]
    ensures forall i :: 0 <= i < |x| - 1 && x[i] <= v < x[i + 1] ==> ConstantValue(x, y, v) == y[i]
  {
    FirstAboveSplits(x, v);
    forall i | 0 <= i < |x| - 1 && x[i] <= v < x[i + 1]
      ensures ConstantValue(x, y, v) == y[i]
    {
      FirstAboveUnique(x, v, i + 1);
    }
  }

  /** `std::upper_bound` on the index range [lo, hi) of sorted knots, by bisection. */
  method UpperBound(x: seq<real>, lo: nat, hi: nat, v: real) returns (p: nat)
    requires lo <= hi <= |x| && Sorted(x)
    ensures lo <= p <= hi
    ensures forall i :: lo <= i < p ==> x[i] <= v
    ensures forall i :: p <= i < hi ==> x[i] > v
  {
    var a, b := lo, hi;
    while a < b
      invariant lo <= a <= b <= hi
      invariant forall i :: lo <= i < a ==> x[i] <= v
      invariant forall i :: b <= i < hi ==> x[i] > v
    {
      var mid := a + (b - a) / 2;
      if x[mid] <= v {
        a := mid + 1;
      } else {
        b := mid;
      }
    }
    p := a;
  }

  /** The piecewise-constant interpolator; `cache` (the source's `_old`) holds the interval found by
      the previous lookup (it is mutable even through a const object). */
  class InterpolateConstant {
    const x: seq<real>
    const y: seq<real>
    var cache: nat

    ghost predicate Valid()
      reads this
    {
      |x| == |y| >= 1 && Sorted(x) && cache < |x|
    }

    /** Takes already recentred knots; the cache starts at the first knot. */
    constructor (rx: seq<real>, ry: seq<real>)
      requires |rx| == |ry| >= 1 && Sorted(rx)
      ensures Valid() && x == rx && y == ry && cache == 0
    {
      x, y, cache := rx, ry, 0;
    }

    /** Looks up the step containing `v`, starting the search at the cached
        interval; whatever the cache holds, the answer is the step function's. */
    method Interpolate(v: real) returns (r: real)
      requires Valid()
      modifies this
      ensures Valid()
      ensures r == ConstantValue(x, y, v)
    {
      FirstAboveSplits(x, v);
      if v < x[cache] {
        if cache == 0 {
          ConstantValueCases(x, y, v);
          return y[0];
        }
        cache := 0;
      } else {
        if cache < |x| - 1 && v < x[cache + 1] {
          ConstantValueCases(x, y, v);
          return y[cache];
        }
      }
      var low := UpperBound(x, cache, |x|, v);
      if low == cache && cache != 0 {
        // The source searches the whole range again here; on sorted knots the
        // search from the cached knot always moves past it, so this cannot happen.
        assert false;
      }
      FirstAboveUnique(x, v, low);
      if low == |x| {
        r := y[|y| - 1];
      } else if low == 0 {
        r := y[0];
      } else {
        low := low - 1;
        cache := low;
        r := y[low];
      }
    }

    /** Interpolates every entry of `xs` in turn. */
    method InterpolateAll(xs: seq<real>) returns (out: seq<real>)
      requires Valid()
      modifies this
      ensures Valid()
      ensures |out| == |xs|
      ensures forall i :: 0 <= i < |xs| ==> out[i] == ConstantValue(x, y, xs[i])
    {
      out := [];
      var i := 0;
      while i < |xs|
        invariant Valid() && 0 <= i <= |xs| && |out| == i
        invariant forall j :: 0 <= j < i ==> out[j] == ConstantValue(x, y, xs[j])
      {
        var r := Interpolate(xs[i]);
        out := out + [r];
        i := i + 1;
      }
    }
  }

  // ------------------------------------------------------------ style tables

  /** Maps a style to the external library's interpolation type; CONSTANT and
      UNKNOWN are refused, and NUM_STYLES is a logic error. */
  function StyleToGslInterpType(s: Style): (r: Result<GslType>)
    ensures r.Err? <==> s in {Constant, Unknown, NumStyles}
    ensures s in {Constant, Unknown} ==> r == Err(InvalidParameterError)
    ensures s == NumStyles ==> r == Err(LogicError)
    ensures s in {NaturalSpline, CubicSpline} ==> r == Ok(GslCspline)
  {
    match s
    case Constant => Err(InvalidParameterError)
    case Linear => Ok(GslLinear)
    case CubicSpline => Ok(GslCspline)
    case NaturalSpline => Ok(GslCspline)
    case CubicSplinePeriodic => Ok(GslCsplinePeriodic)
    case AkimaSpline => Ok(GslAkima)
    case AkimaSplinePeriodic => Ok(GslAkimaPeriodic)
    case Unknown => Err(InvalidParameterError)
    case NumStyles => Err(LogicError)
  }

  /** The name under which each of the seven real styles can be looked up. */
  const StyleNames: map<string, Style> := map[
    "CONSTANT" := Constant,
    "LINEAR" := Linear,
    "CUBIC_SPLINE" := CubicSpline,
    "NATURAL_SPLINE" := NaturalSpline,
    "CUBIC_SPLINE_PERIODIC" := CubicSplinePeriodic,
    "AKIMA_SPLINE" := AkimaSpline,
    "AKIMA_SPLINE_PERIODIC" := AkimaSplinePeriodic
  ]

  function StringToInterpStyle(name: string): (r: Result<Style>)
    ensures name !in StyleNames ==> r == Err(InvalidParameterError)
    ensures name in StyleNames ==> r == Ok(StyleNames[name])
  {
    if name !in StyleNames then Err(InvalidParameterError) else Ok(StyleNames[name])
  }

  /** The name of a style as the lookup table spells it, for the seven real styles. */
  function StyleName(s: Style): string
    requires 0 <= Code(s) < 7
  {
    match s
    case Constant => "CONSTANT"
    case Linear => "LINEAR"
    case CubicSpline => "CUBIC_SPLINE"
    case NaturalSpline => "NATURAL_SPLINE"
    case CubicSplinePeriodic => "CUBIC_SPLINE_PERIODIC"
    case AkimaSpline => "AKIMA_SPLINE"
    case AkimaSplinePeriodic => "AKIMA_SPLINE_PERIODIC"
  }

  /** Exactly the seven real styles parse, each from its own name; UNKNOWN
      and NUM_STYLES are never produced. */
  lemma StringToInterpStyleRoundTrip(s: Style, name: string)
    ensures 0 <= Code(s) < 7 ==> StringToInterpStyle(StyleName(s)) == Ok(s)
    ensures StringToInterpStyle(name).Ok? ==> 0 <= Code(StringToInterpStyle(name).value) < 7
  {
  }

  /** The most capable style usable with `n` points. */
  function LookupMaxInterpStyle(n: int): (r: Result<Style>)
    ensures n < 1 <==> r == Err(InvalidParameterError)
    ensures n == 1 ==> r == Ok(Constant)
    ensures n == 2 ==> r == Ok(Linear)
    ensures n == 3 || n == 4 ==> r == Ok(CubicSpline)
    ensures n > 4 ==> r == Ok(AkimaSpline)
  {
    if n < 1 then Err(InvalidParameterError)
    else if n > 4 then Ok(AkimaSpline)
    else Ok([Unknown, Constant, Linear, CubicSpline, CubicSpline][n])
  }

  /** The fewest points each style needs; styles outside 0..NUM_STYLES-1 are out of range. */
  function LookupMinInterpPoints(s: Style): (r: Result<int>)
    ensures r.Err? <==> !(0 <= Code(s) < Code(NumStyles))
    ensures r.Err? ==> r.error == OutOfRangeError
    ensures s == Constant ==> r == Ok(1)
    ensures s == Linear ==> r == Ok(2)
    ensures s in {NaturalSpline, CubicSpline, CubicSplinePeriodic} ==> r == Ok(3)
    ensures s in {AkimaSpline, AkimaSplinePeriodic} ==> r == Ok(5)
  {
    var minPoints := [1, 2, 3, 3, 3, 5, 5];
    if 0 <= Code(s) < Code(NumStyles) then Ok(minPoints[Code(s)]) else Err(OutOfRangeError)
  }

  /** The two tables agree: the most capable style for `n` points never needs
      more than `n` points, and it needs all of them for 1, 2, 3 and 5. */
  lemma MaxStyleFitsPointCount(n: int)
    requires n >= 1
    ensures LookupMaxInterpStyle(n).Ok?
    ensures LookupMinInterpPoints(LookupMaxInterpStyle(n).value).Ok?
    ensures LookupMinInterpPoints(LookupMaxInterpStyle(n).value).value <= n
    ensures n in {1, 2, 3, 5} ==> LookupMinInterpPoints(LookupMaxInterpStyle(n).value).value == n
  {
  }

  /** An interpolator as `makeInterpolate` builds it: the constant one of this
      model, or a spline of the external library over the given knots. */
  datatype Interpolator =
    | ConstantInterpolator(impl: InterpolateConstant)
    | SplineInterpolator(style: Style, gslType: GslType, x: seq<real>, y: seq<real>)

  /** Builds the constant interpolator exactly for CONSTANT (over the recentred
      knots); every other style goes to the spline library, which refuses the
      styles it has no type for. The library's own two steps are foreign
      calls and enter as parameters: `allocOk` says whether it allocated a
      spline of the style's type over |y| points, and `initStatus` is the
      status its initialisation over the knots returned (0 for success). */
  method MakeInterpolate(x: seq<real>, y: seq<real>, style: Style, allocOk: bool, initStatus: int)
    returns (r: Result<Interpolator>)
    requires style == Constant ==> Sorted(x)
    ensures r.Ok? ==> (r.value.ConstantInterpolator? <==> style == Constant)
    ensures style == Constant && |x| != |y| ==> r == Err(InvalidParameterError)
    ensures style == Constant && |x| == |y| == 0 ==> r == Err(OutOfRangeError)
    ensures style == Constant && |x| == |y| == 1 ==>
      r.Ok? && r.value.impl.Valid() && r.value.impl.x == x && r.value.impl.y == y
    ensures r.Ok? && r.value.ConstantInterpolator? ==> fresh(r.value.impl)
    ensures style == Constant && |x| == |y| >= 2 ==>
      r.Ok? && r.value.impl.Valid() && RecenteredFrom(x, y, r.value.impl.x, r.value.impl.y)
    ensures style != Constant && StyleToGslInterpType(style).Err? ==>
      r == Err(StyleToGslInterpType(style).error)
    ensures style != Constant && StyleToGslInterpType(style).Ok? ==>
      && (!allocOk ==> r == Err(OutOfRangeError))
      && (allocOk && initStatus != 0 ==> r == Err(RuntimeError))
      && (allocOk && initStatus == 0 ==> r == Ok(SplineInterpolator(style, StyleToGslInterpType(style).value, x, y)))
  {
    if style == Constant {
      var knots := Recenter(x, y);
      if knots.Err? {
        return Err(knots.error);
      }
      var (rx, ry) := knots.value;
      if |x| >= 2 {
        RecenteredKnotsBracket(x, y, rx, ry);
      }
      var impl := new InterpolateConstant(rx, ry);
      return Ok(ConstantInterpolator(impl));
    }
    var t := StyleToGslInterpType(style);
    if t.Err? {
      return Err(t.error);
    }
    if !allocOk {
      return Err(OutOfRangeError);
    }
    if initStatus != 0 {
      return Err(RuntimeError);
    }
    return Ok(SplineInterpolator(style, t.value, x, y));
  }

  /** The one-point constant interpolator answers its single value
      everywhere: built over the knot (1.0, 7.0), it interpolates 7.0 at 3.0. */
  method OnePointConstant() returns (v: real)
    ensures v == 7.0
  {
    var r := MakeInterpolate([1.0], [7.0], Constant, true, 0);
    var impl := r.value.impl;
    v := impl.Interpolate(3.0);
    ConstantValueCases(impl.x, impl.y, 3.0);
  }
}
