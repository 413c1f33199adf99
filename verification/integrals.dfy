/** Numerical integration on `[a, b]` by the rectangle (midpoint) and the
    trapezium rules with a fixed step `h`.

    Both rules walk a sample point `x` from the left end in steps of `h`
    while `x < b` and cancellation has not been requested, and add one
    increment per segment.  The increment policy (`Mode`) decides how the
    signed contribution of a segment counts: its absolute value, only the
    part above or below the axis, or the signed value itself.

    The integrand is a parameter (`f: real -> real`), the step is a
    positive real and sample points advance exactly, without rounding.
 */
module Integrals {
  import opened Results
  import Cancellation
  import Vectors

  /** `IntegrationOptions`. */
  datatype Mode = Full | UpperOX | LowerOX | UpperMinusLower

  const IntervalError := "Parameter a should be less than parameter b"

  // ---------------------------------------------------------------------
  // The increment policy

  /** The part of `x` above the axis. */
  function Upper(x: real): (r: real)
    ensures r >= 0.0 && r >= x
  {
    if x > 0.0 then x else 0.0
  }

  /** The size of the part of `x` below the axis. */
  function Lower(x: real): (r: real)
    ensures r >= 0.0 && r >= -x
  {
    if x < 0.0 then -x else 0.0
  }

  /** `CalcIncrement`: the amount one segment contributes under `mode`,
      described through the segment's parts above and below the axis. */
  function Increment(x: real, mode: Mode): (r: real)
    ensures mode != UpperMinusLower ==> r >= 0.0
    ensures mode == Full ==> r == Upper(x) + Lower(x)
    ensures mode == UpperOX ==> r == Upper(x) && (x <= 0.0 ==> r == 0.0)
    ensures mode == LowerOX ==> r == Lower(x) && (x >= 0.0 ==> r == 0.0)
    ensures mode == UpperMinusLower ==> r == Upper(x) - Lower(x)
  {
    match mode
    case Full => Vectors.Abs(x)
    case UpperOX => if x > 0.0 then x else 0.0
    case LowerOX => if x < 0.0 then Vectors.Abs(x) else 0.0
    case UpperMinusLower => x
  }

  // ---------------------------------------------------------------------
  // Walking the sample points

  /** The `k`-th point of the walk from `s` in steps of `h`, reached by
      adding `h` once per step as the loops do. */
  function Point(s: real, h: real, k: nat): real
  {
    if k == 0 then s else Point(s, h, k - 1) + h
  }

  /** Starting one step later shifts the walk by one point. */
  lemma {:induction false} PointShift(s: real, h: real, k: nat)
    ensures Point(s + h, h, k) == Point(s, h, k + 1)
  {
    if k > 0 {
      PointShift(s, h, k - 1);
    }
  }

  /** In closed form, the `k`-th point is `s + k h`. */
  lemma {:induction false} PointValue(s: real, h: real, k: nat)
    ensures Point(s, h, k) == s + k as real * h
  {
    if k > 0 {
      PointValue(s, h, k - 1);
      assert (k - 1) as real * h + h == k as real * h;
    }
  }

  /** With a positive step, every point after the start lies at least one
      step to its right. */
  lemma {:induction false} PointAdvances(s: real, h: real, k: nat)
    requires h > 0.0 && k >= 1
    ensures Point(s, h, k) >= s + h
  {
    if k > 1 {
      PointAdvances(s, h, k - 1);
    }
  }

  /** Whether the walk continues at `x`: `x < b`, or `x <= b` for the
      inclusive variant. */
  predicate Continues(x: real, b: real, inclusive: bool) {
    if inclusive then x <= b else x < b
  }

  /** Taking one step off a distance takes one off its quotient by the
      step. */
  lemma {:induction false} StepQuotient(u: real, h: real)
    requires h > 0.0
    ensures (u - h) / h == u / h - 1.0
    ensures u >= 0.0 ==> u / h >= 0.0
  {
    assert (u - h) / h == u / h - h / h;
  }

  /** The number of steps a walk from `x` takes before it stops. */
  function Count(x: real, b: real, h: real, inclusive: bool): nat
    requires h > 0.0
    decreases ((b - x) / h).Floor + 1
  {
    if !Continues(x, b, inclusive) then 0
    else
      StepQuotient(b - x, h);
      1 + Count(x + h, b, h, inclusive)
  }


  /** The total of `g` over the points a walk from `x` visits. */
  function Total(g: real -> real, x: real, b: real, h: real, inclusive: bool): real
    requires h > 0.0
    decreases ((b - x) / h).Floor + 1
  {
    if !Continues(x, b, inclusive) then 0.0
    else
      StepQuotient(b - x, h);
      g(x) + Total(g, x + h, b, h, inclusive)
  }

  /** One step of a walk that continues. */
  lemma {:induction false} TotalStep(g: real -> real, x: real, b: real, h: real, inclusive: bool)
    requires h > 0.0 && Continues(x, b, inclusive)
    ensures Total(g, x, b, h, inclusive) == g(x) + Total(g, x + h, b, h, inclusive)
    ensures Count(x, b, h, inclusive) == 1 + Count(x + h, b, h, inclusive)
  {
  }

  /** A total of non-negative amounts is non-negative. */
  lemma {:induction false} TotalNonNegative(g: real -> real, x: real, b: real, h: real, inclusive: bool)
    requires h > 0.0 && forall y :: g(y) >= 0.0
    ensures Total(g, x, b, h, inclusive) >= 0.0
    decreases ((b - x) / h).Floor + 1
  {
    if Continues(x, b, inclusive) {
      StepQuotient(b - x, h);
      TotalNonNegative(g, x + h, b, h, inclusive);
    }
  }

  /** Totals over the same walk add, or subtract, point by point. */
  lemma {:induction false} TotalCombine(g: real -> real, g1: real -> real, g2: real -> real, minus: bool,
                                        x: real, b: real, h: real, inclusive: bool)
    requires h > 0.0
    requires forall y :: g(y) == if minus then g1(y) - g2(y) else g1(y) + g2(y)
    ensures Total(g, x, b, h, inclusive)
      == if minus then Total(g1, x, b, h, inclusive) - Total(g2, x, b, h, inclusive)
         else Total(g1, x, b, h, inclusive) + Total(g2, x, b, h, inclusive)
    decreases ((b - x) / h).Floor + 1
  {
    if Continues(x, b, inclusive) {
      StepQuotient(b - x, h);
      TotalCombine(g, g1, g2, minus, x + h, b, h, inclusive);
    }
  }

  /** A constant amount `c` is added once per step. */
  lemma {:induction false} TotalConstant(g: real -> real, c: real, x: real, b: real, h: real, inclusive: bool)
    requires h > 0.0 && forall y :: g(y) == c
    ensures Total(g, x, b, h, inclusive) == Count(x, b, h, inclusive) as real * c
    decreases ((b - x) / h).Floor + 1
  {
    if Continues(x, b, inclusive) {
      StepQuotient(b - x, h);
      TotalConstant(g, c, x + h, b, h, inclusive);
      assert c + Count(x + h, b, h, inclusive) as real * c == (Count(x + h, b, h, inclusive) + 1) as real * c;
    }
  }

  /** When `b` is the `m`-th point of the walk from `s`, an exclusive walk
      starting from `s + d`, `0 <= d < h`, takes `m` steps. */
  lemma {:induction false} CountGrid(s: real, d: real, b: real, h: real, m: nat)
    requires h > 0.0 && 0.0 <= d < h && b == Point(s, h, m)
    ensures Count(s + d, b, h, false) == m
    decreases m
  {
    if m > 0 {
      PointAdvances(s, h, m);
      PointShift(s, h, m - 1);
      assert s + d + h == (s + h) + d;
      CountGrid(s + h, d, b, h, m - 1);
    }
  }

  /** When `b` is the `m`-th point of the walk from `s`, an inclusive walk
      from `s` takes `m + 1` steps, the last one at `b` itself. */
  lemma {:induction false} CountGridInclusive(s: real, b: real, h: real, m: nat)
    requires h > 0.0 && b == Point(s, h, m)
    ensures Count(s, b, h, true) == m + 1
    decreases m
  {
    if m > 0 {
      PointAdvances(s, h, m);
      PointShift(s, h, m - 1);
      CountGridInclusive(s + h, b, h, m - 1);
    } else {
      assert Count(s + h, b, h, true) == 0;
    }
  }

  // ---------------------------------------------------------------------
  // The two rules

  /** The signed area of a strip of width `w` and height `y`. */
  function Area(w: real, y: real): real
  {
    w * y
  }

  /** The rectangle rule's contribution at the midpoint `x`: `h f(x)`. */
  function Rectangle(f: real -> real, h: real, x: real): real
  {
    Area(h, f(x))
  }

  /** The trapezium rule's contribution for the segment ending at `x`:
      `h/2` times the sum of `f` at both ends. */
  function Trapezoid(f: real -> real, h: real, x: real): real
  {
    Area(h / 2.0, f(x - h) + f(x))
  }

  /** The rectangle rule's increments under `mode`, by midpoint. */
  function RectangleIncrements(f: real -> real, h: real, mode: Mode): real -> real
  {
    x => Increment(Rectangle(f, h, x), mode)
  }

  /** The trapezium rule's increments under `mode`, by right end. */
  function TrapeziumIncrements(f: real -> real, h: real, mode: Mode): real -> real
  {
    x => Increment(Trapezoid(f, h, x), mode)
  }

  /** Except under `UpperMinusLower` every increment is non-negative, so
      both rules return a non-negative result. */
  lemma {:induction false} RuleNonNegative(f: real -> real, h: real, mode: Mode, x: real, b: real, inclusive: bool)
    requires h > 0.0 && mode != UpperMinusLower
    ensures Total(RectangleIncrements(f, h, mode), x, b, h, inclusive) >= 0.0
    ensures Total(TrapeziumIncrements(f, h, mode), x, b, h, inclusive) >= 0.0
  {
    TotalNonNegative(RectangleIncrements(f, h, mode), x, b, h, inclusive);
    TotalNonNegative(TrapeziumIncrements(f, h, mode), x, b, h, inclusive);
  }

  /** Over any walk of either rule, the total area (`Full`) is the area
      above the axis plus the area below it, and the signed area
      (`UpperMinusLower`) is their difference. */
  lemma {:induction false} RuleParts(f: real -> real, h: real, x: real, b: real, inclusive: bool)
    requires h > 0.0
    ensures Total(RectangleIncrements(f, h, Full), x, b, h, inclusive)
      == Total(RectangleIncrements(f, h, UpperOX), x, b, h, inclusive) + Total(RectangleIncrements(f, h, LowerOX), x, b, h, inclusive)
    ensures Total(RectangleIncrements(f, h, UpperMinusLower), x, b, h, inclusive)
      == Total(RectangleIncrements(f, h, UpperOX), x, b, h, inclusive) - Total(RectangleIncrements(f, h, LowerOX), x, b, h, inclusive)
    ensures Total(TrapeziumIncrements(f, h, Full), x, b, h, inclusive)
      == Total(TrapeziumIncrements(f, h, UpperOX), x, b, h, inclusive) + Total(TrapeziumIncrements(f, h, LowerOX), x, b, h, inclusive)
    ensures Total(TrapeziumIncrements(f, h, UpperMinusLower), x, b, h, inclusive)
      == Total(TrapeziumIncrements(f, h, UpperOX), x, b, h, inclusive) - Total(TrapeziumIncrements(f, h, LowerOX), x, b, h, inclusive)
  {
    TotalCombine(RectangleIncrements(f, h, Full), RectangleIncrements(f, h, UpperOX), RectangleIncrements(f, h, LowerOX), false, x, b, h, inclusive);
    TotalCombine(RectangleIncrements(f, h, UpperMinusLower), RectangleIncrements(f, h, UpperOX), RectangleIncrements(f, h, LowerOX), true, x, b, h, inclusive);
    TotalCombine(TrapeziumIncrements(f, h, Full), TrapeziumIncrements(f, h, UpperOX), TrapeziumIncrements(f, h, LowerOX), false, x, b, h, inclusive);
    TotalCombine(TrapeziumIncrements(f, h, UpperMinusLower), TrapeziumIncrements(f, h, UpperOX), TrapeziumIncrements(f, h, LowerOX), true, x, b, h, inclusive);
  }

  // ---------------------------------------------------------------------
  // The two rules

  /** `RectanglesMethod`: fails when `a >= b`; otherwise adds one increment
      per midpoint `a + h/2 + k h` below `b`.  The token is polled before
      every step and once after the loop, so the run is cancelled exactly
      when the poll after the last midpoint reports cancellation.  With
      `h <= 0` the walk never reaches `b`, so only a token that fires ends
      it, and the run is cancelled. */
  method Rectangles(f: real -> real, a: real, b: real, mode: Mode, h: real, ct: Cancellation.Token)
    returns (r: Result<real>)
    requires h > 0.0 || ct.After?
    ensures a >= b ==> r == Failure(IntervalError)
    ensures a < b && h <= 0.0 ==> r == Failure(Cancellation.CanceledError)
    ensures a < b && h > 0.0 ==>
      if ct.Requested(Count(a + h / 2.0, b, h, false) + 1) then r == Failure(Cancellation.CanceledError)
      else r == Success(Total(RectangleIncrements(f, h, mode), a + h / 2.0, b, h, false))
  {
    r := RectangleWalk(f, RectangleIncrements(f, h, mode), a, b, mode, h, ct);
  }

  /** The loop of `Rectangles`, with its increments named `g`. */
  method RectangleWalk(f: real -> real, g: real -> real, a: real, b: real, mode: Mode, h: real, ct: Cancellation.Token)
    returns (r: Result<real>)
    requires h > 0.0 || ct.After?
    requires forall y :: g(y) == Increment(Rectangle(f, h, y), mode)
    ensures a >= b ==> r == Failure(IntervalError)
    ensures a < b && h <= 0.0 ==> r == Failure(Cancellation.CanceledError)
    ensures a < b && h > 0.0 ==>
      if ct.Requested(Count(a + h / 2.0, b, h, false) + 1) then r == Failure(Cancellation.CanceledError)
      else r == Success(Total(g, a + h / 2.0, b, h, false))
  {
    if a >= b {
      return Failure(IntervalError);
    }
    ghost var total := if h > 0.0 then Total(g, a + h / 2.0, b, h, false) else 0.0;
    ghost var n := if h > 0.0 then Count(a + h / 2.0, b, h, false) else 0;
    var result := 0.0;
    var x := a + h / 2.0;
    var k := 0;
    while !ct.Requested(k) && x < b
      invariant h > 0.0 ==> k + Count(x, b, h, false) == n
      invariant h > 0.0 ==> result + Total(g, x, b, h, false) == total
      invariant h <= 0.0 ==> x <= a
      decreases if h > 0.0 then Count(x, b, h, false) else if ct.After? then ct.polls - k else 0
    {
      result := result + Increment(Area(h, f(x)), mode);
      x := x + h;
      k := k + 1;
    }
    if ct.Requested(k + 1) {
      return Failure(Cancellation.CanceledError);
    }
    return Success(result);
  }

  /** The trapezium walk shared by the rule as written (`inclusive` false:
      segments whose right end is below `b`) and the corrected rule
      (`inclusive` true: right end at most `b`), with its increments named
      `g`.  The token is polled as in `Rectangles`; `left` carries the
      previous right end over. */
  method TrapeziumWalk(f: real -> real, g: real -> real, a: real, b: real, mode: Mode, h: real,
                       ct: Cancellation.Token, inclusive: bool)
    returns (r: Result<real>)
    requires h > 0.0 || ct.After?
    requires forall y :: g(y) == Increment(Trapezoid(f, h, y), mode)
    ensures a >= b ==> r == Failure(IntervalError)
    ensures a < b && h <= 0.0 ==> r == Failure(Cancellation.CanceledError)
    ensures a < b && h > 0.0 ==>
      if ct.Requested(Count(a + h, b, h, inclusive) + 1) then r == Failure(Cancellation.CanceledError)
      else r == Success(Total(g, a + h, b, h, inclusive))
  {
    if a >= b {
      return Failure(IntervalError);
    }
    ghost var total := if h > 0.0 then Total(g, a + h, b, h, inclusive) else 0.0;
    ghost var n := if h > 0.0 then Count(a + h, b, h, inclusive) else 0;
    var result := 0.0;
    var left := f(a);
    var x := a + h;
    var right := f(x);
    var halfH := h / 2.0;
    var k := 0;
    assert x - h == a;
    while !ct.Requested(k) && Continues(x, b, inclusive)
      invariant h > 0.0 ==> k + Count(x, b, h, inclusive) == n
      invariant h > 0.0 ==> result + Total(g, x, b, h, inclusive) == total
      invariant h <= 0.0 ==> x <= a
      invariant left == f(x - h) && right == f(x)
      decreases if h > 0.0 then Count(x, b, h, inclusive) else if ct.After? then ct.polls - k else 0
    {
      result, left, x, right := AddTrapezoid(f, g, mode, h, halfH, x, b, inclusive, left, right, result, total);
      k := k + 1;
    }
    if ct.Requested(k + 1) {
      return Failure(Cancellation.CanceledError);
    }
    return Success(result);
  }

  /** One pass of the trapezium loop: adds the increment of the segment
      ending at `x` and moves one step on, the old right end becoming the
      new left end. */
  method AddTrapezoid(f: real -> real, g: real -> real, mode: Mode, h: real, halfH: real,
                      x: real, b: real, inclusive: bool, left: real, right: real, result: real, ghost total: real)
    returns (result': real, left': real, x': real, right': real)
    requires halfH == h / 2.0 && forall y :: g(y) == Increment(Trapezoid(f, h, y), mode)
    requires Continues(x, b, inclusive) && left == f(x - h) && right == f(x)
    requires h > 0.0 ==> result + Total(g, x, b, h, inclusive) == total
    ensures h > 0.0 ==> result' + Total(g, x', b, h, inclusive) == total
    ensures h > 0.0 ==> Count(x, b, h, inclusive) == 1 + Count(x', b, h, inclusive)
    ensures x' == x + h && left' == f(x' - h) && right' == f(x')
  {
    if h > 0.0 {
      TotalStep(g, x, b, h, inclusive);
    }
    result' := result + Increment(Area(halfH, left + right), mode);
    left' := right;
    x' := x + h;
    right' := f(x');
    assert x' - h == x;
  }

  /** `TrapeziumMethod` as written: the loop runs while `x < b`. */
  method TrapeziumAsWritten(f: real -> real, a: real, b: real, mode: Mode, h: real, ct: Cancellation.Token)
    returns (r: Result<real>)
    requires h > 0.0 || ct.After?
    ensures a >= b ==> r == Failure(IntervalError)
    ensures a < b && h <= 0.0 ==> r == Failure(Cancellation.CanceledError)
    ensures a < b && h > 0.0 ==>
      if ct.Requested(Count(a + h, b, h, false) + 1) then r == Failure(Cancellation.CanceledError)
      else r == Success(Total(TrapeziumIncrements(f, h, mode), a + h, b, h, false))
  {
    r := TrapeziumWalk(f, TrapeziumIncrements(f, h, mode), a, b, mode, h, ct, false);
  }

  /** The trapezium rule with the last segment kept: the loop runs while
      `x <= b`, so an interval a whole number of steps long is covered
      completely. */
  method Trapezium(f: real -> real, a: real, b: real, mode: Mode, h: real, ct: Cancellation.Token)
    returns (r: Result<real>)
    requires h > 0.0 || ct.After?
    ensures a >= b ==> r == Failure(IntervalError)
    ensures a < b && h <= 0.0 ==> r == Failure(Cancellation.CanceledError)
    ensures a < b && h > 0.0 ==>
      if ct.Requested(Count(a + h, b, h, true) + 1) then r == Failure(Cancellation.CanceledError)
      else r == Success(Total(TrapeziumIncrements(f, h, mode), a + h, b, h, true))
  {
    r := TrapeziumWalk(f, TrapeziumIncrements(f, h, mode), a, b, mode, h, ct, true);
  }

  // ---------------------------------------------------------------------
  // Coverage of an interval a whole number of steps long

  /** When `b` is `m` steps of `h` away from `a`, the rectangle rule and
      the corrected trapezium rule use `m` segments, while the trapezium
      rule as written uses only `m - 1`: it never adds the segment that
      ends at `b`. */
  lemma {:induction false} GridSegments(a: real, b: real, h: real, m: nat)
    requires h > 0.0 && m >= 1 && b == Point(a, h, m)
    ensures Count(a + h / 2.0, b, h, false) == m
    ensures Count(a + h, b, h, true) == m
    ensures Count(a + h, b, h, false) == m - 1
  {
    CountGrid(a, h / 2.0, b, h, m);
    PointShift(a, h, m - 1);
    CountGridInclusive(a + h, b, h, m - 1);
    CountGrid(a + h, 0.0, b, h, m - 1);
  }

  /** For a constant integrand `c` on an interval `m` steps long, the
      corrected trapezium rule gives the exact signed area `(b - a) c`. */
  lemma {:induction false} TrapeziumExactOnConstants(f: real -> real, c: real, a: real, b: real, h: real, m: nat)
    requires h > 0.0 && m >= 1 && b == Point(a, h, m)
    requires forall t :: f(t) == c
    ensures Total(TrapeziumIncrements(f, h, UpperMinusLower), a + h, b, h, true) == (b - a) * c
  {
    var g := TrapeziumIncrements(f, h, UpperMinusLower);
    var strip := Area(h / 2.0, c + c);
    ConstantTrapezia(f, c, h, g, strip);
    ConstantTrapeziaTotal(g, c, a, b, h, m);
  }

  /** `m` equal trapezia of width `h` and height `c` sum to `(b - a) c`. */
  lemma {:induction false} ConstantTrapeziaTotal(g: real -> real, c: real, a: real, b: real, h: real, m: nat)
    requires h > 0.0 && m >= 1 && b == Point(a, h, m)
    requires forall y :: g(y) == Area(h / 2.0, c + c)
    ensures Total(g, a + h, b, h, true) == (b - a) * c
  {
    GridSegments(a, b, h, m);
    TotalConstant(g, Area(h / 2.0, c + c), a + h, b, h, true);
    PointValue(a, h, m);
    ConstantStrips(Total(g, a + h, b, h, true), m, h, c, b - a);
  }

  /** For a constant integrand `c` on an interval `m` steps long, the
      rectangle rule gives the exact signed area `(b - a) c`. */
  lemma {:induction false} RectanglesExactOnConstants(f: real -> real, c: real, a: real, b: real, h: real, m: nat)
    requires h > 0.0 && m >= 1 && b == Point(a, h, m)
    requires forall t :: f(t) == c
    ensures Total(RectangleIncrements(f, h, UpperMinusLower), a + h / 2.0, b, h, false) == (b - a) * c
  {
    var g := RectangleIncrements(f, h, UpperMinusLower);
    assert forall y :: g(y) == Area(h, c);
    ConstantRectanglesTotal(g, c, a, b, h, m);
  }

  /** `m` equal rectangles of width `h` and height `c` sum to `(b - a) c`. */
  lemma {:induction false} ConstantRectanglesTotal(g: real -> real, c: real, a: real, b: real, h: real, m: nat)
    requires h > 0.0 && m >= 1 && b == Point(a, h, m)
    requires forall y :: g(y) == Area(h, c)
    ensures Total(g, a + h / 2.0, b, h, false) == (b - a) * c
  {
    GridSegments(a, b, h, m);
    TotalConstant(g, Area(h, c), a + h / 2.0, b, h, false);
    PointValue(a, h, m);
    ConstantRectangles(Total(g, a + h / 2.0, b, h, false), m, h, c, b - a);
  }

  /** `m` rectangles of width `h` and constant height `c` cover `w = m h`
      times `c`. */
  lemma {:induction false} ConstantRectangles(t: real, m: nat, h: real, c: real, w: real)
    requires t == m as real * Area(h, c) && w == m as real * h
    ensures t == w * c
  {
    assert Area(h, c) == h * c;
  }

  /** For a constant integrand every trapezium has the same signed area. */
  lemma {:induction false} ConstantTrapezia(f: real -> real, c: real, h: real, g: real -> real, strip: real)
    requires forall t :: f(t) == c
    requires g == TrapeziumIncrements(f, h, UpperMinusLower) && strip == Area(h / 2.0, c + c)
    ensures forall y :: g(y) == strip
  {
    forall y
      ensures g(y) == strip
    {
      assert f(y - h) == c && f(y) == c;
    }
  }

  /** `m` trapezia of width `h` and constant height `c` cover `w = m h`
      times `c`. */
  lemma {:induction false} ConstantStrips(t: real, m: nat, h: real, c: real, w: real)
    requires t == m as real * Area(h / 2.0, c + c) && w == m as real * h
    ensures t == w * c
  {
    assert Area(h / 2.0, c + c) == h * c;
  }

  /** The trapezium rule as written on `f = 1` over `[0, 1]` with `h = 1/2`
      adds only the segment `[0, 1/2]` and returns 1/2, while the rectangle
      rule and the corrected rule return 1. */
  lemma {:induction false} TrapeziumDropsLastSegment()
    ensures var f := (t: real) => 1.0;
      Total(TrapeziumIncrements(f, 0.5, Full), 0.5, 1.0, 0.5, false) == 0.5 &&
      Total(TrapeziumIncrements(f, 0.5, Full), 0.5, 1.0, 0.5, true) == 1.0 &&
      Total(RectangleIncrements(f, 0.5, Full), 0.25, 1.0, 0.5, false) == 1.0
  {
    var f := (t: real) => 1.0;
    assert Point(0.0, 0.5, 2) == 1.0;
    GridSegments(0.0, 1.0, 0.5, 2);
    TotalConstant(TrapeziumIncrements(f, 0.5, Full), 0.5, 0.5, 1.0, 0.5, false);
    TotalConstant(TrapeziumIncrements(f, 0.5, Full), 0.5, 0.5, 1.0, 0.5, true);
    TotalConstant(RectangleIncrements(f, 0.5, Full), 0.5, 0.25, 1.0, 0.5, false);
  }
}
