/** Descriptive statistics of a finite sample: mean, median, mode,
    mathematical expectation under a probability vector, and variance.

    Samples are `seq<real>` in the order the caller enumerates them.  An
    exception the library lets escape (LINQ's "no elements" on an empty
    sample, the `ArgumentException`s of `MathExpectation`) is a `Failure`
    carrying the same text.
 */
module Statistics {
  import opened Results
  import opened Sums

  /** What `Average` and `Max` throw on an empty sequence. */
  const NoElements := "Sequence contains no elements"
  const DimensionError := "items and vectorProbability has different dimension"
  const ProbabilityError := "Sum of elements of vectorProbability should be 1"

  // ---------------------------------------------------------------------
  // Mean

  /** The arithmetic mean; an empty sample has none. */
  function Mean(items: seq<real>): (r: Result<real>)
    ensures r.Failure? <==> |items| == 0
    ensures r.Failure? ==> r.error == NoElements
    ensures r.Success? ==> r.v * |items| as real == Sum(items)
  {
    if |items| == 0 then Failure(NoElements) else Success(Sum(items) / |items| as real)
  }

  /** A sum of `n` terms between `lo` and `hi` lies between `n*lo` and `n*hi`. */
  lemma {:induction false} SumBounds(s: seq<real>, lo: real, hi: real)
    requires forall i :: 0 <= i < |s| ==> lo <= s[i] <= hi
    ensures |s| as real * lo <= Sum(s) <= |s| as real * hi
  {
    if |s| > 0 {
      var n := |s| - 1;
      SumBounds(s[..n], lo, hi);
      assert |s| as real * lo == n as real * lo + lo;
      assert |s| as real * hi == n as real * hi + hi;
    }
  }

  /** The mean lies within any bounds of the sample. */
  lemma {:induction false} MeanBounds(items: seq<real>, lo: real, hi: real)
    requires |items| > 0
    requires forall i :: 0 <= i < |items| ==> lo <= items[i] <= hi
    ensures lo <= Mean(items).v <= hi
  {
    SumBounds(items, lo, hi);
    var n := |items| as real;
    assert Mean(items).v == Sum(items) / n;
  }

  // ---------------------------------------------------------------------
  // Median

  predicate Sorted(s: seq<real>) {
    forall i, j :: 0 <= i < j < |s| ==> s[i] <= s[j]
  }

  /** The middle element of an odd-length list, the average of the two
      middle elements of an even-length one, and 0 for an empty one, taken
      in the order given.  This is what the library's `Median` computes. */
  function MedianAsWritten(list: seq<real>): (r: real)
    ensures |list| == 0 ==> r == 0.0
    ensures |list| % 2 == 1 ==> r in list
    ensures |list| > 0 && |list| % 2 == 0 ==>
              exists i :: 0 <= i < |list| - 1 && r == (list[i] + list[i + 1]) / 2.0
  {
    if |list| == 0 then 0.0
    else if |list| % 2 == 0 then (list[|list| / 2 - 1] + list[|list| / 2]) / 2.0
    else list[|list| / 2]
  }

  /** Places `x` into a sorted list. */
  function Insert(x: real, s: seq<real>): (r: seq<real>)
    requires Sorted(s)
    ensures Sorted(r)
    ensures multiset(r) == multiset(s) + multiset{x}
    decreases |s|
  {
    if |s| == 0 then [x]
    else if x <= s[0] then [x] + s
    else
      var rest := Insert(x, s[1..]);
      HeadBelow(x, s, rest);
      assert s == [s[0]] + s[1..];
      [s[0]] + rest
  }

  /** Everything inserted after the head of a sorted list is at least the
      head. */
  lemma {:induction false} HeadBelow(x: real, s: seq<real>, rest: seq<real>)
    requires Sorted(s) && |s| > 0 && s[0] < x
    requires multiset(rest) == multiset(s[1..]) + multiset{x}
    ensures forall k :: 0 <= k < |rest| ==> s[0] <= rest[k]
  {
    forall k | 0 <= k < |rest|
      ensures s[0] <= rest[k]
    {
      assert rest[k] in multiset(rest);
      if rest[k] != x {
        assert rest[k] in multiset(s[1..]);
        var m :| 0 <= m < |s[1..]| && s[1..][m] == rest[k];
        assert s[m + 1] == rest[k];
      }
    }
  }

  /** A sorted arrangement of the sample. */
  function Sort(s: seq<real>): (r: seq<real>)
    ensures Sorted(r)
    ensures multiset(r) == multiset(s)
  {
    if |s| == 0 then []
    else
      assert s == s[..|s| - 1] + [s[|s| - 1]];
      Insert(s[|s| - 1], Sort(s[..|s| - 1]))
  }

  /** The head of a sorted list is its least element. */
  lemma {:induction false} HeadIsLeast(s: seq<real>, y: real)
    requires Sorted(s) && y in multiset(s)
    ensures s[0] <= y
  {
    var k :| 0 <= k < |s| && s[k] == y;
    if k > 0 {
      assert s[0] <= s[k];
    }
  }

  /** Two sorted lists with the same elements are equal: a sample has
      exactly one sorted arrangement. */
  lemma {:induction false} SortedUnique(a: seq<real>, b: seq<real>)
    requires Sorted(a) && Sorted(b) && multiset(a) == multiset(b)
    ensures a == b
    decreases |a|
  {
    assert |a| == |multiset(a)| == |multiset(b)| == |b|;
    if |a| > 0 {
      HeadIsLeast(b, a[0]);
      HeadIsLeast(a, b[0]);
      assert a[0] == b[0];
      assert a == [a[0]] + a[1..];
      assert b == [b[0]] + b[1..];
      assert multiset(a) == multiset{a[0]} + multiset(a[1..]);
      assert multiset(b) == multiset{a[0]} + multiset(b[1..]);
      assert multiset(a[1..]) == multiset(a) - multiset{a[0]};
      assert multiset(b[1..]) == multiset(b) - multiset{a[0]};
      SortedUnique(a[1..], b[1..]);
    }
  }

  /** The median: the middle of the sample once it is sorted. */
  function Median(items: seq<real>): (r: real)
    ensures |items| == 0 ==> r == 0.0
    ensures |items| % 2 == 1 ==> r in items
  {
    var sorted := Sort(items);
    assert |sorted| == |multiset(items)| == |items|;
    assert |items| % 2 == 1 ==> sorted[|sorted| / 2] in multiset(items);
    MedianAsWritten(sorted)
  }

  /** The median is the middle of every sorted arrangement of the sample. */
  lemma {:induction false} MedianOfSortedArrangement(items: seq<real>, t: seq<real>)
    requires Sorted(t) && multiset(t) == multiset(items)
    ensures Median(items) == MedianAsWritten(t)
  {
    SortedUnique(Sort(items), t);
  }

  /** Reordering the sample does not change its median. */
  lemma {:induction false} MedianPermutationInvariant(a: seq<real>, b: seq<real>)
    requires multiset(a) == multiset(b)
    ensures Median(a) == Median(b)
  {
    MedianOfSortedArrangement(b, Sort(a));
  }

  /** On a sorted sample the library's median is the median. */
  lemma {:induction false} MedianAgreesOnSorted(items: seq<real>)
    requires Sorted(items)
    ensures MedianAsWritten(items) == Median(items)
  {
    MedianOfSortedArrangement(items, items);
  }

  /** On an unsorted sample it is not: the values 1, 2, 3 listed with 1 in
      the middle, as in 3, 1, 2, have median 2, but the library's reading
      gives 1. */
  lemma MedianAsWrittenDependsOnOrder(s: seq<real>)
    requires multiset(s) == multiset{1.0, 2.0, 3.0}
    requires |s| == 3 && s[1] == 1.0
    ensures MedianAsWritten(s) == 1.0
    ensures Median(s) == 2.0
  {
    var t := [1.0, 2.0, 3.0];
    assert Sorted(t);
    assert multiset(t) == multiset{1.0, 2.0, 3.0};
    MedianOfSortedArrangement(s, t);
  }

  // ---------------------------------------------------------------------
  // Mode

  /** `x` occurs in the sample and no value occurs more often. */
  predicate MostFrequent(items: seq<real>, x: real) {
    x in items && forall y :: y in items ==> multiset(items)[y] <= multiset(items)[x]
  }

  /** The frequency dictionary: each distinct value once, in order of
      first occurrence, with the number of times it occurs. */
  method CountFrequencies(items: seq<real>) returns (keys: seq<real>, frequencies: map<real, nat>)
    ensures Distinct(keys)
    ensures forall x :: x in keys <==> x in items
    ensures forall x :: x in keys <==> x in frequencies
    ensures forall x :: x in frequencies ==> frequencies[x] == multiset(items)[x]
  {
    keys := [];
    frequencies := map[];
    var i := 0;
    while i < |items|
      invariant 0 <= i <= |items|
      invariant Distinct(keys)
      invariant forall x :: x in keys <==> x in frequencies
      invariant forall x :: x in frequencies <==> x in items[..i]
      invariant forall x :: x in frequencies ==> frequencies[x] == multiset(items[..i])[x]
    {
      var item := items[i];
      if item !in frequencies {
        frequencies := frequencies[item := 1];
        keys := keys + [item];
      } else {
        frequencies := frequencies[item := frequencies[item] + 1];
      }
      assert items[..i + 1] == items[..i] + [item];
      i := i + 1;
    }
    assert items[..i] == items;
  }

  /** The largest frequency in a non-empty dictionary. */
  method MaxFrequency(keys: seq<real>, frequencies: map<real, nat>) returns (m: nat)
    requires |keys| > 0
    requires forall k :: 0 <= k < |keys| ==> keys[k] in frequencies
    ensures forall k :: 0 <= k < |keys| ==> frequencies[keys[k]] <= m
    ensures exists k :: 0 <= k < |keys| && frequencies[keys[k]] == m
  {
    assert keys[0] in keys;
    m := frequencies[keys[0]];
    var j := 1;
    while j < |keys|
      invariant 1 <= j <= |keys|
      invariant forall k :: 0 <= k < j ==> frequencies[keys[k]] <= m
      invariant exists k :: 0 <= k < j && frequencies[keys[k]] == m
    {
      assert keys[j] in keys;
      if frequencies[keys[j]] > m {
        m := frequencies[keys[j]];
      }
      j := j + 1;
    }
  }

  /** The keys whose frequency is `m`, in dictionary order. */
  method KeysWithFrequency(keys: seq<real>, frequencies: map<real, nat>, m: nat) returns (modes: seq<real>)
    requires Distinct(keys)
    requires forall k :: 0 <= k < |keys| ==> keys[k] in frequencies
    ensures Distinct(modes)
    ensures forall x :: x in modes <==> x in keys && frequencies[x] == m
  {
    modes := [];
    var j := 0;
    while j < |keys|
      invariant 0 <= j <= |keys|
      invariant Distinct(modes)
      invariant forall x :: x in modes <==> x in keys[..j] && frequencies[x] == m
    {
      assert keys[j] in keys;
      if frequencies[keys[j]] == m {
        assert keys[j] !in keys[..j];
        modes := modes + [keys[j]];
      }
      assert keys[..j + 1] == keys[..j] + [keys[j]];
      j := j + 1;
    }
    assert keys[..j] == keys;
  }

  /** The values of highest frequency, each once.  The maximum of an empty
      dictionary does not exist. */
  method Mode(items: seq<real>) returns (r: Result<seq<real>>)
    ensures |items| == 0 ==> r == Failure(NoElements)
    ensures |items| > 0 ==> r.Success?
    ensures r.Success? ==> Distinct(r.v)
    ensures r.Success? ==> forall x :: x in r.v <==> MostFrequent(items, x)
  {
    var keys, frequencies := CountFrequencies(items);
    if |items| > 0 {
      var first := items[0];
      assert first in items;
      assert first in keys;
    }
    if |keys| == 0 {
      return Failure(NoElements);
    }
    var someKey := keys[0];
    assert someKey in keys;
    assert someKey in items;
    forall k | 0 <= k < |keys|
      ensures keys[k] in frequencies
    {
      var key := keys[k];
      assert key in keys;
    }
    var maxFrequency := MaxFrequency(keys, frequencies);
    var modes := KeysWithFrequency(keys, frequencies, maxFrequency);
    forall x
      ensures x in modes <==> MostFrequent(items, x)
    {
      if x in modes {
        forall y | y in items
          ensures multiset(items)[y] <= multiset(items)[x]
        {
          assert y in keys;
          var k :| 0 <= k < |keys| && keys[k] == y;
          assert frequencies[y] <= maxFrequency;
        }
      }
      if MostFrequent(items, x) {
        var k :| 0 <= k < |keys| && frequencies[keys[k]] == maxFrequency;
        var key := keys[k];
        assert key in keys;
        assert key in items;
        assert multiset(items)[key] <= multiset(items)[x];
        assert x in keys;
        var m :| 0 <= m < |keys| && keys[m] == x;
        assert frequencies[x] <= maxFrequency;
      }
    }
    return Success(modes);
  }

  // ---------------------------------------------------------------------
  // Mathematical expectation

  /** `Math.Round(x, 3)` in exact arithmetic: the nearest multiple of
      0.001, a tie going to the even multiple (the default midpoint rule). */
  function RoundThousandths(x: real): (r: real)
    ensures -0.0005 <= r - x <= 0.0005
  {
    var y := x * 1000.0;
    var n := y.Floor;
    var fraction := y - n as real;
    var k := if fraction < 0.5 then n
             else if fraction > 0.5 then n + 1
             else if n % 2 == 0 then n
             else n + 1;
    k as real / 1000.0
  }

  /** The probability check accepts exactly the sums within half a
      thousandth of 1, both ends included (both ends are ties that round
      to the even 1.000). */
  lemma {:induction false} RoundsToOne(x: real)
    ensures RoundThousandths(x) == 1.0 <==> 0.9995 <= x <= 1.0005
  {
    var y := x * 1000.0;
    var n := y.Floor;
    if x < 0.9995 {
      assert n <= 999;
      if n == 999 {
        assert y - n as real < 0.5;
      }
    } else if x > 1.0005 {
      assert n >= 1000;
      if n == 1000 {
        assert y - n as real > 0.5;
      }
    } else {
      assert 999 <= n <= 1000;
      if n == 999 {
        assert y - n as real >= 0.5;
      } else {
        assert y - n as real <= 0.5;
      }
    }
  }

  /** `Σ items[i]·p[i]`, once the lengths agree and the probabilities sum
      to 1 up to the rounding check. */
  function MathExpectation(items: seq<real>, p: seq<real>): (r: Result<real>)
    ensures |items| != |p| ==> r == Failure(DimensionError)
    ensures |items| == |p| && !(0.9995 <= Sum(p) <= 1.0005) ==> r == Failure(ProbabilityError)
    ensures |items| == |p| && 0.9995 <= Sum(p) <= 1.0005 ==> r == Success(Dot(items, p))
  {
    RoundsToOne(Sum(p));
    if |items| != |p| then Failure(DimensionError)
    else if RoundThousandths(Sum(p)) != 1.0 then Failure(ProbabilityError)
    else Success(Dot(items, p))
  }

  /** A sum of equal terms. */
  lemma {:induction false} SumConstant(s: seq<real>, c: real)
    requires forall i :: 0 <= i < |s| ==> s[i] == c
    ensures Sum(s) == |s| as real * c
  {
    if |s| > 0 {
      SumConstant(s[..|s| - 1], c);
    }
  }

  /** An inner product with equal weights scales the plain sum. */
  lemma {:induction false} DotConstantRight(u: seq<real>, v: seq<real>, c: real)
    requires |u| == |v|
    requires forall i :: 0 <= i < |v| ==> v[i] == c
    ensures Dot(u, v) == Sum(u) * c
  {
    if |u| > 0 {
      var n := |u| - 1;
      DotConstantRight(u[..n], v[..n], c);
    }
  }

  /** A weighted sum of values of at least `lo` under non-negative weights
      is at least `lo` times the total weight. */
  lemma {:induction false} DotAtLeast(u: seq<real>, p: seq<real>, lo: real)
    requires |u| == |p|
    requires forall i :: 0 <= i < |u| ==> lo <= u[i] && p[i] >= 0.0
    ensures lo * Sum(p) <= Dot(u, p)
  {
    if |u| > 0 {
      var n := |u| - 1;
      DotAtLeast(u[..n], p[..n], lo);
      WeightedStep(lo, Sum(p[..n]), p[n], Dot(u[..n], p[..n]), u[n]);
    }
  }

  /** One more term of a weighted lower bound. */
  lemma WeightedStep(lo: real, s: real, w: real, d: real, x: real)
    requires lo * s <= d && lo <= x && w >= 0.0
    ensures lo * (s + w) <= d + x * w
  {
    assert lo * w <= x * w;
  }

  /** The same weighted sum with every value negated. */
  lemma {:induction false} DotNegate(u: seq<real>, p: seq<real>, v: seq<real>)
    requires |u| == |p| == |v|
    requires forall i :: 0 <= i < |u| ==> v[i] == -u[i]
    ensures Dot(v, p) == -Dot(u, p)
  {
    if |u| > 0 {
      var n := |u| - 1;
      DotNegate(u[..n], p[..n], v[..n]);
    }
  }

  /** With non-negative probabilities the expectation lies between the
      extreme values, scaled by the (nearly 1) total probability. */
  lemma {:induction false} ExpectationBounds(items: seq<real>, p: seq<real>, lo: real, hi: real)
    requires MathExpectation(items, p).Success?
    requires forall i :: 0 <= i < |items| ==> lo <= items[i] <= hi && p[i] >= 0.0
    ensures lo * Sum(p) <= MathExpectation(items, p).v <= hi * Sum(p)
  {
    DotAtLeast(items, p, lo);
    var negated := seq(|items|, i requires 0 <= i < |items| => -items[i]);
    DotAtLeast(negated, p, -hi);
    DotNegate(items, p, negated);
  }

  /** `n` equal probabilities `1/n`. */
  function Uniform(n: nat): (p: seq<real>)
    ensures |p| == n
    ensures forall i :: 0 <= i < n ==> p[i] == 1.0 / n as real
    ensures n > 0 ==> Sum(p) == 1.0
  {
    if n == 0 then []
    else
      var p := seq(n, _ => 1.0 / n as real);
      SumConstant(p, 1.0 / n as real);
      p
  }

  /** Under equal probabilities the expectation is the mean. */
  lemma {:induction false} ExpectationUniform(items: seq<real>)
    requires |items| > 0
    ensures MathExpectation(items, Uniform(|items|)) == Mean(items)
  {
    var n := |items| as real;
    var p := Uniform(|items|);
    DotConstantRight(items, p, 1.0 / n);
    assert Sum(items) * (1.0 / n) == Sum(items) / n;
    assert Sum(p) == 1.0;
    assert MathExpectation(items, p) == Success(Dot(items, p));
    assert Mean(items) == Success(Sum(items) / n);
    assert Dot(items, p) == Sum(items) / n;
    assert MathExpectation(items, p) == Mean(items);
  }

  // ---------------------------------------------------------------------
  // Variance

  /** `(x - m)²` for each sample value `x`. */
  function SquaredDeviations(items: seq<real>, m: real): (r: seq<real>)
    ensures |r| == |items|
    ensures forall i :: 0 <= i < |r| ==> r[i] >= 0.0
  {
    var r := seq(|items|, i requires 0 <= i < |items| => (items[i] - m) * (items[i] - m));
    assert forall i :: 0 <= i < |r| ==> r[i] >= 0.0 by {
      forall i | 0 <= i < |r|
        ensures r[i] >= 0.0
      {
        SquareNonNegative(items[i] - m);
      }
    }
    r
  }

  lemma SquareNonNegative(d: real)
    ensures d * d >= 0.0
  {
    if d < 0.0 {
      assert d * d == (-d) * (-d);
    }
  }

  /** An inner product of non-negative sequences is non-negative. */
  lemma {:induction false} DotNonNegative(u: seq<real>, v: seq<real>)
    requires |u| == |v|
    requires forall i :: 0 <= i < |u| ==> u[i] >= 0.0 && v[i] >= 0.0
    ensures Dot(u, v) >= 0.0
  {
    if |u| > 0 {
      var n := |u| - 1;
      DotNonNegative(u[..n], v[..n]);
      assert u[n] * v[n] >= 0.0;
    }
  }

  /** The population variance: each squared deviation from the mean
      weighted by `1/count`.  An empty sample has no mean. */
  function Var(items: seq<real>): (r: Result<real>)
    ensures r.Failure? <==> |items| == 0
    ensures r.Failure? ==> r.error == NoElements
    ensures r.Success? ==> r.v >= 0.0
    ensures r.Success? ==> r.v * |items| as real == Sum(SquaredDeviations(items, Mean(items).v))
  {
    var mean :- Mean(items);
    var terms := SquaredDeviations(items, mean);
    UniformWeights(terms);
    Success(Dot(terms, Uniform(|items|)))
  }

  /** Weighting non-negative terms by `1/count` gives a non-negative total
      that is the plain sum divided by the count. */
  lemma {:induction false} UniformWeights(terms: seq<real>)
    requires |terms| > 0
    requires forall i :: 0 <= i < |terms| ==> terms[i] >= 0.0
    ensures Dot(terms, Uniform(|terms|)) >= 0.0
    ensures Dot(terms, Uniform(|terms|)) * |terms| as real == Sum(terms)
  {
    var n := |terms| as real;
    var weights := Uniform(|terms|);
    DotConstantRight(terms, weights, 1.0 / n);
    DotNonNegative(terms, weights);
    assert Sum(terms) * (1.0 / n) * n == Sum(terms);
  }

  /** The variance under a probability vector: squared deviations from
      the expectation, weighted by the probabilities.  Every failure of
      the expectation is passed on unchanged. */
  function VarWithProbabilities(items: seq<real>, p: seq<real>): (r: Result<real>)
    ensures |items| != |p| ==> r == Failure(DimensionError)
    ensures |items| == |p| && !(0.9995 <= Sum(p) <= 1.0005) ==> r == Failure(ProbabilityError)
    ensures r.Success? <==> MathExpectation(items, p).Success?
    ensures r.Success? && (forall i :: 0 <= i < |p| ==> p[i] >= 0.0) ==> r.v >= 0.0
    ensures r.Success? ==> r.v == Dot(SquaredDeviations(items, MathExpectation(items, p).v), p)
  {
    var mean :- MathExpectation(items, p);
    var terms := SquaredDeviations(items, mean);
    if forall i :: 0 <= i < |p| ==> p[i] >= 0.0 then
      DotNonNegative(terms, p);
      Success(Dot(terms, p))
    else
      Success(Dot(terms, p))
  }

  /** `x²` for each sample value `x`. */
  function Squares(items: seq<real>): (r: seq<real>)
    ensures |r| == |items|
    ensures forall i :: 0 <= i < |r| ==> r[i] == items[i] * items[i]
  {
    seq(|items|, i requires 0 <= i < |items| => items[i] * items[i])
  }

  /** Expanding the square inside a weighted sum of squared deviations
      from any centre `m`, for any weights: the coefficients `a = -2m` and
      `b = m²` of the linear and constant parts. */
  lemma {:induction false} DeviationsExpand(items: seq<real>, p: seq<real>, m: real, a: real, b: real)
    requires |items| == |p| && a == -2.0 * m && b == m * m
    ensures Dot(SquaredDeviations(items, m), p) == Dot(Squares(items), p) + a * Dot(items, p) + b * Sum(p)
  {
    var ones := seq(|items|, _ => 1.0);
    DeviationsCombine(items, m, a, b, ones, p);
    CombinationDot(Squares(items), items, ones, p, a, b);
  }

  /** `(x - m)² = x² - 2m·x + m²·1` element by element, so the weighted
      sums agree. */
  lemma {:induction false} DeviationsCombine(items: seq<real>, m: real, a: real, b: real, ones: seq<real>, p: seq<real>)
    requires a == -2.0 * m && b == m * m
    requires |ones| == |items| == |p| && forall i :: 0 <= i < |ones| ==> ones[i] == 1.0
    ensures Dot(SquaredDeviations(items, m), p) == Dot(AddScaled(AddScaled(Squares(items), a, items), b, ones), p)
  {
    var dev, whole := SquaredDeviations(items, m), AddScaled(AddScaled(Squares(items), a, items), b, ones);
    forall i | 0 <= i < |items|
      ensures dev[i] == whole[i]
    {
      SquareExpand(items[i], m);
    }
    assert dev == whole;
  }

  lemma SquareExpand(x: real, m: real)
    ensures (x - m) * (x - m) == x * x + (-2.0 * m) * x + (m * m) * 1.0
  {
  }

  /** The weighted sum of `q + a·x + b·1`, term by term. */
  lemma {:induction false} CombinationDot(q: seq<real>, x: seq<real>, ones: seq<real>, p: seq<real>, a: real, b: real)
    requires |q| == |x| == |ones| == |p|
    requires forall i :: 0 <= i < |ones| ==> ones[i] == 1.0
    ensures Dot(AddScaled(AddScaled(q, a, x), b, ones), p) == Dot(q, p) + a * Dot(x, p) + b * Sum(p)
  {
    var linear := AddScaled(q, a, x);
    Sums.DotAddScaled(linear, b, ones, p);
    Sums.DotAddScaled(q, a, x, p);
    DotConstantLeft(ones, p, 1.0);
  }

  /** The variance under a probability vector that sums to exactly 1 is
      the expectation of the square less the square of the expectation. */
  lemma {:induction false} VarianceShortcut(items: seq<real>, p: seq<real>, m: real)
    requires Sum(p) == 1.0 && MathExpectation(items, p) == Success(m)
    ensures VarWithProbabilities(items, p) == Success(Dot(Squares(items), p) - m * m)
  {
    DeviationsAboutExpectation(items, p, m);
  }

  /** Squared deviations from the weighted mean itself. */
  lemma {:induction false} DeviationsAboutExpectation(items: seq<real>, p: seq<real>, m: real)
    requires |items| == |p| && Sum(p) == 1.0 && m == Dot(items, p)
    ensures Dot(SquaredDeviations(items, m), p) == Dot(Squares(items), p) - m * m
  {
    var ones := seq(|items|, _ => 1.0);
    DeviationsCombine(items, m, -2.0 * m, m * m, ones, p);
    CenteredCombination(Squares(items), items, ones, p, m);
  }

  /** Centred at the weighted mean of `x` under weights summing to 1, the
      linear and constant parts of `q - 2m·x + m²·1` reduce to `-m²`. */
  lemma {:induction false} CenteredCombination(q: seq<real>, x: seq<real>, ones: seq<real>, p: seq<real>, m: real)
    requires |q| == |x| == |ones| == |p|
    requires forall i :: 0 <= i < |ones| ==> ones[i] == 1.0
    requires Sum(p) == 1.0 && m == Dot(x, p)
    ensures Dot(AddScaled(AddScaled(q, -2.0 * m, x), m * m, ones), p) == Dot(q, p) - m * m
  {
    CombinationDot(q, x, ones, p, -2.0 * m, m * m);
  }

  /** A repeated value has no spread under any probability vector that
      sums to exactly 1, however uneven. */
  lemma {:induction false} VarianceOfConstantWeighted(items: seq<real>, p: seq<real>, c: real)
    requires |items| == |p| && Sum(p) == 1.0
    requires forall i :: 0 <= i < |items| ==> items[i] == c
    ensures VarWithProbabilities(items, p) == Success(0.0)
  {
    DotConstantLeft(items, p, c);
    var dev := SquaredDeviations(items, c);
    assert forall i :: 0 <= i < |dev| ==> dev[i] == 0.0;
    Sums.DotZero(dev, p);
  }

  /** An inner product with equal values scales the total weight. */
  lemma {:induction false} DotConstantLeft(u: seq<real>, v: seq<real>, c: real)
    requires |u| == |v|
    requires forall i :: 0 <= i < |u| ==> u[i] == c
    ensures Dot(u, v) == c * Sum(v)
  {
    if |u| > 0 {
      var n := |u| - 1;
      DotConstantLeft(u[..n], v[..n], c);
    }
  }

  /** Under equal probabilities the two variances agree. */
  lemma {:induction false} VarianceUniform(items: seq<real>)
    requires |items| > 0
    ensures VarWithProbabilities(items, Uniform(|items|)) == Var(items)
  {
    ExpectationUniform(items);
    var n := |items|;
    assert Uniform(n) == seq(n, _ => 1.0 / n as real);
  }

  /** A sample of one repeated value has no spread. */
  lemma {:induction false} VarianceOfConstant(items: seq<real>, c: real)
    requires |items| > 0
    requires forall i :: 0 <= i < |items| ==> items[i] == c
    ensures Var(items) == Success(0.0)
  {
    SumConstant(items, c);
    var n := |items| as real;
    assert Mean(items).v * n == n * c;
    assert Mean(items).v == c;
    var terms := SquaredDeviations(items, c);
    assert forall i :: 0 <= i < |terms| ==> terms[i] == 0.0;
    SumConstant(terms, 0.0);
  }

  /** The means of the library's tests. */
  lemma MeanExamples()
    ensures Mean([1.0, 2.0, 6.0]) == Success(3.0)
    ensures Mean([-5.0, -1.0, -3.0, 6.0]) == Success(-0.75)
  {
    var a := [1.0, 2.0, 6.0];
    SumStep(a, 0);
    SumStep(a, 1);
    SumStep(a, 2);
    assert a[..3] == a;
    var b := [-5.0, -1.0, -3.0, 6.0];
    SumStep(b, 0);
    SumStep(b, 1);
    SumStep(b, 2);
    SumStep(b, 3);
    assert b[..4] == b;
  }

  /** The medians of the library's tests, all of sorted samples. */
  lemma MedianExamples()
    ensures Median([]) == 0.0
    ensures Median([2.0]) == 2.0
    ensures Median([2.0, 4.0]) == 3.0
  {
    MedianAgreesOnSorted([2.0]);
    MedianAgreesOnSorted([2.0, 4.0]);
  }

  /** The longer samples of the library's tests: each is sorted, so the
      library's reading is also the median there. */
  lemma MedianExamplesSorted()
    ensures Sorted([2.0, 3.0, 5.0]) && MedianAsWritten([2.0, 3.0, 5.0]) == 3.0
    ensures Sorted([2.0, 3.0, 5.0, 6.0]) && MedianAsWritten([2.0, 3.0, 5.0, 6.0]) == 4.0
    ensures Sorted([2.0, 3.0, 5.0, 6.0, 8.0]) && MedianAsWritten([2.0, 3.0, 5.0, 6.0, 8.0]) == 5.0
  {
  }

  /** The documented expectation example pairs seven values with six
      probabilities, so the call it describes is rejected. */
  lemma ExpectationDocumentedExample()
    ensures MathExpectation([1.0, 1.0, 2.0, 5.0, 6.0, 6.0, 9.0], Uniform(6)) == Failure(DimensionError)
  {
  }
}
