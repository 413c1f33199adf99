/** Pareto and Slater dominance between vectors, and the selection of the
    vectors no other vector dominates.

    `u` is better than `w` by Pareto when no coordinate of `u` is smaller
    and some coordinate is larger; by Slater when every coordinate is
    larger.  Both comparisons reject vectors of different dimensions.  The
    selection repeatedly removes, from a working copy of the list, every
    vector that another vector still in the list beats, until a whole pass
    removes nothing.
 */
module Dominance {
  import opened Results
  import opened Vectors

  /** Which dominance relation a comparison or a selection uses. */
  datatype Principle = Pareto | Slater

  const DimensionError := "Vectors with different dimension cannot be compared"

  // ---------------------------------------------------------------------
  // The relations

  /** No coordinate of `u` is strictly smaller than the same coordinate of `w`. */
  predicate NoneSmaller(u: seq<real>, w: seq<real>)
    requires |u| == |w|
  {
    forall i :: 0 <= i < |u| ==> u[i] >= w[i]
  }

  /** Pareto dominance: at least as large everywhere, larger somewhere. */
  predicate ParetoBetter(u: seq<real>, w: seq<real>) {
    |u| == |w| && SomeGreater(u, w) && NoneSmaller(u, w)
  }

  /** Slater dominance: strictly larger in every coordinate of a non-empty
      vector. */
  predicate SlaterBetter(u: seq<real>, w: seq<real>) {
    |u| == |w| && |u| >= 1 && forall i :: 0 <= i < |u| ==> u[i] > w[i]
  }

  predicate Better(p: Principle, u: seq<real>, w: seq<real>) {
    match p
    case Pareto => ParetoBetter(u, w)
    case Slater => SlaterBetter(u, w)
  }

  /** `BetterByParetoThan`: rejects a dimension mismatch, then records
      whether either side has a larger coordinate. */
  method BetterByPareto(u: Vec, w: Vec) returns (r: Result<bool>)
    ensures |u| != |w| ==> r == Failure(DimensionError)
    ensures |u| == |w| ==> r == Success(ParetoBetter(u, w))
  {
    if |u| != |w| {
      return Failure(DimensionError);
    }
    var firstBigger, secondBigger := false, false;
    var i := 0;
    while i < |u|
      invariant 0 <= i <= |u|
      invariant firstBigger <==> exists k :: 0 <= k < i && u[k] > w[k]
      invariant secondBigger <==> exists k :: 0 <= k < i && u[k] < w[k]
    {
      if u[i] > w[i] {
        firstBigger := true;
      } else if u[i] < w[i] {
        secondBigger := true;
      }
      i := i + 1;
    }
    return Success(firstBigger && !secondBigger);
  }

  /** `BetterBySlaterThan`: rejects a dimension mismatch, then answers false
      at the first coordinate of `u` that is not larger. */
  method BetterBySlater(u: Vec, w: Vec) returns (r: Result<bool>)
    ensures |u| != |w| ==> r == Failure(DimensionError)
    ensures |u| == |w| ==> r == Success(SlaterBetter(u, w))
  {
    if |u| != |w| {
      return Failure(DimensionError);
    }
    var hasBigger := false;
    var i := 0;
    while i < |u|
      invariant 0 <= i <= |u|
      invariant hasBigger <==> i > 0
      invariant forall k :: 0 <= k < i ==> u[k] > w[k]
    {
      if u[i] > w[i] {
        hasBigger := true;
      } else {
        return Success(false);
      }
      i := i + 1;
    }
    return Success(hasBigger);
  }

  /** `CompareByPareto` / `CompareBySlater`. */
  method Compare(p: Principle, u: Vec, w: Vec) returns (r: Result<bool>)
    ensures |u| != |w| ==> r == Failure(DimensionError)
    ensures |u| == |w| ==> r == Success(Better(p, u, w))
  {
    match p
    case Pareto => r := BetterByPareto(u, w);
    case Slater => r := BetterBySlater(u, w);
  }

  /** No vector beats itself, and of two vectors at most one beats the
      other. */
  lemma {:induction false} Asymmetric(p: Principle, u: seq<real>, w: seq<real>)
    ensures !Better(p, u, u)
    ensures Better(p, u, w) ==> !Better(p, w, u)
  {
    if Better(p, u, w) {
      if p == Pareto {
        var i :| 0 <= i < |u| && u[i] > w[i];
        assert w[i] < u[i];
      } else {
        assert w[0] < u[0];
      }
    }
  }

  /** Beating is transitive under both principles. */
  lemma {:induction false} Transitive(p: Principle, u: seq<real>, w: seq<real>, z: seq<real>)
    requires Better(p, u, w) && Better(p, w, z)
    ensures Better(p, u, z)
  {
    if p == Pareto {
      var i :| 0 <= i < |u| && u[i] > w[i];
      assert w[i] >= z[i];
    }
  }

  /** Slater dominance is the stronger relation: it implies Pareto
      dominance. */
  lemma {:induction false} SlaterImpliesPareto(u: seq<real>, w: seq<real>)
    requires SlaterBetter(u, w)
    ensures ParetoBetter(u, w)
  {
    assert u[0] > w[0];
  }

  // ---------------------------------------------------------------------
  // Sub-lists

  /** `s` is `t` with some elements deleted, the rest kept in order. */
  predicate SubList(s: seq<Vec>, t: seq<Vec>)
    decreases |t|
  {
    if |s| == 0 then true
    else if |t| == 0 then false
    else if s[0] == t[0] then SubList(s[1..], t[1..])
    else SubList(s, t[1..])
  }

  /** `List.RemoveAt(j)`. */
  function RemoveAt(s: seq<Vec>, j: nat): (r: seq<Vec>)
    requires j < |s|
    ensures |r| == |s| - 1
    ensures forall k :: 0 <= k < j ==> r[k] == s[k]
    ensures forall k :: j <= k < |r| ==> r[k] == s[k + 1]
  {
    s[..j] + s[j + 1..]
  }

  lemma {:induction false} SubListReflexive(s: seq<Vec>)
    ensures SubList(s, s)
    decreases |s|
  {
    if |s| > 0 {
      SubListReflexive(s[1..]);
    }
  }

  /** Dropping the first element of a sub-list keeps it a sub-list. */
  lemma {:induction false} SubListDropFirst(s: seq<Vec>, t: seq<Vec>)
    requires |s| > 0 && SubList(s, t)
    ensures SubList(s[1..], t)
    decreases |t|, 1
  {
    if s[0] != t[0] {
      SubListDropFirst(s, t[1..]);
    }
    SubListSkip(s[1..], t);
  }

  /** A sub-list of the tail is a sub-list of the whole list. */
  lemma {:induction false} SubListSkip(s: seq<Vec>, t: seq<Vec>)
    requires |t| > 0 && SubList(s, t[1..])
    ensures SubList(s, t)
    decreases |t|, 0
  {
    if |s| > 0 && s[0] == t[0] {
      SubListDropFirst(s, t[1..]);
    }
  }

  /** Deleting one element of a sub-list leaves a sub-list. */
  lemma {:induction false} RemoveAtSubList(s: seq<Vec>, t: seq<Vec>, j: nat)
    requires j < |s| && SubList(s, t)
    ensures SubList(RemoveAt(s, j), t)
    decreases |t|
  {
    if s[0] == t[0] {
      if j == 0 {
        assert RemoveAt(s, j) == s[1..];
        SubListSkip(s[1..], t);
      } else {
        RemoveAtSubList(s[1..], t[1..], j - 1);
        assert RemoveAt(s, j)[0] == t[0];
        assert RemoveAt(s, j)[1..] == RemoveAt(s[1..], j - 1);
      }
    } else {
      RemoveAtSubList(s, t[1..], j);
      SubListSkip(RemoveAt(s, j), t);
    }
  }

  /** Deleting one element removes exactly one copy of it. */
  lemma {:induction false} RemoveAtMultiset(s: seq<Vec>, j: nat)
    requires j < |s|
    ensures multiset(RemoveAt(s, j)) == multiset(s) - multiset{s[j]}
  {
    assert s == s[..j] + [s[j]] + s[j + 1..];
  }

  // ---------------------------------------------------------------------
  // Selecting the undominated vectors

  /** The relation of `p` as a function value. */
  function Beats(p: Principle): (Vec, Vec) -> bool
  {
    (u: Vec, w: Vec) => Better(p, u, w)
  }

  /** Every vector has the dimension of every other. */
  predicate SameDimension(s: seq<Vec>) {
    forall a, b :: 0 <= a < |s| && 0 <= b < |s| ==> |s[a]| == |s[b]|
  }

  /** No vector of `s` beats `v`. */
  predicate Undominated(beats: (Vec, Vec) -> bool, v: Vec, s: seq<Vec>) {
    forall w :: w in s ==> !beats(w, v)
  }

  /** The dimensions of the vectors of `s`. */
  function Dimensions(s: seq<Vec>): set<int> {
    set w | w in s :: |w|
  }

  /** What the selection keeps while it works on `cur`, a copy of `input`
      from which only vectors beaten by another vector were removed: `cur`
      is a sub-list of the input, every undominated input vector keeps all
      its copies, and every dimension present in the input is still
      present. */
  predicate Kept(beats: (Vec, Vec) -> bool, input: seq<Vec>, cur: seq<Vec>) {
    && SubList(cur, input)
    && (forall x :: x in cur ==> x in input)
    && (forall v :: v in input && Undominated(beats, v, input) ==> multiset(cur)[v] == multiset(input)[v])
    && Dimensions(input) <= Dimensions(cur)
  }

  /** Every ordered pair of distinct positions of `s` has equal dimensions
      and is not a domination. */
  predicate Settled(beats: (Vec, Vec) -> bool, s: seq<Vec>) {
    forall a, b :: 0 <= a < |s| && 0 <= b < |s| && a != b ==> |s[a]| == |s[b]| && !beats(s[a], s[b])
  }

  lemma {:induction false} KeptInitially(beats: (Vec, Vec) -> bool, input: seq<Vec>)
    ensures Kept(beats, input, input)
  {
    SubListReflexive(input);
  }

  /** Every element of `RemoveAt(s, j)` is an element of `s`. */
  lemma {:induction false} RemoveAtMembers(s: seq<Vec>, j: nat)
    requires j < |s|
    ensures forall x :: x in RemoveAt(s, j) ==> x in s
  {
    forall x | x in RemoveAt(s, j)
      ensures x in s
    {
      var k :| 0 <= k < |RemoveAt(s, j)| && RemoveAt(s, j)[k] == x;
      if k >= j {
        assert s[k + 1] == x;
      }
    }
  }

  /** Removing a vector whose dimension another vector of the list shares
      loses no dimension. */
  lemma {:induction false} RemoveAtDimensions(s: seq<Vec>, i: nat, j: nat)
    requires i < |s| && j < |s| && i != j && |s[i]| == |s[j]|
    ensures Dimensions(s) <= Dimensions(RemoveAt(s, j))
  {
    var next := RemoveAt(s, j);
    var survivor := if i < j then i else i - 1;
    assert next[survivor] == s[i];
    forall d | d in Dimensions(s)
      ensures d in Dimensions(next)
    {
      var w :| w in s && |w| == d;
      var k :| 0 <= k < |s| && s[k] == w;
      if k == j {
        assert next[survivor] in next;
      } else if k < j {
        assert next[k] == w;
      } else {
        assert next[k - 1] == w;
      }
    }
  }

  /** Removing a vector that another vector of the list beats keeps `Kept`. */
  lemma {:induction false} KeptAfterRemoval(beats: (Vec, Vec) -> bool, input: seq<Vec>, cur: seq<Vec>, i: nat, j: nat)
    requires Kept(beats, input, cur)
    requires i < |cur| && j < |cur| && i != j && beats(cur[i], cur[j]) && |cur[i]| == |cur[j]|
    ensures Kept(beats, input, RemoveAt(cur, j))
  {
    RemoveAtSubList(cur, input, j);
    RemoveAtMultiset(cur, j);
    RemoveAtMembers(cur, j);
    RemoveAtDimensions(cur, i, j);
    assert cur[i] in input;
    assert !Undominated(beats, cur[j], input);
  }

  /** A settled list in which every dimension of the input occurs shows
      that all inputs share one dimension, and is non-empty when the input
      is. */
  lemma {:induction false} SettledSameDimension(beats: (Vec, Vec) -> bool, input: seq<Vec>, cur: seq<Vec>)
    requires Dimensions(input) <= Dimensions(cur) && Settled(beats, cur)
    ensures SameDimension(input)
    ensures |input| >= 1 ==> |cur| >= 1
  {
    forall a, b | 0 <= a < |input| && 0 <= b < |input|
      ensures |input[a]| == |input[b]|
    {
      var ka := DimensionIndex(input, cur, a);
      var kb := DimensionIndex(input, cur, b);
    }
    if |input| >= 1 {
      var k := DimensionIndex(input, cur, 0);
    }
  }

  /** A position of `cur` holding a vector of the dimension of `input[a]`. */
  lemma {:induction false} DimensionIndex(input: seq<Vec>, cur: seq<Vec>, a: nat) returns (k: nat)
    requires Dimensions(input) <= Dimensions(cur) && a < |input|
    ensures k < |cur| && |cur[k]| == |input[a]|
  {
    assert input[a] in input;
    assert |input[a]| in Dimensions(cur);
    var w :| w in cur && |w| == |input[a]|;
    k :| 0 <= k < |cur| && cur[k] == w;
  }

  /** One pass of the do-while loop of `BestByPareto` / `BestBySlater`:
      for every `i` (re-checked against the current length) it runs `Row`.
      A pass that removes nothing has compared every ordered pair of
      distinct positions. */
  method Sweep(p: Principle, ghost input: seq<Vec>, best: seq<Vec>) returns (r: Result<seq<Vec>>)
    requires Kept(Beats(p), input, best)
    ensures r.Failure? ==> r == Failure(DimensionError) && !SameDimension(input)
    ensures r.Success? ==> Kept(Beats(p), input, r.v) && |r.v| <= |best|
    ensures r.Success? && |r.v| == |best| ==> r.v == best && Settled(Beats(p), best)
  {
    var cur := best;
    var i := 0;
    while i < |cur|
      invariant Kept(Beats(p), input, cur)
      invariant |cur| <= |best| && i <= |best|
      invariant |cur| == |best| ==> cur == best && i <= |cur|
      invariant |cur| == |best| ==> forall a, b :: 0 <= a < i && 0 <= b < |cur| && a != b ==> |cur[a]| == |cur[b]| && !Beats(p)(cur[a], cur[b])
      decreases |cur| + |best| - i
    {
      var next := Row(p, input, cur, i);
      if next.Failure? {
        return Failure(DimensionError);
      }
      cur := next.v;
      i := i + 1;
    }
    return Success(cur);
  }

  /** The inner loop of a pass, for a fixed `i`: for every `j` with
      `j != i` and both indices below the current length, the vector at
      `j` is removed when the vector at `i` beats it.  When nothing is
      removed, the vector at `i` was compared with every other vector. */
  method Row(p: Principle, ghost input: seq<Vec>, cur: seq<Vec>, i: nat) returns (r: Result<seq<Vec>>)
    requires Kept(Beats(p), input, cur)
    ensures r.Failure? ==> r == Failure(DimensionError) && !SameDimension(input)
    ensures r.Success? ==> Kept(Beats(p), input, r.v) && |r.v| <= |cur|
    ensures r.Success? && |r.v| == |cur| ==> r.v == cur
    ensures r.Success? && |r.v| == |cur| && i < |cur| ==>
      forall b :: 0 <= b < |cur| && i != b ==> |cur[i]| == |cur[b]| && !Beats(p)(cur[i], cur[b])
  {
    var c := cur;
    var j := 0;
    while j < |c|
      invariant Kept(Beats(p), input, c)
      invariant |c| <= |cur| && j <= |cur|
      invariant |c| == |cur| ==> c == cur
      invariant |c| == |cur| && i < |c| ==> forall b :: 0 <= b < j && b < |c| && i != b ==> |c[i]| == |c[b]| && !Beats(p)(c[i], c[b])
      decreases |c| + |cur| - j
    {
      var next := RowStep(p, input, c, i, j);
      if next.Failure? {
        return Failure(DimensionError);
      }
      if |next.v| == |cur| && i < |cur| {
        RowExtends(Beats(p), c, i, j);
      }
      c := next.v;
      j := j + 1;
    }
    return Success(c);
  }

  /** Comparing position `i` with position `j` extends the checked prefix
      by one. */
  lemma RowExtends(beats: (Vec, Vec) -> bool, c: seq<Vec>, i: nat, j: nat)
    requires i < |c| && j < |c|
    requires forall b :: 0 <= b < j && i != b ==> |c[i]| == |c[b]| && !beats(c[i], c[b])
    requires i != j ==> |c[i]| == |c[j]| && !beats(c[i], c[j])
    ensures forall b :: 0 <= b < j + 1 && i != b ==> |c[i]| == |c[b]| && !beats(c[i], c[b])
  {
  }

  /** One pass of the inner loop: when `i` and `j` differ and `i` is still
      in range, compares the vector at `i` with the one at `j` and removes
      the latter when it is beaten. */
  method RowStep(p: Principle, ghost input: seq<Vec>, c: seq<Vec>, i: nat, j: nat) returns (r: Result<seq<Vec>>)
    requires Kept(Beats(p), input, c) && j < |c|
    ensures r.Failure? ==> r == Failure(DimensionError) && !SameDimension(input)
    ensures r.Success? ==> Kept(Beats(p), input, r.v) && |r.v| <= |c|
    ensures r.Success? && |r.v| == |c| ==> r.v == c
    ensures r.Success? && |r.v| == |c| && i < |c| && i != j ==> |c[i]| == |c[j]| && !Beats(p)(c[i], c[j])
  {
    if i == j || i >= |c| {
      return Success(c);
    }
    var better := Compare(p, c[i], c[j]);
    if better.Failure? {
      assert c[i] in input && c[j] in input;
      return Failure(DimensionError);
    }
    assert better.v == Beats(p)(c[i], c[j]);
    if better.v {
      KeptAfterRemoval(Beats(p), input, c, i, j);
      return Success(RemoveAt(c, j));
    }
    return Success(c);
  }

  /** `BestByPareto` / `BestBySlater`.  Fewer than two vectors come back
      unchanged.  Otherwise the result succeeds exactly when all vectors
      share one dimension; it is then an order-preserving sub-list that
      keeps every copy of every vector no input vector beats, no vector of
      it beats another, and it is non-empty. */
  method BestBy(p: Principle, vectors: seq<Vec>) returns (r: Result<seq<Vec>>)
    ensures |vectors| < 2 ==> r == Success(vectors)
    ensures r.Success? <==> |vectors| < 2 || SameDimension(vectors)
    ensures r.Failure? ==> r.error == DimensionError
    ensures r.Success? ==> SubList(r.v, vectors)
    ensures r.Success? ==> forall v :: v in vectors && Undominated(Beats(p), v, vectors) ==> multiset(r.v)[v] == multiset(vectors)[v]
    ensures r.Success? ==> forall a, b :: 0 <= a < |r.v| && 0 <= b < |r.v| && a != b ==> !Better(p, r.v[a], r.v[b])
    ensures r.Success? && |vectors| >= 1 ==> |r.v| >= 1
  {
    if |vectors| < 2 {
      SubListReflexive(vectors);
      return Success(vectors);
    }
    KeptInitially(Beats(p), vectors);
    var best := vectors;
    while true
      invariant Kept(Beats(p), vectors, best)
      decreases |best|
    {
      var count := |best|;
      var next := Sweep(p, vectors, best);
      if next.Failure? {
        return Failure(next.error);
      }
      best := next.v;
      if count <= |best| {
        SettledSameDimension(Beats(p), vectors, best);
        SettledUndominated(p, best);
        return Success(best);
      }
    }
  }

  /** In a settled list no vector beats another. */
  lemma {:induction false} SettledUndominated(p: Principle, s: seq<Vec>)
    requires Settled(Beats(p), s)
    ensures forall a, b :: 0 <= a < |s| && 0 <= b < |s| && a != b ==> !Better(p, s[a], s[b])
  {
    forall a, b | 0 <= a < |s| && 0 <= b < |s| && a != b
      ensures !Better(p, s[a], s[b])
    {
      assert !Beats(p)(s[a], s[b]);
    }
  }

  /** Examples of the tests: `(4,4,4)` beats `(1,2,3)` and `(1,3,2)` by
      both principles, and those two do not beat each other; `(5,1,2)`
      beats `(1,1,2)` by Pareto but not by Slater. */
  lemma {:induction false} DominanceExamples()
    ensures Better(Pareto, [4.0, 4.0, 4.0], [1.0, 2.0, 3.0]) && Better(Slater, [4.0, 4.0, 4.0], [1.0, 3.0, 2.0])
    ensures !Better(Pareto, [1.0, 2.0, 3.0], [1.0, 3.0, 2.0]) && !Better(Pareto, [1.0, 3.0, 2.0], [1.0, 2.0, 3.0])
    ensures Better(Pareto, [5.0, 1.0, 2.0], [1.0, 1.0, 2.0]) && !Better(Slater, [5.0, 1.0, 2.0], [1.0, 1.0, 2.0])
  {
    var u: seq<real> := [4.0, 4.0, 4.0];
    assert u[0] > [1.0, 2.0, 3.0][0];
    var v: seq<real> := [5.0, 1.0, 2.0];
    assert v[0] > [1.0, 1.0, 2.0][0];
    assert !(v[1] > [1.0, 1.0, 2.0][1]);
    assert [1.0, 2.0, 3.0][2] > [1.0, 3.0, 2.0][2];
    assert [1.0, 3.0, 2.0][1] > [1.0, 2.0, 3.0][1];
  }
}
