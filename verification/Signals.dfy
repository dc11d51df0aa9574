/** Comparison signals between two statements (app/claims/signals.py:155-267). What a statement's
    tokens and quantities are is given; floating-point numbers are modelled as reals. */
module Signals {
  import opened Common

  // ---------------------------------------------------------------- token overlap

  /** The number of tokens two lists share, counting repetitions. */
  function Shared(left: seq<string>, right: seq<string>): nat {
    |multiset(left) * multiset(right)|
  }

  /** Twice what is shared over what there is. */
  function Overlap(left: seq<string>, right: seq<string>): real {
    if left == [] || right == [] then 0.0
    else 2.0 * Shared(left, right) as real / (|left| + |right|) as real
  }

  /** The counting loop of `token_f1`. */
  method CountShared(left: seq<string>, right: seq<string>) returns (shared: nat)
    ensures shared == Shared(left, right)
  {
    hide Counted;
    shared := 0;
    var remaining := right;
    NothingCounted(left, right);
    for i := 0 to |left|
      invariant Counted(left, right, i, remaining, shared)
    {
      var token := left[i];
      ghost var before := remaining;
      ghost var n := shared;
      if token in remaining {
        ghost var at;
        remaining, at := Remove(remaining, token);
        shared := shared + 1;
      }
      CountOne(left, right, i, before, n, remaining, shared);
    }
    AllCounted(left, right, remaining, shared);
  }

  lemma AllCounted(left: seq<string>, right: seq<string>, remaining: seq<string>, shared: nat)
    requires Counted(left, right, |left|, remaining, shared)
    ensures shared == Shared(left, right)
  {
    assert left[..|left|] == left;
  }

  ghost predicate Counted(left: seq<string>, right: seq<string>, i: nat, remaining: seq<string>, shared: nat) {
    i <= |left| && multiset(remaining) == multiset(right) - multiset(left[..i])
      && shared == |multiset(left[..i]) * multiset(right)|
  }

  lemma NothingCounted(left: seq<string>, right: seq<string>)
    ensures Counted(left, right, 0, right, 0)
  {
    assert left[..0] == [];
  }

  lemma CountOne(left: seq<string>, right: seq<string>, i: nat, before: seq<string>, n: nat, remaining: seq<string>,
      shared: nat)
    requires i < |left| && Counted(left, right, i, before, n)
    requires if left[i] in before then multiset(remaining) == multiset(before) - multiset{left[i]} && shared == n + 1
             else remaining == before && shared == n
    ensures Counted(left, right, i + 1, remaining, shared)
  {
    var a, r, x := multiset(left[..i]), multiset(right), left[i];
    assert left[..i + 1] == left[..i] + [x];
    assert multiset(left[..i + 1]) == a + multiset{x};
    assert x in before <==> x in multiset(before);
    OneMoreShared(a, r, x);
  }

  lemma OneMoreShared(a: multiset<string>, r: multiset<string>, x: string)
    ensures x in r - a ==> (a + multiset{x}) * r == a * r + multiset{x} && r - a - multiset{x} == r - (a + multiset{x})
    ensures x !in r - a ==> (a + multiset{x}) * r == a * r && r - a == r - (a + multiset{x})
    ensures x in r - a ==> |(a + multiset{x}) * r| == |a * r| + 1
  {
  }

  /** `token_f1`. */
  method TokenF1(left: seq<string>, right: seq<string>) returns (f1: real)
    ensures f1 == Overlap(left, right)
  {
    if left == [] || right == [] {
      return 0.0;
    }
    var shared := CountShared(left, right);
    if shared == 0 {
      return 0.0;
    }
    var precision := shared as real / |left| as real;
    var recall := shared as real / |right| as real;
    HarmonicMean(shared as real, |left| as real, |right| as real);
    f1 := 2.0 * precision * recall / (precision + recall);
  }

  /** The harmonic mean of s/a and s/b. */
  lemma HarmonicMean(s: real, a: real, b: real)
    requires s > 0.0 && a > 0.0 && b > 0.0
    ensures s / a + s / b > 0.0
    ensures 2.0 * (s / a) * (s / b) / (s / a + s / b) == 2.0 * s / (a + b)
  {
    var p, r := s / a, s / b;
    assert p * a == s && r * b == s;
    assert p > 0.0 && r > 0.0;
    assert p * s + r * s == p * r * (a + b) by {
      assert p * s == p * (r * b) && r * s == r * (p * a);
    }
    assert 2.0 * p * r * (a + b) == 2.0 * s * (p + r);
    Cross(2.0 * p * r, p + r, 2.0 * s, a + b);
  }

  lemma Cross(x: real, y: real, u: real, v: real)
    requires y > 0.0 && v > 0.0 && x * v == u * y
    ensures x / y == u / v
  {
    var q := u / v;
    assert q * v == u;
    assert x * v == q * v * y == (q * y) * v;
    assert x == q * y;
  }

  /** Order does not matter; the value is between 0 and 1; it is 1 exactly on the same tokens. */
  lemma OverlapIsSymmetric(left: seq<string>, right: seq<string>)
    ensures Overlap(left, right) == Overlap(right, left)
  {
    assert multiset(left) * multiset(right) == multiset(right) * multiset(left);
  }

  lemma OverlapRange(left: seq<string>, right: seq<string>)
    requires left != [] && right != []
    ensures 0.0 <= Overlap(left, right) <= 1.0
    ensures Overlap(left, right) == 1.0 <==> multiset(left) == multiset(right)
  {
    var l, r := multiset(left), multiset(right);
    SharedBound(l, r);
    SharedBound(r, l);
    assert l * r == r * l;
    assert |l| == |left| && |r| == |right|;
    var s, n := |l * r|, |left| + |right|;
    if l == r {
      assert l * r == l;
      assert 2 * s == n;
    }
    Ratio(2 * s, n);
    if 2 * s == n {
      assert |l * r| == |l| && |r * l| == |r|;
    }
  }

  lemma Ratio(x: int, n: int)
    requires 0 <= x <= n && n > 0
    ensures 0.0 <= x as real / n as real <= 1.0
    ensures x as real / n as real == 1.0 <==> x == n
  {
  }

  lemma {:induction false} SharedBound(l: multiset<string>, r: multiset<string>)
    ensures |l * r| <= |l|
    ensures |l * r| == |l| ==> l <= r
  {
    var common, rest := l * r, l - r;
    assert l == common + rest;
    assert |l| == |common| + |rest|;
    if |rest| == 0 {
      assert rest == multiset{};
    }
  }

  // ---------------------------------------------------------------- quantities

  /** A quantity in a statement; `folded` is its head noun stripped and in lower case. */
  datatype Measure = Measure(
      value: real, unit: string, dimension: string, head: string, folded: string, low: Option<real>, high: Option<real>)

  /** Extraction writes the smaller bound of an interval first (app/claims/numbers.py:1080-1095). */
  type Quantity = q: Measure | EffectiveLow(q) <= EffectiveHigh(q) witness Measure(0.0, "", "", "", "", None, None)

  const TOLERANCE := 0.05
  const TINY := 0.000000001

  function Abs(x: real): real {
    if x < 0.0 then -x else x
  }

  function Max(x: real, y: real): real {
    if x >= y then x else y
  }

  function Min(x: real, y: real): real {
    if x <= y then x else y
  }

  function EffectiveLow(q: Measure): real {
    if q.low.Some? then q.low.value else q.value
  }

  function EffectiveHigh(q: Measure): real {
    if q.high.Some? then q.high.value else q.value
  }

  predicate IsInterval(q: Quantity) {
    q.low.Some? && q.high.Some?
  }

  function DropEndingS(s: string): string {
    if s != [] && s[|s| - 1] == 's' then DropEndingS(s[..|s| - 1]) else s
  }

  /** `_heads_compatible`. */
  predicate HeadsCompatible(q1: Quantity, q2: Quantity) {
    if q1.head == "" || q2.head == "" then true
    else q1.folded == q2.folded || DropEndingS(q1.folded) == DropEndingS(q2.folded)
  }

  /** `_quantities_comparable`. */
  predicate Comparable(q1: Quantity, q2: Quantity) {
    if q1.dimension != "" && q2.dimension != "" && q1.dimension != q2.dimension then false
    else if q1.unit != "" && q2.unit != "" then q1.unit == q2.unit
    else if q1.unit == "" && q2.unit == "" then HeadsCompatible(q1, q2)
    else false
  }

  /** `_relative_difference`. */
  function RelativeDifference(a: real, b: real): real {
    var scale := Max(Abs(a), Abs(b));
    if scale == 0.0 then 0.0 else Abs(a - b) / scale
  }

  /** `_values_match`. */
  predicate ValuesMatch(q1: Quantity, q2: Quantity) {
    if IsInterval(q1) || IsInterval(q2) then
      var low := Max(EffectiveLow(q1), EffectiveLow(q2));
      var high := Min(EffectiveHigh(q1), EffectiveHigh(q2));
      if low <= high then true
      else (low - high) / Max(Max(Abs(low), Abs(high)), TINY) <= TOLERANCE
    else RelativeDifference(q1.value, q2.value) <= TOLERANCE
  }

  /** The quantities of `qs` comparable with some quantity of `others`. */
  function ComparableWith(qs: seq<Quantity>, others: seq<Quantity>): seq<Quantity> {
    if qs == [] then []
    else ComparableWith(qs[..|qs| - 1], others) + if exists y ::
      y in others && Comparable(qs[|qs| - 1], y) then [qs[|qs| - 1]] else []
  }

  /** Some quantity of `others` is comparable with `x` and matches it. */
  predicate Confirmed(x: Quantity, others: seq<Quantity>) {
    exists y :: y in others && Comparable(x, y) && ValuesMatch(x, y)
  }

  /** `numbers_conflict`, as its code reads: what follows the loop asks about `x`, the loop variable
      left over, and about the first side's own quantities, once for each quantity of the second. */
  function NumbersConflict(qa: seq<Quantity>, qb: seq<Quantity>): Option<bool> {
    if qa == [] || qb == [] then None
    else
      var compA := ComparableWith(qa, qb);
      var compB := ComparableWith(qb, qa);
      if compA == [] && compB == [] then None
      else if exists x :: x in compA && !Confirmed(x, compB) then Some(true)
      else Some(compB != [] && compA != [] && !Confirmed(compA[|compA| - 1], compA))
  }

  /** The loop of `numbers_conflict`, and the question after it. */
  method CompareNumbers(qa: seq<Quantity>, qb: seq<Quantity>) returns (conflict: Option<bool>)
    ensures conflict == NumbersConflict(qa, qb)
  {
    hide Comparable, ValuesMatch, ComparableWith, Confirmed;
    if qa == [] || qb == [] {
      return None;
    }
    var compA, compB := ComparableWith(qa, qb), ComparableWith(qb, qa);
    if compA == [] && compB == [] {
      return None;
    }
    var x := qa[0];
    for i := 0 to |compA|
      invariant forall k :: 0 <= k < i ==> Confirmed(compA[k], compB)
      invariant i > 0 ==> x == compA[i - 1]
    {
      x := compA[i];
      if !Confirmed(x, compB) {
        return Some(true);
      }
    }
    SameEmptiness(qa, qb);
    for i := 0 to |compB|
      invariant i > 0 ==> Confirmed(x, compA)
    {
      if !Confirmed(x, compA) {
        return Some(true);
      }
    }
    return Some(false);
  }

  const GENERIC := {"", "count", "dimensionless", "measurement"}

  /** `_quantities_dimensionally_compatible`. */
  predicate DimensionallyCompatible(q1: Quantity, q2: Quantity) {
    if q1.dimension != "" && q2.dimension != "" && q1.dimension != q2.dimension && q1.dimension !in GENERIC
      && q2.dimension !in GENERIC then false
    else if q1.unit != "" && q2.unit != "" && q1.unit != q2.unit then false
    else !(q1.head != "" && q2.head != "" && !HeadsCompatible(q1, q2))
  }

  predicate SomeCompatible(qa: seq<Quantity>, qb: seq<Quantity>) {
    exists x :: x in qa && exists y :: y in qb && DimensionallyCompatible(x, y)
  }

  predicate SomeCompatibleMatch(qa: seq<Quantity>, qb: seq<Quantity>) {
    exists x :: x in qa && exists y :: y in qb && DimensionallyCompatible(x, y) && ValuesMatch(x, y)
  }

  /** `numbers_differ`. */
  predicate NumbersDiffer(qa: seq<Quantity>, qb: seq<Quantity>) {
    var conflict := NumbersConflict(qa, qb);
    if conflict.Some? then conflict.value
    else if qa == [] || qb == [] then false
    else SomeCompatible(qa, qb) && !SomeCompatibleMatch(qa, qb)
  }

  // ---------------------------------------------------------------- symmetry

  lemma ComparableIsSymmetric(q1: Quantity, q2: Quantity)
    ensures Comparable(q1, q2) == Comparable(q2, q1)
    ensures DimensionallyCompatible(q1, q2) == DimensionallyCompatible(q2, q1)
  {
  }

  lemma ValuesMatchIsSymmetric(q1: Quantity, q2: Quantity)
    ensures ValuesMatch(q1, q2) == ValuesMatch(q2, q1)
  {
    if !IsInterval(q1) && !IsInterval(q2) {
      assert Abs(q1.value - q2.value) == Abs(q2.value - q1.value);
      assert Max(Abs(q1.value), Abs(q2.value)) == Max(Abs(q2.value), Abs(q1.value));
    } else {
      assert Max(EffectiveLow(q1), EffectiveLow(q2)) == Max(EffectiveLow(q2), EffectiveLow(q1));
      assert Min(EffectiveHigh(q1), EffectiveHigh(q2)) == Min(EffectiveHigh(q2), EffectiveHigh(q1));
    }
  }

  lemma {:induction false} ComparableWithFacts(qs: seq<Quantity>, others: seq<Quantity>, x: Quantity)
    ensures x in ComparableWith(qs, others) <==> x in qs && exists y :: y in others && Comparable(x, y)
  {
    hide Comparable;
    if qs != [] {
      ComparableWithFacts(qs[..|qs| - 1], others, x);
      assert x in qs <==> x in qs[..|qs| - 1] || x == qs[|qs| - 1];
    }
  }

  ghost predicate Comparables(x: Quantity, others: seq<Quantity>) {
    exists y :: y in others && Comparable(x, y)
  }

  /** Some quantity can be compared with the other side's and none of those confirms it. */
  ghost predicate Unconfirmed(qs: seq<Quantity>, others: seq<Quantity>) {
    exists x :: x in qs && Comparables(x, others) && !Confirmed(x, others)
  }

  lemma MatchesAreComparable(x: Quantity, qa: seq<Quantity>, qb: seq<Quantity>)
    requires x in qa
    ensures Confirmed(x, ComparableWith(qb, qa)) <==> Confirmed(x, qb)
  {
    hide Comparable, ValuesMatch;
    forall y ensures y in ComparableWith(qb, qa) && Comparable(x, y) <==> y in qb && Comparable(x, y) {
      ComparableWithFacts(qb, qa, y);
      ComparableIsSymmetric(x, y);
    }
  }

  lemma InComparableWith(qa: seq<Quantity>, qb: seq<Quantity>)
    ensures forall x :: x in ComparableWith(qa, qb) <==> x in qa && Comparables(x, qb)
    ensures ComparableWith(qa, qb) == [] <==> !SomeComparable(qa, qb)
  {
    hide Comparable;
    var comp := ComparableWith(qa, qb);
    forall x ensures x in comp <==> x in qa && Comparables(x, qb) {
      ComparableWithFacts(qa, qb, x);
    }
    assert comp != [] ==> comp[0] in comp;
  }

  lemma SideUnconfirmed(qa: seq<Quantity>, qb: seq<Quantity>)
    ensures (exists x :: x in ComparableWith(qa, qb) && !Confirmed(x, ComparableWith(qb, qa))) <==> Unconfirmed(qa, qb)
  {
    hide Comparables, Confirmed, ComparableWith;
    InComparableWith(qa, qb);
    var comp := ComparableWith(qa, qb);
    if x :| x in comp && !Confirmed(x, ComparableWith(qb, qa)) {
      MatchesAreComparable(x, qa, qb);
    }
    if x :| x in qa && Comparables(x, qb) && !Confirmed(x, qb) {
      MatchesAreComparable(x, qa, qb);
      assert x in comp;
    }
  }

  ghost predicate SomeComparable(qa: seq<Quantity>, qb: seq<Quantity>) {
    exists x :: x in qa && Comparables(x, qb)
  }

  lemma SidesShareComparables(qa: seq<Quantity>, qb: seq<Quantity>)
    ensures SomeComparable(qa, qb) ==> SomeComparable(qb, qa)
  {
    hide Comparable;
    if x :| x in qa && Comparables(x, qb) {
      var y :| y in qb && Comparable(x, y);
      ComparableIsSymmetric(x, y);
      assert Comparables(y, qa);
    }
  }

  lemma SameEmptiness(qa: seq<Quantity>, qb: seq<Quantity>)
    ensures ComparableWith(qa, qb) == [] <==> ComparableWith(qb, qa) == []
  {
    hide ComparableWith, SomeComparable;
    InComparableWith(qa, qb);
    InComparableWith(qb, qa);
    SidesShareComparables(qa, qb);
    SidesShareComparables(qb, qa);
  }

  /** A quantity is comparable with itself and matches itself. */
  lemma ConfirmsItself(q: Quantity, qs: seq<Quantity>)
    requires q in qs
    ensures Confirmed(q, qs)
  {
    assert Comparable(q, q) && ValuesMatch(q, q);
  }

  /** What the three values say: there is nothing to compare; or some comparable quantity of the first
      statement finds no match in the second; or every one does. The second statement's quantities are
      never asked about: the question after the loop always answers itself. */
  lemma ConflictMeans(qa: seq<Quantity>, qb: seq<Quantity>)
    ensures NumbersConflict(qa, qb).None? <==> !SomeComparable(qa, qb)
    ensures NumbersConflict(qa, qb) == Some(true) <==> Unconfirmed(qa, qb)
  {
    hide Comparables, Confirmed, ComparableWith, Unconfirmed;
    SideUnconfirmed(qa, qb);
    InComparableWith(qa, qb);
    InComparableWith(qb, qa);
    SidesShareComparables(qa, qb);
    SidesShareComparables(qb, qa);
    var compA := ComparableWith(qa, qb);
    if compA != [] {
      ConfirmsItself(compA[|compA| - 1], compA);
    }
  }

  /** The comparison is symmetric exactly when the two statements agree on whether the other leaves
      one of their comparable quantities without a match. */
  lemma NumbersConflictIsSymmetricIff(qa: seq<Quantity>, qb: seq<Quantity>)
    ensures NumbersConflict(qa, qb) == NumbersConflict(qb, qa) <==> (Unconfirmed(qa, qb) <==> Unconfirmed(qb, qa))
  {
    hide SomeComparable, Unconfirmed, ComparableWith, Confirmed;
    ConflictMeans(qa, qb);
    ConflictMeans(qb, qa);
    SidesShareComparables(qa, qb);
    SidesShareComparables(qb, qa);
  }

  function Kilometres(value: real): Quantity {
    Measure(value, "km", "length", "", "", None, None)
  }

  /** It is not symmetric: "10 km" against "10 km and 20 km" agrees, the other way round it conflicts. */
  lemma ExtraQuantityIsSeenFromOneSideOnly(qa: seq<Quantity>, qb: seq<Quantity>)
    requires qa == [Kilometres(10.0)] && qb == [Kilometres(10.0), Kilometres(20.0)]
    ensures NumbersConflict(qa, qb) == Some(false) && NumbersConflict(qb, qa) == Some(true)
    ensures !NumbersDiffer(qa, qb) && NumbersDiffer(qb, qa)
  {
    hide ComparableWith, SomeComparable, Unconfirmed;
    ConflictMeans(qa, qb);
    ConflictMeans(qb, qa);
    OneOfTwo(qa, qb);
    assert NumbersConflict(qb, qa).value && !NumbersConflict(qa, qb).value;
  }

  lemma OneOfTwo(qa: seq<Quantity>, qb: seq<Quantity>)
    requires qa == [Kilometres(10.0)] && qb == [Kilometres(10.0), Kilometres(20.0)]
    ensures SomeComparable(qa, qb) && SomeComparable(qb, qa) && !Unconfirmed(qa, qb) && Unconfirmed(qb, qa)
  {
    var ten, twenty := Kilometres(10.0), Kilometres(20.0);
    assert qa[0] == ten && qb[0] == ten && qb[1] == twenty;
    assert Comparable(ten, ten) && Comparable(twenty, ten) && ValuesMatch(ten, ten);
    assert !ValuesMatch(twenty, ten);
    assert Comparables(ten, qb) && Comparables(twenty, qa);
    assert Confirmed(ten, qb) && !Confirmed(twenty, qa);
  }

  lemma SwapCompatible(qa: seq<Quantity>, qb: seq<Quantity>)
    ensures SomeCompatible(qa, qb) ==> SomeCompatible(qb, qa)
    ensures SomeCompatibleMatch(qa, qb) ==> SomeCompatibleMatch(qb, qa)
  {
    hide DimensionallyCompatible, ValuesMatch;
    if SomeCompatible(qa, qb) {
      var x :| x in qa && exists y :: y in qb && DimensionallyCompatible(x, y);
      var y :| y in qb && DimensionallyCompatible(x, y);
      ComparableIsSymmetric(x, y);
    }
    if SomeCompatibleMatch(qa, qb) {
      var x :| x in qa && exists y :: y in qb && DimensionallyCompatible(x, y) && ValuesMatch(x, y);
      var y :| y in qb && DimensionallyCompatible(x, y) && ValuesMatch(x, y);
      ComparableIsSymmetric(x, y);
      ValuesMatchIsSymmetric(x, y);
    }
  }

  /** The guard built on it is symmetric under the same condition. */
  lemma NumbersDifferIsSymmetricIff(qa: seq<Quantity>, qb: seq<Quantity>)
    ensures NumbersDiffer(qa, qb) == NumbersDiffer(qb, qa) <==> (Unconfirmed(qa, qb) <==> Unconfirmed(qb, qa))
  {
    hide SomeCompatible, SomeCompatibleMatch, Unconfirmed, ComparableWith, Confirmed, SomeComparable;
    ConflictMeans(qa, qb);
    ConflictMeans(qb, qa);
    SidesShareComparables(qa, qb);
    SidesShareComparables(qb, qa);
    UnconfirmedIsComparable(qa, qb);
    UnconfirmedIsComparable(qb, qa);
    SwapCompatible(qa, qb);
    SwapCompatible(qb, qa);
  }

  lemma UnconfirmedIsComparable(qa: seq<Quantity>, qb: seq<Quantity>)
    ensures Unconfirmed(qa, qb) ==> SomeComparable(qa, qb)
  {
    hide Comparables, Confirmed;
  }
}
