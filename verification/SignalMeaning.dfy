/** When two quantities are about the same thing, and when they say the same of it (app/claims/signals.py:172-245). */
module SignalMeaning {
  import opened Common
  import opened Signals

  function Plural(n: nat): string {
    seq(n, _ => 's')
  }

  /** The nouns differ at most in endings of "s". */
  ghost predicate SameButPlural(left: string, right: string) {
    exists stem, i, j :: left == stem + Plural(i) && right == stem + Plural(j)
  }

  lemma {:induction false} DropsEndings(stem: string, n: nat)
    ensures DropEndingS(stem + Plural(n)) == DropEndingS(stem)
    decreases n
  {
    var word := stem + Plural(n);
    if n > 0 {
      assert word[..|word| - 1] == stem + Plural(n - 1);
      DropsEndings(stem, n - 1);
    } else {
      assert word == stem;
    }
  }

  lemma {:induction false} HasStem(word: string) returns (n: nat)
    ensures word == DropEndingS(word) + Plural(n)
  {
    if word != [] && word[|word| - 1] == 's' {
      var k := HasStem(word[..|word| - 1]);
      n := k + 1;
      assert Plural(n) == Plural(k) + ['s'];
      assert word == word[..|word| - 1] + ['s'];
    } else {
      n := 0;
    }
  }

  lemma DropEndingMeans(left: string, right: string)
    ensures DropEndingS(left) == DropEndingS(right) <==> SameButPlural(left, right)
  {
    if DropEndingS(left) == DropEndingS(right) {
      var i := HasStem(left);
      var j := HasStem(right);
      assert left == DropEndingS(left) + Plural(i) && right == DropEndingS(left) + Plural(j);
    }
    if stem, i, j :| left == stem + Plural(i) && right == stem + Plural(j) {
      DropsEndings(stem, i);
      DropsEndings(stem, j);
    }
  }

  /** Head nouns are compatible when one is missing or they are the same up to plural endings. */
  lemma HeadsMean(q1: Quantity, q2: Quantity)
    ensures HeadsCompatible(q1, q2) <==> |q1.head| == 0 || |q2.head| == 0 || SameButPlural(q1.folded, q2.folded)
  {
    DropEndingMeans(q1.folded, q2.folded);
  }

  /** Two quantities are compared when their dimensions do not differ and they have the same unit, or no unit at all
      and compatible head nouns. */
  lemma ComparableMeans(q1: Quantity, q2: Quantity)
    ensures Comparable(q1, q2) <==>
      && (|q1.dimension| > 0 && |q2.dimension| > 0 ==> q1.dimension == q2.dimension)
      && q1.unit == q2.unit
      && (q1.unit == "" ==> q1.head == "" || q2.head == "" || SameButPlural(q1.folded, q2.folded))
  {
    HeadsMean(q1, q2);
  }

  /** More loosely, they are compatible when nothing given differs: not the units, not the head nouns, and not two
      dimensions of which neither is a mere count. */
  lemma CompatibleMeans(q1: Quantity, q2: Quantity)
    ensures DimensionallyCompatible(q1, q2) <==>
      && (|q1.unit| > 0 && |q2.unit| > 0 ==> q1.unit == q2.unit)
      && (|q1.head| > 0 && |q2.head| > 0 ==> SameButPlural(q1.folded, q2.folded))
      && (q1.dimension == q2.dimension || IsCount(q1.dimension) || IsCount(q2.dimension))
  {
    HeadsMean(q1, q2);
  }

  predicate IsCount(dimension: string) {
    dimension == "" || dimension == "count" || dimension == "dimensionless" || dimension == "measurement"
  }

  ghost predicate Lies(v: real, q: Quantity) {
    EffectiveLow(q) <= v <= EffectiveHigh(q)
  }

  /** The size of the larger of two values, signs aside. */
  function Magnitude(x: real, y: real): (m: real)
    ensures m >= x && m >= -x && m >= y && m >= -y && (m == x || m == -x || m == y || m == -y)
  {
    var left, right := if x < 0.0 then -x else x, if y < 0.0 then -y else y;
    if left < right then right else left
  }

  lemma MagnitudeIsMax(x: real, y: real)
    ensures Magnitude(x, y) == Max(Abs(x), Abs(y))
  {
  }

  /** `gap` is at most a twentieth of the larger of two values. */
  ghost predicate Small(gap: real, x: real, y: real) {
    20.0 * gap <= Magnitude(x, y)
  }

  /** Single values match when they differ by at most a twentieth of the larger. */
  lemma SingleValuesMatch(q1: Quantity, q2: Quantity)
    requires !IsInterval(q1) && !IsInterval(q2)
    ensures ValuesMatch(q1, q2) <==>
      Small(q1.value - q2.value, q1.value, q2.value) && Small(q2.value - q1.value, q1.value, q2.value)
  {
    MagnitudeIsMax(q1.value, q2.value);
    var scale, gap := Max(Abs(q1.value), Abs(q2.value)), Abs(q1.value - q2.value);
    if scale > 0.0 {
      Ratio20(gap, scale);
    }
  }

  lemma Ratio20(gap: real, scale: real)
    requires scale > 0.0
    ensures gap / scale <= 0.05 <==> 20.0 * gap <= scale
  {
    var r := gap / scale;
    assert r * scale == gap;
    if r <= 0.05 {
      assert r * scale <= 0.05 * scale;
    } else {
      assert r * scale > 0.05 * scale;
    }
  }

  /** Where an interval is given, two quantities match when some value lies in both, or the gap between them is
      small. */
  lemma IntervalsMatch(q1: Quantity, q2: Quantity)
    requires IsInterval(q1) || IsInterval(q2)
    ensures ValuesMatch(q1, q2) <==>
      || (exists v :: Lies(v, q1) && Lies(v, q2))
      || (EffectiveHigh(q1) < EffectiveLow(q2)
        && SmallOrTiny(EffectiveLow(q2) - EffectiveHigh(q1), EffectiveLow(q2), EffectiveHigh(q1)))
      || (EffectiveHigh(q2) < EffectiveLow(q1)
        && SmallOrTiny(EffectiveLow(q1) - EffectiveHigh(q2), EffectiveLow(q1), EffectiveHigh(q2)))
  {
    var low, high := Max(EffectiveLow(q1), EffectiveLow(q2)), Signals.Min(EffectiveHigh(q1), EffectiveHigh(q2));
    MagnitudeIsMax(low, high);
    if low <= high {
      assert Lies(low, q1) && Lies(low, q2);
    } else {
      assert (low == EffectiveLow(q1) && high == EffectiveHigh(q2))
        || (low == EffectiveLow(q2) && high == EffectiveHigh(q1));
      Ratio20(low - high, Max(Max(Abs(low), Abs(high)), TINY));
    }
  }

  ghost predicate SmallOrTiny(gap: real, x: real, y: real) {
    Small(gap, x, y) || 20.0 * gap <= 0.000000001
  }

  /** An interval runs from its lower bound to its upper, a single value from itself to itself. */
  lemma ValueLies(q: Quantity, v: real)
    ensures q.low.None? && q.high.None? ==> (Lies(v, q) <==> v == q.value)
    ensures q.low.Some? && q.high.Some? ==> (Lies(v, q) <==> q.low.value <= v <= q.high.value)
  {
  }
}
