/** Date references and their conflicts (app/claims/signals.py:346-429). A reference is a year, a
    quarter, a month or a day; comparing two of them is shown to be comparing the days they cover. */
module Dates {
  import opened Common

  datatype DateRef = DateRef(
      year: int, month: Option<int>, day: Option<int>, quarter: bool, raw: string, start: int, end: int)

  datatype Key = Key(year: int, month: Option<int>, day: Option<int>, quarter: bool)

  function KeyOf(d: DateRef): Key {
    Key(d.year, d.month, d.day, d.quarter)
  }

  datatype Months = Months(first: int, last: int)

  /** `_month_range`. */
  function MonthRange(d: Key): Months {
    if d.month.None? then Months(1, 12)
    else if d.quarter then
      var q := (d.month.value - 1) / 3 + 1;
      Months((q - 1) * 3 + 1, q * 3)
    else Months(d.month.value, d.month.value)
  }

  /** `_date_contains`. */
  predicate DateContains(broader: Key, narrower: Key) {
    if broader.year != narrower.year then false
    else
      var b, n := MonthRange(broader), MonthRange(narrower);
      if !(b.first <= n.first && n.last <= b.last) then false
      else if broader.day.Some? && narrower.day.Some? then broader.day == narrower.day
      else !(broader.day.Some? && narrower.day.None?)
  }

  /** `_dates_conflict`. */
  predicate DatesConflict(d: Key, e: Key) {
    !(DateContains(d, e) || DateContains(e, d))
  }

  // ---------------------------------------------------------------- the days a reference covers

  datatype Day = Day(year: int, month: int, day: int)

  predicate IsLeap(year: int) {
    year % 4 == 0 && (year % 100 != 0 || year % 400 == 0)
  }

  function DaysIn(year: int, month: int): int {
    if month == 2 then (if IsLeap(year) then 29 else 28)
    else if month in {4, 6, 9, 11} then 30
    else 31
  }

  predicate OnCalendar(x: Day) {
    1 <= x.month <= 12 && 1 <= x.day <= DaysIn(x.year, x.month)
  }

  function QuarterOf(month: int): int {
    (month - 1) / 3
  }

  predicate Covers(d: Key, x: Day) {
    && OnCalendar(x) && x.year == d.year
    && (d.month.Some? ==> if d.quarter then QuarterOf(x.month) == QuarterOf(d.month.value)
      else x.month == d.month.value)
    && (d.day.Some? ==> x.day == d.day.value)
  }

  /** A year, a quarter, a month, or a day of the calendar. */
  predicate WellFormed(d: Key) {
    && (d.month.Some? ==> 1 <= d.month.value <= 12)
    && (d.quarter ==> d.month.Some? && d.day.None?)
    && (d.day.Some? ==> d.month.Some? && 1 <= d.day.value <= DaysIn(d.year, d.month.value))
  }

  /** The first day a reference covers, and the last. */
  function FirstDay(d: Key): Day {
    Day(d.year, MonthRange(d).first, if d.day.Some? then d.day.value else 1)
  }

  function LastDay(d: Key): Day {
    Day(d.year, MonthRange(d).last, if d.day.Some? then d.day.value else 2)
  }

  lemma CoverIsMonthRange(d: Key, x: Day)
    requires WellFormed(d)
    ensures Covers(d, x) <==>
      OnCalendar(x) && x.year == d.year && MonthRange(d).first <= x.month <= MonthRange(d).last
      && (d.day.Some? ==> x.day == d.day.value)
  {
  }

  /** `_date_contains` is inclusion of the days covered. */
  lemma ContainsIsInclusion(broader: Key, narrower: Key)
    requires WellFormed(broader) && WellFormed(narrower)
    ensures DateContains(broader, narrower) <==> forall x :: Covers(narrower, x) ==> Covers(broader, x)
  {
    if DateContains(broader, narrower) {
      forall x | Covers(narrower, x) ensures Covers(broader, x) {
        CoverIsMonthRange(broader, x);
        CoverIsMonthRange(narrower, x);
      }
    } else {
      var first, last := FirstDay(narrower), LastDay(narrower);
      CoverIsMonthRange(broader, first);
      CoverIsMonthRange(broader, last);
    }
  }

  /** `_dates_conflict` holds exactly when no day is covered by both. */
  lemma ConflictIsDisjointness(d: Key, e: Key)
    requires WellFormed(d) && WellFormed(e)
    ensures DatesConflict(d, e) <==> !exists x :: Covers(d, x) && Covers(e, x)
  {
    if !DatesConflict(d, e) {
      ContainsIsInclusion(d, e);
      ContainsIsInclusion(e, d);
      assert Covers(d, FirstDay(d)) && Covers(e, FirstDay(e));
      assert (Covers(d, FirstDay(e)) && Covers(e, FirstDay(e))) || (Covers(d, FirstDay(d)) && Covers(e, FirstDay(d)));
    } else if x :| Covers(d, x) && Covers(e, x) {
      NoConflictIfShared(d, e, x);
    }
  }

  lemma NoConflictIfShared(d: Key, e: Key, x: Day)
    requires WellFormed(d) && WellFormed(e) && Covers(d, x) && Covers(e, x)
    ensures !DatesConflict(d, e)
  {
    CoverIsMonthRange(d, x);
    CoverIsMonthRange(e, x);
  }

  // ---------------------------------------------------------------- dates common to both sides cancel

  function KeysOf(ds: seq<DateRef>): multiset<Key> {
    if ds == [] then multiset{} else KeysOf(ds[..|ds| - 1]) + multiset{KeyOf(ds[|ds| - 1])}
  }

  lemma {:induction false} KeysJoin(a: seq<DateRef>, b: seq<DateRef>)
    ensures KeysOf(a + b) == KeysOf(a) + KeysOf(b)
  {
    if b == [] {
      assert a + b == a;
    } else {
      assert (a + b)[..|a + b| - 1] == a + b[..|b| - 1];
      KeysJoin(a, b[..|b| - 1]);
    }
  }

  lemma {:induction false} KeysAre(ds: seq<DateRef>, k: Key)
    ensures k in KeysOf(ds) <==> exists i :: 0 <= i < |ds| && KeyOf(ds[i]) == k
  {
    if ds != [] {
      var init := ds[..|ds| - 1];
      KeysAre(init, k);
      assert KeyOf(ds[|ds| - 1]) == k ==> k in KeysOf(ds);
      if i :| 0 <= i < |ds| && KeyOf(ds[i]) == k {
        assert i < |init| ==> init[i] == ds[i];
      }
    }
  }

  lemma KeysWithout(ds: seq<DateRef>, i: nat)
    requires i < |ds|
    ensures KeysOf(ds) == KeysOf(ds[..i] + ds[i + 1..]) + multiset{KeyOf(ds[i])}
  {
    hide KeysOf;
    assert ds == (ds[..i] + [ds[i]]) + ds[i + 1..];
    KeysJoin(ds[..i] + [ds[i]], ds[i + 1..]);
    KeysJoin(ds[..i], [ds[i]]);
    KeysJoin(ds[..i], ds[i + 1..]);
    KeysOfOne(ds[i]);
  }

  lemma KeysOfOne(d: DateRef)
    ensures KeysOf([d]) == multiset{KeyOf(d)}
  {
    assert [d][..0] == [];
    assert KeysOf([d]) == KeysOf([]) + multiset{KeyOf(d)};
  }

  /** `list.remove`, and what it does to the keys. */
  method RemoveDate(ds: seq<DateRef>, d: DateRef) returns (r: seq<DateRef>)
    requires d in ds
    ensures KeysOf(r) == KeysOf(ds) - multiset{KeyOf(d)} && multiset(r) == multiset(ds) - multiset{d}
  {
    hide KeysOf;
    ghost var i;
    r, i := Remove(ds, d);
    KeysWithout(ds, i);
  }

  /** The first date of the list with the same year, month, day and quarter, if any. */
  method FindIdentical(ds: seq<DateRef>, k: Key) returns (r: Option<DateRef>)
    ensures r.Some? <==> k in KeysOf(ds)
    ensures r.Some? ==> r.value in ds && KeyOf(r.value) == k
  {
    KeysAre(ds, k);
    for i := 0 to |ds|
      invariant forall m :: 0 <= m < i ==> KeyOf(ds[m]) != k
    {
      if KeyOf(ds[i]) == k {
        return Some(ds[i]);
      }
    }
    return None;
  }

  /** The state of the cancellation before date `i` of the left side is looked at. */
  ghost predicate Cancelling(
      left: seq<DateRef>, right: seq<DateRef>, i: nat, leftRem: seq<DateRef>, rightRem: seq<DateRef>) {
    && i <= |left|
    && KeysOf(rightRem) == KeysOf(right) - KeysOf(left[..i])
    && KeysOf(leftRem) == (KeysOf(left[..i]) - KeysOf(right)) + KeysOf(left[i..])
    && multiset(left[i..]) <= multiset(leftRem) <= multiset(left)
    && multiset(rightRem) <= multiset(right)
  }

  /** Removing from both sides, one for one, the dates they share leaves the multiset differences. */
  method CancelShared(left: seq<DateRef>, right: seq<DateRef>) returns (leftRem: seq<DateRef>, rightRem: seq<DateRef>)
    ensures KeysOf(leftRem) == KeysOf(left) - KeysOf(right)
    ensures KeysOf(rightRem) == KeysOf(right) - KeysOf(left)
    ensures multiset(leftRem) <= multiset(left) && multiset(rightRem) <= multiset(right)
  {
    hide Cancelling, KeysOf;
    leftRem, rightRem := left, right;
    NothingCancelled(left, right);
    for i := 0 to |left|
      invariant Cancelling(left, right, i, leftRem, rightRem)
    {
      var dl := left[i];
      StillThere(left, right, i, leftRem, rightRem);
      var other := FindIdentical(rightRem, KeyOf(dl));
      ghost var leftBefore, rightBefore := leftRem, rightRem;
      if other.Some? {
        leftRem := RemoveDate(leftRem, dl);
        rightRem := RemoveDate(rightRem, other.value);
        CancelsOne(left, right, i, leftBefore, rightBefore, leftRem, rightRem, other.value);
      } else {
        KeepsOne(left, right, i, leftRem, rightRem);
      }
    }
    AllCancelled(left, right, leftRem, rightRem);
  }

  lemma NothingCancelled(left: seq<DateRef>, right: seq<DateRef>)
    ensures Cancelling(left, right, 0, left, right)
  {
    assert left[..0] == [] && left[0..] == left;
  }

  lemma AllCancelled(left: seq<DateRef>, right: seq<DateRef>, leftRem: seq<DateRef>, rightRem: seq<DateRef>)
    requires Cancelling(left, right, |left|, leftRem, rightRem)
    ensures KeysOf(leftRem) == KeysOf(left) - KeysOf(right)
    ensures KeysOf(rightRem) == KeysOf(right) - KeysOf(left)
    ensures multiset(leftRem) <= multiset(left) && multiset(rightRem) <= multiset(right)
  {
    assert left[..|left|] == left && left[|left|..] == [];
  }

  lemma StillThere(left: seq<DateRef>, right: seq<DateRef>, i: nat, leftRem: seq<DateRef>, rightRem: seq<DateRef>)
    requires Cancelling(left, right, i, leftRem, rightRem) && i < |left|
    ensures left[i] in leftRem
  {
    hide KeysOf;
    assert left[i] == left[i..][0];
    assert left[i] in multiset(left[i..]);
    assert left[i] in multiset(leftRem);
  }

  lemma CancelsOne(left: seq<DateRef>, right: seq<DateRef>, i: nat, l: seq<DateRef>, r: seq<DateRef>,
                   l': seq<DateRef>, r': seq<DateRef>, other: DateRef)
    requires Cancelling(left, right, i, l, r) && i < |left| && KeyOf(other) == KeyOf(left[i])
      && KeyOf(left[i]) in KeysOf(r)
    requires KeysOf(l') == KeysOf(l) - multiset{KeyOf(left[i])} && multiset(l') == multiset(l) - multiset{left[i]}
    requires KeysOf(r') == KeysOf(r) - multiset{KeyOf(other)} && multiset(r') == multiset(r) - multiset{other}
    ensures Cancelling(left, right, i + 1, l', r')
  {
    hide KeysOf, KeyOf;
    OneLess(left, i);
    CancelStep(KeysOf(left[..i]), KeysOf(left[i + 1..]), KeysOf(right), KeyOf(left[i]));
    RowsStep(multiset(left[i + 1..]), left[i], multiset(l), multiset(left));
    RowsStep(multiset{}, other, multiset(r), multiset(right));
  }

  lemma RowsStep(rest: multiset<DateRef>, d: DateRef, m: multiset<DateRef>, all: multiset<DateRef>)
    requires m <= all
    ensures m - multiset{d} <= all
    ensures multiset{d} + rest <= m ==> rest <= m - multiset{d}
  {
  }

  lemma KeepsOne(left: seq<DateRef>, right: seq<DateRef>, i: nat, l: seq<DateRef>, r: seq<DateRef>)
    requires Cancelling(left, right, i, l, r) && i < |left| && KeyOf(left[i]) !in KeysOf(r)
    ensures Cancelling(left, right, i + 1, l, r)
  {
    hide KeysOf;
    OneLess(left, i);
    CancelStep(KeysOf(left[..i]), KeysOf(left[i + 1..]), KeysOf(right), KeyOf(left[i]));
  }

  lemma OneLess(left: seq<DateRef>, i: nat)
    requires i < |left|
    ensures KeysOf(left[..i + 1]) == KeysOf(left[..i]) + multiset{KeyOf(left[i])}
    ensures KeysOf(left[i..]) == multiset{KeyOf(left[i])} + KeysOf(left[i + 1..])
    ensures multiset(left[i..]) == multiset{left[i]} + multiset(left[i + 1..])
  {
    assert left[..i + 1][..i] == left[..i];
    assert left[i..] == [left[i]] + left[i + 1..];
    KeysJoin([left[i]], left[i + 1..]);
    KeysOfOne(left[i]);
  }

  lemma CancelStep(a: multiset<Key>, rest: multiset<Key>, r: multiset<Key>, k: Key)
    ensures k in r - a ==>
      r - a - multiset{k} == r - (a + multiset{k})
      && (a - r) + (multiset{k} + rest) - multiset{k} == ((a + multiset{k}) - r) + rest
    ensures k !in r - a ==>
      r - a == r - (a + multiset{k})
      && (a - r) + (multiset{k} + rest) == ((a + multiset{k}) - r) + rest
  {
  }

  /** Some date left over on one side conflicts with some date left over on the other. */
  predicate SomeConflict(l: multiset<Key>, r: multiset<Key>) {
    exists k :: k in l - r && exists m :: m in r - l && DatesConflict(k, m)
  }

  /** The three-valued answer as a function of both sides' dates. */
  function DateConflict(events: bool, left: seq<DateRef>, right: seq<DateRef>): Option<bool> {
    if !events || left == [] || right == [] then None else Some(SomeConflict(KeysOf(left), KeysOf(right)))
  }

  /** The first pair of conflicting dates, in the order of the two lists. */
  method FindConflict(l: seq<DateRef>, r: seq<DateRef>) returns (found: bool, i: nat, k: nat)
    ensures found ==> i < |l| && k < |r| && DatesConflict(KeyOf(l[i]), KeyOf(r[k]))
    ensures !found ==> forall p, q :: 0 <= p < |l| && 0 <= q < |r| ==> !DatesConflict(KeyOf(l[p]), KeyOf(r[q]))
  {
    hide DatesConflict;
    for p := 0 to |l|
      invariant forall x, q :: 0 <= x < p && 0 <= q < |r| ==> !DatesConflict(KeyOf(l[x]), KeyOf(r[q]))
    {
      for q := 0 to |r|
        invariant forall y :: 0 <= y < q ==> !DatesConflict(KeyOf(l[p]), KeyOf(r[y]))
      {
        if DatesConflict(KeyOf(l[p]), KeyOf(r[q])) {
          return true, p, q;
        }
      }
    }
    return false, 0, 0;
  }

  /** `date_conflict_detail`. */
  method DateConflictDetail(eventLeft: bool, eventRight: bool, left: seq<DateRef>, right: seq<DateRef>)
    returns (conflict: Option<bool>, dl: Option<DateRef>, dr: Option<DateRef>)
    ensures conflict == DateConflict(eventLeft && eventRight, left, right)
    ensures conflict.Some? <==> dl.Some?
    ensures dl.Some? <==> dr.Some?
    ensures dl.Some? ==> dl.value in left && dr.value in right
    ensures conflict == Some(true) ==> DatesConflict(KeyOf(dl.value), KeyOf(dr.value))
  {
    hide KeysOf, DatesConflict;
    if !(eventLeft && eventRight) {
      return None, None, None;
    }
    if left == [] || right == [] {
      return None, None, None;
    }
    var leftRem, rightRem := CancelShared(left, right);
    NothingLeft(leftRem);
    NothingLeft(rightRem);
    if leftRem == [] || rightRem == [] {
      return Some(false), Some(left[0]), Some(right[0]);
    }
    var found, i, k := FindConflict(leftRem, rightRem);
    if found {
      KeysAre(leftRem, KeyOf(leftRem[i]));
      KeysAre(rightRem, KeyOf(rightRem[k]));
      AmongThem(leftRem, left, i);
      AmongThem(rightRem, right, k);
      return Some(true), Some(leftRem[i]), Some(rightRem[k]);
    }
    NoneConflicts(leftRem, rightRem);
    AmongThem(leftRem, left, 0);
    AmongThem(rightRem, right, 0);
    return Some(false), Some(leftRem[0]), Some(rightRem[0]);
  }

  lemma AmongThem(part: seq<DateRef>, whole: seq<DateRef>, i: nat)
    requires multiset(part) <= multiset(whole) && i < |part|
    ensures part[i] in whole
  {
    assert part[i] in multiset(part);
    assert part[i] in multiset(whole);
  }

  lemma NothingLeft(ds: seq<DateRef>)
    ensures ds == [] <==> KeysOf(ds) == multiset{}
  {
    if ds != [] {
      assert KeyOf(ds[|ds| - 1]) in KeysOf(ds);
    }
  }

  lemma NoneConflicts(l: seq<DateRef>, r: seq<DateRef>)
    requires forall p, q :: 0 <= p < |l| && 0 <= q < |r| ==> !DatesConflict(KeyOf(l[p]), KeyOf(r[q]))
    ensures forall k, m :: k in KeysOf(l) && m in KeysOf(r) ==> !DatesConflict(k, m)
  {
    forall k, m | k in KeysOf(l) && m in KeysOf(r) ensures !DatesConflict(k, m) {
      KeysAre(l, k);
      KeysAre(r, m);
    }
  }

  /** The answer does not depend on which statement comes first, nor on the order of its dates. */
  lemma DateConflictIsSymmetric(events: bool, left: seq<DateRef>, right: seq<DateRef>)
    ensures DateConflict(events, left, right) == DateConflict(events, right, left)
  {
    var l, r := KeysOf(left), KeysOf(right);
    if SomeConflict(l, r) {
      var k :| k in l - r && exists m :: m in r - l && DatesConflict(k, m);
      var m :| m in r - l && DatesConflict(k, m);
      assert DatesConflict(m, k);
    }
    if SomeConflict(r, l) {
      var k :| k in r - l && exists m :: m in l - r && DatesConflict(k, m);
      var m :| m in l - r && DatesConflict(k, m);
      assert DatesConflict(m, k);
    }
  }

  /** What the three values say: nothing to compare, unless both statements are about scheduled events and both give
      dates; and then they conflict exactly when one gives a date more often than the other, the other gives a date
      more often than the one, and the two dates share no day. */
  lemma DateConflictMeans(eventLeft: bool, eventRight: bool, left: seq<DateRef>, right: seq<DateRef>)
    ensures var answer := DateConflict(eventLeft && eventRight, left, right);
      && (answer.None? <==> !eventLeft || !eventRight || |left| == 0 || |right| == 0)
      && (answer == Some(true) <==>
           eventLeft && eventRight && |left| > 0 && |right| > 0
           && exists k, m ::
             KeysOf(left)[k] > KeysOf(right)[k] && KeysOf(right)[m] > KeysOf(left)[m] && DatesConflict(k, m))
  {
    hide KeysOf, DatesConflict;
    var l, r := KeysOf(left), KeysOf(right);
    forall k ensures (k in l - r <==> l[k] > r[k]) && (k in r - l <==> r[k] > l[k]) {
    }
    if k, m :| l[k] > r[k] && r[m] > l[m] && DatesConflict(k, m) {
      assert k in l - r && m in r - l;
    }
  }
}
