/** Vocabulary shared by every module: optional values, the elements of a list, and Python's
    `list.remove` and `sorted` on a finite set of integers. */
module Common {

  datatype Option<+T> = None | Some(value: T)

  function Elems<T>(s: seq<T>): set<T> {
    set x | x in s
  }

  lemma RowsWithout<T>(s: seq<T>, i: nat)
    requires i < |s|
    ensures multiset(s[..i] + s[i + 1..]) == multiset(s) - multiset{s[i]}
  {
    assert s == s[..i] + [s[i]] + s[i + 1..];
  }

  /** `list.remove`: the first equal element, at `i`, goes. */
  method Remove<T(==)>(s: seq<T>, x: T) returns (r: seq<T>, ghost i: nat)
    requires x in s
    ensures i < |s| && s[i] == x && x !in s[..i] && r == s[..i] + s[i + 1..]
    ensures multiset(r) == multiset(s) - multiset{x}
  {
    var k := 0;
    while k < |s| && s[k] != x
      invariant 0 <= k <= |s| && forall m :: 0 <= m < k ==> s[m] != x
    {
      k := k + 1;
    }
    RowsWithout(s, k);
    i := k;
    r := s[..k] + s[k + 1..];
  }

  ghost predicate Distinct<T>(s: seq<T>) {
    forall i, j :: 0 <= i < j < |s| ==> s[i] != s[j]
  }

  ghost predicate Increasing(s: seq<int>) {
    forall i, j :: 0 <= i < j < |s| ==> s[i] < s[j]
  }

  lemma Inhabited(s: set<int>)
    ensures s == {} || exists x :: x in s
  {
    if !exists x :: x in s {
      assert s == {};
    }
  }

  lemma {:induction false} MinExists(s: set<int>)
    requires s != {}
    ensures exists m :: m in s && forall y :: y in s ==> m <= y
  {
    Inhabited(s);
    var m :| m in s;
    if s != {m} {
      MinExists(s - {m});
      var n :| n in s - {m} && forall y :: y in s - {m} ==> n <= y;
      var least := if n < m then n else m;
      assert forall y :: y in s ==> y == m || y in s - {m};
      assert least in s && forall y :: y in s ==> least <= y;
    }
  }

  function Min(s: set<int>): (m: int)
    requires s != {}
    ensures m in s && forall y :: y in s ==> m <= y
  {
    MinExists(s);
    var m :| m in s && forall y :: y in s ==> m <= y;
    m
  }

  function Sorted(s: set<int>): (r: seq<int>)
    ensures Increasing(r) && |r| == |s|
    ensures forall x :: x in r <==> x in s
  {
    if s == {} then []
    else
      var m := Min(s);
      [m] + Sorted(s - {m})
  }

  /** A strictly increasing list is determined by its elements. */
  lemma {:induction false} IncreasingIsUnique(a: seq<int>, b: seq<int>)
    requires Increasing(a) && Increasing(b) && forall x :: x in a <==> x in b
    ensures a == b
  {
    if a == [] {
      assert forall i :: 0 <= i < |b| ==> b[i] in a;
    } else {
      assert a[0] in b && b[0] in a;
      forall x ensures x in a[1..] <==> x in b[1..] {
        assert x in a <==> x == a[0] || x in a[1..];
        assert x in b <==> x == b[0] || x in b[1..];
      }
      IncreasingIsUnique(a[1..], b[1..]);
    }
  }
}
