/** The version timeline of one document (app/ingestion/versions.py). Instants are microseconds; a
    version's identity is its row position, its content is represented by its hash. */
module Versions {
  import opened Common

  datatype Row = Row(no: int, digest: string, effectiveAt: int)

  /** The stored versions in insertion order, and which of them is current. */
  datatype Timeline = Timeline(rows: seq<Row>, current: Option<nat>)

  datatype Request = Request(
      digest: string, effectiveAt: Option<int>, publishedAt: Option<int>, fetchedAt: Option<int>, now: int)

  datatype Result = Unchanged(existing: nat) | Stored(previous: Option<nat>)

  const MICROSECOND := 1
  const SECOND := 1_000_000
  const MINUTE := 60_000_000
  const DAY := 86_400_000_000

  function Times(rows: seq<Row>): set<int> {
    set r | r in rows :: r.effectiveAt
  }

  /** The next instant after `value` to try. */
  function Bump(value: int, taken: set<int>): (r: int)
    ensures r > value
  {
    if value + MICROSECOND !in taken then value + MICROSECOND
    else if value + SECOND !in taken then value + SECOND
    else if value + MINUTE !in taken then value + MINUTE
    else value + MINUTE + DAY
  }

  /** The bump loop: terminates at a free instant, no earlier than requested. */
  function FreeInstant(value: int, taken: set<int>): (r: int)
    ensures r !in taken && r >= value
    ensures value !in taken ==> r == value
    decreases NoEarlier(taken, value)
  {
    if value !in taken then value
    else
      Shrinks(taken, value, Bump(value, taken));
      FreeInstant(Bump(value, taken), taken)
  }

  function NoEarlier(taken: set<int>, value: int): set<int> {
    set t | t in taken && t >= value
  }

  lemma Shrinks(taken: set<int>, value: int, next: int)
    requires value in taken && next > value
    ensures NoEarlier(taken, next) < NoEarlier(taken, value)
  {
    assert value in NoEarlier(taken, value) && value !in NoEarlier(taken, next);
  }

  ghost predicate IsLatest(rows: seq<Row>, i: nat) {
    i < |rows| && forall k :: 0 <= k < |rows| && k != i ==> rows[k].effectiveAt < rows[i].effectiveAt
  }

  /** What a consistent timeline is: numbered 1..n in insertion order, no content and no instant twice. */
  ghost predicate Consistent(t: Timeline) {
    && (forall i :: 0 <= i < |t.rows| ==> t.rows[i].no == i + 1)
    && (forall i, k :: 0 <= i < k < |t.rows| ==>
          t.rows[i].digest != t.rows[k].digest && t.rows[i].effectiveAt != t.rows[k].effectiveAt)
    && (t.current.Some? ==> t.current.value < |t.rows|)
    && (t.rows != [] ==> t.current.Some?)
  }

  /** `previous` is the version that was current just before `instant`. */
  ghost predicate IsPrevious(rows: seq<Row>, instant: int, previous: Option<nat>) {
    match previous
    case None => forall k :: 0 <= k < |rows| ==> rows[k].effectiveAt >= instant
    case Some(p) =>
      && p < |rows| && rows[p].effectiveAt < instant
      && forall k :: 0 <= k < |rows| && rows[k].effectiveAt < instant ==> rows[k].effectiveAt <= rows[p].effectiveAt
  }

  /** When the new text counts as true, before the instant is made unique. */
  ghost predicate IsRequested(rows: seq<Row>, q: Request, instant: int) {
    if q.effectiveAt.Some? then instant == q.effectiveAt.value
    else
      var observed := if q.fetchedAt.Some? then q.fetchedAt.value else q.now;
      if rows == [] then instant == if q.publishedAt.Some? then q.publishedAt.value else observed
      else instant == if q.publishedAt.Some?
        && (forall k :: 0 <= k < |rows| ==> rows[k].effectiveAt < q.publishedAt.value)
                      then q.publishedAt.value else observed
  }

  class Document {
    var timeline: Timeline

    constructor ()
      ensures timeline == Timeline([], None) && Consistent(timeline)
    {
      timeline := Timeline([], None);
    }

    /** Python's `max(versions, key=effective_at)`: the first of the greatest. */
    static method MaxByTime(rows: seq<Row>) returns (best: nat)
      requires rows != []
      ensures best < |rows| && forall k :: 0 <= k < |rows| ==> rows[k].effectiveAt <= rows[best].effectiveAt
    {
      best := 0;
      for i := 1 to |rows|
        invariant best < |rows| && forall k :: 0 <= k < i ==> rows[k].effectiveAt <= rows[best].effectiveAt
      {
        if rows[i].effectiveAt > rows[best].effectiveAt {
          best := i;
        }
      }
    }

    static method PreviousChronological(rows: seq<Row>, instant: int) returns (previous: Option<nat>)
      ensures IsPrevious(rows, instant, previous)
    {
      previous := None;
      for i := 0 to |rows|
        invariant previous.None? ==> forall k :: 0 <= k < i ==> rows[k].effectiveAt >= instant
        invariant previous.Some? ==> previous.value < i && rows[previous.value].effectiveAt < instant
        invariant previous.Some? ==>
          forall k :: 0 <= k < i && rows[k].effectiveAt < instant ==>
            rows[k].effectiveAt <= rows[previous.value].effectiveAt
      {
        if rows[i].effectiveAt < instant && (previous.None? || rows[i].effectiveAt > rows[previous.value].effectiveAt) {
          previous := Some(i);
        }
      }
    }

    /** The instant a new text counts as true from, before it is made unique. */
    static method Requested(rows: seq<Row>, q: Request) returns (effective: int)
      ensures IsRequested(rows, q, effective)
    {
      if q.effectiveAt.Some? {
        effective := q.effectiveAt.value;
      } else if rows == [] {
        effective := if q.publishedAt.Some? then q.publishedAt.value else if q.fetchedAt.Some? then q.fetchedAt.value
          else q.now;
      } else {
        var latest := MaxByTime(rows);
        if q.publishedAt.Some? && q.publishedAt.value > rows[latest].effectiveAt {
          effective := q.publishedAt.value;
        } else {
          effective := if q.fetchedAt.Some? then q.fetchedAt.value else q.now;
        }
      }
    }

    /** The bump loop. */
    static method MakeUnique(requested: int, taken: set<int>) returns (effective: int)
      ensures effective == FreeInstant(requested, taken)
    {
      effective := requested;
      while effective in taken
        invariant FreeInstant(requested, taken) == FreeInstant(effective, taken)
        decreases NoEarlier(taken, effective)
      {
        Shrinks(taken, effective, Bump(effective, taken));
        effective := Bump(effective, taken);
      }
    }

    /** The greatest version number so far. */
    static method LastNumber(rows: seq<Row>) returns (no: int)
      requires forall i :: 0 <= i < |rows| ==> rows[i].no == i + 1
      ensures no == |rows|
    {
      no := 0;
      for k := 0 to |rows|
        invariant no == k
      {
        no := if rows[k].no > no then rows[k].no else no;
      }
    }

    /** Store the text as a new version, or record it as unchanged. */
    method Upsert(q: Request) returns (result: Result)
      requires Consistent(timeline)
      modifies this
      ensures Consistent(timeline) && Upserted(old(timeline), q, timeline)
      ensures (exists r :: r in old(timeline).rows && r.digest == q.digest) <==> result.Unchanged?
      ensures result.Unchanged? ==>
        && timeline == old(timeline).(current := Some(result.existing))
        && result.existing < |timeline.rows| && timeline.rows[result.existing].digest == q.digest
      ensures result.Stored? ==>
        && (exists requested :: IsRequested(old(timeline).rows, q, requested) && timeline.rows == old(timeline).rows +
              [Row(|old(timeline).rows| + 1, q.digest, FreeInstant(requested, Times(old(timeline).rows)))])
        && IsLatest(timeline.rows, timeline.current.value)
        && IsPrevious(old(timeline).rows, timeline.rows[|timeline.rows| - 1].effectiveAt, result.previous)
    {
      hide IsLatest, IsRequested, FreeInstant, IsPrevious, Consistent;
      var t := timeline;
      var rows := t.rows;
      var i := 0;
      while i < |rows| && rows[i].digest != q.digest
        invariant i <= |rows| && timeline == t && forall k :: 0 <= k < i ==> rows[k].digest != q.digest
      {
        i := i + 1;
      }
      if i < |rows| {
        Reuses(t, q, i);
        if t.current != Some(i) {
          timeline := t.(current := Some(i));
        }
        return Unchanged(i);
      }
      var requested := Requested(rows, q);
      var effective := MakeUnique(requested, Times(rows));
      var previous := PreviousChronological(rows, effective);
      Numbered(t);
      var no := LastNumber(rows);
      var version := Row(no + 1, q.digest, effective);
      var current := MaxByTime(rows + [version]);
      timeline := Timeline(rows + [version], Some(current));
      Extends(t, q, requested, version, timeline);
      result := Stored(previous);
    }
  }

  lemma Numbered(t: Timeline)
    requires Consistent(t)
    ensures forall i :: 0 <= i < |t.rows| ==> t.rows[i].no == i + 1
  {
  }

  lemma Reuses(t: Timeline, q: Request, i: nat)
    requires Consistent(t) && i < |t.rows| && t.rows[i].digest == q.digest
    ensures Upserted(t, q, t.(current := Some(i))) && Consistent(t.(current := Some(i)))
    ensures exists r :: r in t.rows && r.digest == q.digest
  {
    assert t.rows[i] in t.rows;
    assert Reverted(t, q, i, t.(current := Some(i)));
  }

  lemma Extends(t: Timeline, q: Request, requested: int, r: Row, t': Timeline)
    requires Consistent(t) && IsRequested(t.rows, q, requested)
      && forall k :: 0 <= k < |t.rows| ==> t.rows[k].digest != q.digest
    requires r == Row(|t.rows| + 1, q.digest, FreeInstant(requested, Times(t.rows)))
    requires t'.rows == t.rows + [r] && t'.current.Some? && t'.current.value < |t'.rows|
    requires forall k :: 0 <= k < |t'.rows| ==> t'.rows[k].effectiveAt <= t'.rows[t'.current.value].effectiveAt
    ensures Upserted(t, q, t') && Consistent(t') && IsLatest(t'.rows, t'.current.value)
  {
    hide IsRequested;
    AppendIsConsistent(t, r);
    assert t' == Timeline(t.rows + [r], Some(t'.current.value));
    assert Extended(t, q, requested, t'.current.value, t');
  }

  lemma AppendIsConsistent(t: Timeline, r: Row)
    requires Consistent(t) && r.no == |t.rows| + 1 && r.effectiveAt !in Times(t.rows)
    requires forall k :: 0 <= k < |t.rows| ==> t.rows[k].digest != r.digest
    ensures forall c :: 0 <= c <= |t.rows| ==> Consistent(Timeline(t.rows + [r], Some(c)))
  {
    var rows := t.rows + [r];
    forall i, k | 0 <= i < k < |rows|
      ensures rows[i].digest != rows[k].digest && rows[i].effectiveAt != rows[k].effectiveAt {
      if k == |t.rows| {
        assert rows[i] == t.rows[i] && t.rows[i] in t.rows;
      }
    }
  }

  // ----- runs of upserts ----------------------------------------------------------------------

  /** What `Upsert` ensures, as a relation between timelines. */
  ghost predicate Upserted(t: Timeline, q: Request, t': Timeline) {
    if exists r :: r in t.rows && r.digest == q.digest then
      exists i :: Reverted(t, q, i, t')
    else
      exists requested, current :: Extended(t, q, requested, current, t')
  }

  ghost predicate Reverted(t: Timeline, q: Request, i: nat, t': Timeline) {
    i < |t.rows| && t.rows[i].digest == q.digest && t' == t.(current := Some(i))
  }

  ghost predicate Extended(t: Timeline, q: Request, requested: int, current: nat, t': Timeline) {
    && IsRequested(t.rows, q, requested)
    && t' == Timeline(t.rows + [Row(|t.rows| + 1, q.digest, FreeInstant(requested, Times(t.rows)))], Some(current))
    && IsLatest(t'.rows, current)
  }

  ghost predicate Run(t: Timeline, qs: seq<Request>, t': Timeline)
    decreases qs
  {
    if qs == [] then t == t' else exists mid :: Upserted(t, qs[0], mid) && Run(mid, qs[1..], t')
  }

  lemma UpsertKeepsConsistent(t: Timeline, q: Request, t': Timeline)
    requires Consistent(t) && Upserted(t, q, t')
    ensures Consistent(t') && |t.rows| <= |t'.rows| && t'.rows[..|t.rows|] == t.rows
  {
    hide FreeInstant, IsRequested, IsLatest, Consistent, Times;
    if exists r :: r in t.rows && r.digest == q.digest {
      var i :| Reverted(t, q, i, t');
      RevertKeepsConsistent(t, q, i, t');
    } else {
      var requested, current :| Extended(t, q, requested, current, t');
      assert forall k :: 0 <= k < |t.rows| ==> t.rows[k] in t.rows;
      assert FreeInstant(requested, Times(t.rows)) !in Times(t.rows) by { FreeIsFree(requested, Times(t.rows)); }
      IsLatestInRange(t'.rows, current);
      AppendIsConsistent(t, t'.rows[|t.rows|]);
      assert t' == Timeline(t.rows + [t'.rows[|t.rows|]], Some(current));
    }
  }

  lemma RevertKeepsConsistent(t: Timeline, q: Request, i: nat, t': Timeline)
    requires Consistent(t) && Reverted(t, q, i, t')
    ensures Consistent(t') && t'.rows == t.rows
  {
  }

  lemma FreeIsFree(value: int, taken: set<int>)
    ensures FreeInstant(value, taken) !in taken
  {
  }

  lemma IsLatestInRange(rows: seq<Row>, i: nat)
    requires IsLatest(rows, i)
    ensures i < |rows|
  {
  }

  /** Over any run of upserts versions are only ever added, numbered 1..n, with pairwise distinct content and
      instants. */
  lemma {:induction false} RunKeepsConsistent(t: Timeline, qs: seq<Request>, t': Timeline)
    requires Consistent(t) && Run(t, qs, t')
    ensures Consistent(t') && |t.rows| <= |t'.rows| && t'.rows[..|t.rows|] == t.rows
    decreases qs
  {
    if qs != [] {
      var mid :| Upserted(t, qs[0], mid) && Run(mid, qs[1..], t');
      UpsertKeepsConsistent(t, qs[0], mid);
      RunKeepsConsistent(mid, qs[1..], t');
      assert t'.rows[..|mid.rows|][..|t.rows|] == t'.rows[..|t.rows|];
    }
  }

  /** The documented rule, "current is the version with the greatest instant", holds after an upsert iff the upsert
      stored a version or the content it found again was that of the latest version. */
  lemma CurrentIsLatestIff(t: Timeline, q: Request, t': Timeline)
    requires Consistent(t) && Upserted(t, q, t')
    ensures t'.current.Some?
    ensures IsLatest(t'.rows, t'.current.value) <==>
      forall i :: 0 <= i < |t.rows| && t.rows[i].digest == q.digest ==> IsLatest(t.rows, i)
  {
    if exists r :: r in t.rows && r.digest == q.digest {
      var i :| Reverted(t, q, i, t');
      forall k | 0 <= k < |t.rows| && t.rows[k].digest == q.digest ensures k == i {
      }
    } else {
      var requested, current :| Extended(t, q, requested, current, t');
      assert forall i :: 0 <= i < |t.rows| ==> t.rows[i] in t.rows;
    }
  }

  /** The rule fails when old content comes back: text "a" stored at 0 and "b" at 10, then "a" again. */
  lemma RevertedIsNotLatest(t: Timeline, q: Request)
    requires t == Timeline([Row(1, "a", 0), Row(2, "b", 10)], Some(1)) && q.digest == "a"
    ensures Consistent(t) && IsLatest(t.rows, 1)
    ensures Upserted(t, q, t.(current := Some(0))) && !IsLatest(t.rows, 0)
  {
    assert "a"[0] != "b"[0];
    assert t.rows[0] in t.rows && Reverted(t, q, 0, t.(current := Some(0)));
    assert t.rows[1].effectiveAt > t.rows[0].effectiveAt;
  }
}
