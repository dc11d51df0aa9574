/** Which instant a stored version is given (app/ingestion/versions.py:168-182, 221-230). */
module VersionMeaning {
  import opened Common
  import opened Versions

  /** The instants tried one after the other: the one asked for, then one microsecond, one second and one minute
      after it; and so on, each time from a day and a minute later. */
  function Candidate(value: int, k: nat): int {
    value + (k / 4) * 86_460_000_000 + (match k % 4 case 0 => 0 case 1 => 1 case 2 => 1_000_000 case _ => 60_000_000)
  }

  ghost predicate IsFirstFree(value: int, taken: set<int>, k: nat) {
    Candidate(value, k) !in taken && forall i :: 0 <= i < k ==> Candidate(value, i) in taken
  }

  /** The bump loop ends at the first of these instants that no other version has. */
  lemma {:induction false} InstantIsFirstFree(value: int, taken: set<int>) returns (k: nat)
    ensures IsFirstFree(value, taken, k) && FreeInstant(value, taken) == Candidate(value, k)
    decreases NoEarlier(taken, value)
  {
    FirstFour(value);
    if value !in taken {
      k := 0;
    } else if value + 1 !in taken {
      k := 1;
    } else if value + 1_000_000 !in taken {
      k := 2;
    } else if value + 60_000_000 !in taken {
      k := 3;
    } else {
      Shrinks(taken, value, value + 86_460_000_000);
      var n := InstantIsFirstFree(value + 86_460_000_000, taken);
      k := n + 4;
      Later(value, n);
      forall i | 0 <= i < k ensures Candidate(value, i) in taken {
        if i >= 4 {
          Later(value, i - 4);
        }
      }
    }
  }

  lemma FirstFour(value: int)
    ensures Candidate(value, 0) == value && Candidate(value, 1) == value + 1
    ensures Candidate(value, 2) == value + 1_000_000 && Candidate(value, 3) == value + 60_000_000
  {
  }

  lemma Later(value: int, k: nat)
    ensures Candidate(value, k + 4) == Candidate(value + 86_460_000_000, k)
  {
    assert (k + 4) / 4 == k / 4 + 1 && (k + 4) % 4 == k % 4;
  }

  /** The first of the instants that is given. */
  function FirstGiven(published: Option<int>, fetched: Option<int>, now: int): int {
    match (published, fetched)
    case (Some(t), _) => t
    case (None, Some(t)) => t
    case (None, None) => now
  }

  /** What is asked for: an instant given with the text; else, for a first version, when it was published, fetched or
      received; else when it was published, if that is after every version so far, or when it was fetched or
      received. */
  lemma RequestMeans(rows: seq<Row>, q: Request, instant: int)
    ensures IsRequested(rows, q, instant) <==>
      if q.effectiveAt != None then q.effectiveAt == Some(instant)
      else if (exists k :: 0 <= k < |rows| && (q.publishedAt.Some? ==> rows[k].effectiveAt >= q.publishedAt.value))
        then instant == FirstGiven(None, q.fetchedAt, q.now)
      else instant == FirstGiven(q.publishedAt, q.fetchedAt, q.now)
  {
    if q.effectiveAt.None? && rows != [] {
      var first := rows[0];
    }
  }

  /** The version a new one is compared with: no version lies between the two, and there is none before it only when
      the new one is the earliest. */
  lemma PreviousMeans(rows: seq<Row>, instant: int, previous: Option<nat>)
    requires IsPrevious(rows, instant, previous) && forall k :: 0 <= k < |rows| ==> rows[k].effectiveAt != instant
    ensures previous.None? <==> forall k :: 0 <= k < |rows| ==> instant < rows[k].effectiveAt
    ensures previous.Some? ==>
      previous.value < |rows| && rows[previous.value].effectiveAt < instant
      && !exists k :: 0 <= k < |rows| && rows[previous.value].effectiveAt < rows[k].effectiveAt < instant
  {
  }
}
