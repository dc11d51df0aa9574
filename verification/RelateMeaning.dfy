/** When a pair of claims is judged by its surface signals and what it is judged to be, in terms of the claims'
    own fields (app/claims/relate.py:219-317). */
module RelateMeaning {
  import opened Common
  import opened Signals
  import opened Dates
  import opened Relate

  /** Both have a word the other lacks. */
  ghost predicate EachLacks(left: set<string>, right: set<string>) {
    (exists w :: w in left && w !in right) && (exists w :: w in right && w !in left)
  }

  ghost predicate GivenAndDifferent(left: string, right: string) {
    |left| > 0 && |right| > 0 && left != right
  }

  /** The claims are about different things, or qualified differently. Without two subjects to compare, what is
      counted and what is measured stand in for them. */
  ghost predicate Apart(a: Claim, b: Claim) {
    || GivenAndDifferent(a.subject, b.subject)
    || GivenAndDifferent(a.predicateField, b.predicateField)
    || (exists t :: (t in a.tags && t !in b.tags) || (t in b.tags && t !in a.tags))
    || ((a.subject == "" || b.subject == "")
      && (GivenAndDifferent(a.countHead, b.countHead) || EachLacks(a.slot, b.slot)))
  }

  lemma DefersMeans(a: Claim, b: Claim)
    ensures Defers(a, b) <==> Apart(a, b)
  {
    assert a.tags == b.tags <==> forall t :: t in a.tags <==> t in b.tags;
    Lacking(a.slot, b.slot);
    Lacking(b.slot, a.slot);
  }

  lemma Lacking(left: set<string>, right: set<string>)
    ensures left - right != {} <==> exists w :: w in left && w !in right
  {
    if left - right != {} {
      var w :| w in left - right;
    }
    if w :| w in left && w !in right {
      assert w in left - right;
    }
  }

  /** The numbers of the two statements are at odds: a comparable quantity of the first finds no match in the
      second; or nothing is comparable, some are compatible, and none of those match. */
  ghost predicate NumbersAtOdds(a: Claim, b: Claim) {
    || Unconfirmed(a.quantities, b.quantities)
    || (!SomeComparable(a.quantities, b.quantities)
        && (exists x, y :: x in a.quantities && y in b.quantities && DimensionallyCompatible(x, y))
        && (forall x, y :: x in a.quantities && y in b.quantities && DimensionallyCompatible(x, y) ==>
          !ValuesMatch(x, y)))
  }

  /** One statement is a negation and the other is not, and they share a word. */
  ghost predicate NegationAtOdds(a: Claim, b: Claim) {
    a.negated != b.negated && exists w :: w in a.stems && w in b.stems
  }

  ghost predicate DatesAtOdds(a: Claim, b: Claim) {
    DateConflict(a.schedules && b.schedules, a.dates, b.dates) == Some(true)
  }

  /** `n` announces a change, and was asserted after `o`. */
  ghost predicate Announces(n: Claim, o: Claim) {
    n.cue && n.assertedAt.Some? && o.assertedAt.Some? && n.assertedAt.value > o.assertedAt.value
  }

  lemma NumbersMean(a: Claim, b: Claim)
    ensures NumbersAtOdds(a, b) <==>
      NumbersConflict(a.quantities, b.quantities) == Some(true) || NumbersDiffer(a.quantities, b.quantities)
  {
    hide Unconfirmed, SomeComparable, DimensionallyCompatible, ValuesMatch, ComparableWith, Confirmed, NumbersConflict;
    ConflictMeans(a.quantities, b.quantities);
    NoConflictHere(a.quantities, b.quantities);
    UnconfirmedIsComparable(a.quantities, b.quantities);
  }

  lemma NoConflictHere(qa: seq<Quantity>, qb: seq<Quantity>)
    ensures SomeCompatible(qa, qb) <==> exists x, y :: x in qa && y in qb && DimensionallyCompatible(x, y)
    ensures SomeCompatibleMatch(qa, qb) <==>
      !forall x, y :: x in qa && y in qb && DimensionallyCompatible(x, y) ==> !ValuesMatch(x, y)
  {
    hide DimensionallyCompatible, ValuesMatch;
  }

  lemma NegationMeans(a: Claim, b: Claim)
    ensures NegationAsymmetry(a, b) <==> NegationAtOdds(a, b)
  {
    if a.stems * b.stems != {} {
      var w :| w in a.stems * b.stems;
    }
    if w :| w in a.stems && w in b.stems {
      assert w in a.stems * b.stems;
    }
  }

  lemma UpdateMeans(a: Claim, b: Claim, s: Reading, differ: bool)
    requires a.id != b.id
    ensures Rescheduled(s, differ, Newer(a, b), Older(a, b)) <==>
      (s.dates == Some(true) || s.numbers == Some(true) || differ) && (Announces(a, b) || Announces(b, a))
    ensures Rescheduled(s, differ, Newer(a, b), Older(a, b)) ==> (Newer(a, b).id == a.id <==> Announces(a, b))
  {
  }

  /** The whole judgement. Claims that are apart are left to the model. Otherwise: statements at odds that share
      words are a contradiction, or a supersession by the later one where its numbers or dates say so and it
      announces the change; near-identical statements whose numbers agree are duplicates; and statements that
      share half their words and are at odds in nothing support each other. Nothing else is related. */
  lemma JudgementMeans(a: Claim, b: Claim, similarity: real, dupSim: real)
    requires a.id != b.id
    ensures var d := HeuristicRelation(a, b, similarity, dupSim);
            var numbers, dates, negation := NumbersAtOdds(a, b), DatesAtOdds(a, b), NegationAtOdds(a, b);
            var overlap := Overlap(a.tokens, b.tokens);
            var disagree := (numbers || dates || negation) && overlap >= 0.2;
            var update := (numbers || dates) && (Announces(a, b) || Announces(b, a));
      if Apart(a, b) then d.None?
      else if disagree && update then
        d.Some? && d.value.relation == Supersedes && d.value.direction == Some(if Announces(a, b) then AToB else BToA)
        && d.value.confidence == 0.65
      else if disagree then
        d.Some? && d.value.relation == Contradicts && d.value.direction == None
        && d.value.confidence == 0.5 + (if numbers then 0.1 else 0.0) + (if dates then 0.1 else 0.0)
          + (if negation then 0.1 else 0.0)
      else if similarity >= dupSim && !numbers then
        d.Some? && d.value.relation == Duplicate && d.value.direction == None && d.value.confidence == 0.7
      else if overlap >= 0.5 && !numbers && !dates && !negation then
        d.Some? && d.value.relation == Supports && d.value.direction == None
        && d.value.confidence == 0.55 + 0.2 * (overlap - 0.5)
      else d.None?
  {
    hide NumbersConflict, NumbersDiffer, NumbersAtOdds, Defers, Apart, Rescheduled, NegationAsymmetry, NegationAtOdds,
      DateConflict, Overlap, Announces, IsNewer;
    DefersMeans(a, b);
    NumbersMean(a, b);
    NegationMeans(a, b);
    UpdateMeans(a, b, Read(a, b, similarity), NumbersDiffer(a.quantities, b.quantities));
  }

  // ---------------------------------------------------------------- what is stored

  /** A stored supersession names one claim of the pair as the newer: the one its draft named. */
  lemma StoredDirectionMeans(rows: map<Pair, Row>, a: Claim, b: Claim, draft: Draft, judge: Method)
    requires a.id != b.id && draft.direction.Some?
    ensures var p := PairOf(a.id, b.id);
      p in rows && rows[p].userLabel.Some? ==> Stored(rows, a.id, b.id, draft, judge) == rows
    ensures var p, after := PairOf(a.id, b.id), Stored(rows, a.id, b.id, draft, judge);
      (p in rows ==> rows[p].userLabel.None?) ==>
        p in after && after[p].direction.Some?
        && (NewerOf(a, b, after[p]).id == if draft.direction == Some(AToB) then a.id else b.id)
  {
  }

  /** Storing touches the pair's own row only, and not even that where the user has labelled it; it takes the draft
      over, and keeps what the row says about the user and about its being resolved. */
  lemma StoringMeans(rows: map<Pair, Row>, a: nat, b: nat, draft: Draft, judge: Method)
    requires a != b
    ensures var p, after := PairOf(a, b), Stored(rows, a, b, draft, judge);
      && after.Keys == rows.Keys + {p}
      && (forall q :: q in rows && q != p ==> after[q] == rows[q])
      && (if p in rows && rows[p].userLabel != None then after[p] == rows[p]
          else
            && after[p].relation == draft.relation && after[p].confidence == draft.confidence
            && after[p].signals == draft.signals && after[p].judge == judge && after[p].userLabel == None
            && after[p].resolvedAt == (if p in rows then rows[p].resolvedAt else None)
            && (after[p].direction.Some? <==> draft.direction.Some?))
  {
  }

  // ---------------------------------------------------------------- what a relation implies

  /** An unresolved contradiction with the claim on one side and `other` on the other. */
  ghost predicate Disputes(rows: map<Pair, Row>, p: Pair, claim: nat, other: nat) {
    && p in rows && rows[p].relation == Contradicts && rows[p].resolvedAt == None
    && (p == Pair(claim, other) || p == Pair(other, claim))
  }

  /** Closing a claim's conflicts: every unresolved contradiction it is party to is resolved now, with one event that
      names the other side, and nothing else changes. */
  lemma ClosingMeans(s: State, claim: nat, now: int)
    ensures var after := Closed(s, claim, now);
      && after.lives == s.lives && after.rows.Keys == s.rows.Keys
      && (forall p :: p in s.rows ==>
           after.rows[p] == if exists other ::
             Disputes(s.rows, p, claim, other) then s.rows[p].(resolvedAt := Some(now)) else s.rows[p])
      && (forall e :: e in after.events <==>
           e in s.events || exists p, other ::
             Disputes(s.rows, p, claim, other) && e == Event(ConflictResolved, claim, other, now, now))
  {
    var after := Closed(s, claim, now);
    forall p ensures p in OpenPairs(s.rows, claim) <==> exists other :: Disputes(s.rows, p, claim, other) {
      if p in OpenPairs(s.rows, claim) {
        assert Disputes(s.rows, p, claim, OtherThan(p, claim));
      }
    }
    forall p, other | Disputes(s.rows, p, claim, other) ensures OtherThan(p, claim) == other {
    }
    forall e ensures e in after.events <==>
      e in s.events || exists p, other ::
        Disputes(s.rows, p, claim, other) && e == Event(ConflictResolved, claim, other, now, now)
    {
      if p :| p in OpenPairs(s.rows, claim) && e == Event(ConflictResolved, claim, OtherThan(p, claim), now, now) {
        assert Disputes(s.rows, p, claim, OtherThan(p, claim));
      }
      if p, other :| Disputes(s.rows, p, claim, other) && e == Event(ConflictResolved, claim, other, now, now) {
        assert p in OpenPairs(s.rows, claim) && OtherThan(p, claim) == other;
      }
    }
  }

  /** Whatever a stored relation implies, once: an unresolved contradiction tells each side that has not been told, at
      the later of the two instants; a supersession ends the older claim at the newer one's instant, tells it, and
      closes its conflicts, unless it is a note or has been superseded before; nothing else has any effect. */
  lemma EffectsMean(s: State, a: Claim, b: Claim, row: Row, now: int)
    requires Known(s, a, b)
    ensures var after, newer := Effects(s, a, b, row, now), NewerOf(a, b, row);
      var older := if newer == a then b else a;
      if row.relation == Contradicts && row.resolvedAt == None then
        && after.rows == s.rows && after.lives == s.lives
        && var at := if a.assertedAt.value < b.assertedAt.value then b.assertedAt.value else a.assertedAt.value;
           forall e :: e in after.events <==>
             || e in s.events
             || (e == Event(ConflictOpened, a.id, b.id, at, now) && !Told(s.events, a.id, b.id))
             || (e == Event(ConflictOpened, b.id, a.id, at, now) && !Told(s.events, b.id, a.id))
      else if row.relation == Supersedes && !older.note && s.lives[older.id].status != Reconcile.Status.Superseded then
        && newer.assertedAt.Some?
        && var at := newer.assertedAt.value;
           after == Closed(State(s.rows,
             s.lives[older.id := Reconcile.Life(Reconcile.Status.Superseded, Some(at), Some(newer.id))],
                                 s.events + {Event(WasSuperseded, older.id, newer.id, at, now)}), older.id, now)
      else after == s
  {
    hide Closed;
  }

  /** The claim has been told that its conflict with `other` opened. */
  ghost predicate Told(events: set<Event>, claim: nat, other: nat) {
    exists at, seen :: Event(ConflictOpened, claim, other, at, seen) in events
  }
}
