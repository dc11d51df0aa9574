/** Judging pairs of claims from surface signals, storing the relation, and what a relation implies
    (app/claims/relate.py). A claim carries the signals its statement was found to have. */
module Relate {
  import opened Common
  import opened Signals
  import opened Dates
  import Reconcile

  datatype Claim = Claim(
    id: nat,
    assertedAt: Option<int>,
    note: bool,
    subject: string, predicateField: string, tags: set<string>, countHead: string, slot: set<string>,
    tokens: seq<string>, quantities: seq<Quantity>, dates: seq<DateRef>,
    schedules: bool, negated: bool, stems: set<string>, cue: bool)

  datatype Relation = Contradicts | Supersedes | Duplicate | Supports

  datatype Direction = AToB | BToA

  datatype Reading = Reading(
      numbers: Option<bool>, dates: Option<bool>, negation: bool, overlap: real, similarity: real)

  datatype Draft = Draft(relation: Relation, direction: Option<Direction>, confidence: real, signals: Reading)

  const MIN_F1 := 0.2

  // ---------------------------------------------------------------- the decision

  predicate FieldsDiffer(left: string, right: string) {
    left != "" && right != "" && left != right
  }

  /** `_defer_to_llm`. */
  predicate Defers(a: Claim, b: Claim) {
    if FieldsDiffer(a.subject, b.subject) || FieldsDiffer(a.predicateField, b.predicateField) then true
    else if a.tags != b.tags then true
    else if a.subject != "" && b.subject != "" then false
    else if FieldsDiffer(a.countHead, b.countHead) then true
    else if a.slot == {} || b.slot == {} then false
    else a.slot - b.slot != {} && b.slot - a.slot != {}
  }

  /** `negation_asymmetry`. */
  predicate NegationAsymmetry(a: Claim, b: Claim) {
    a.negated != b.negated && a.stems * b.stems != {}
  }

  function Read(a: Claim, b: Claim, similarity: real): Reading {
    Reading(NumbersConflict(a.quantities, b.quantities), DateConflict(a.schedules && b.schedules, a.dates, b.dates),
            NegationAsymmetry(a, b), Overlap(a.tokens, b.tokens), similarity)
  }

  /** `order_by_asserted_at`: is `a` the newer one? */
  predicate IsNewer(a: Claim, b: Claim) {
    if a.assertedAt.None? && b.assertedAt.None? then a.id >= b.id
    else if a.assertedAt.None? then false
    else if b.assertedAt.None? then true
    else a.assertedAt.value > b.assertedAt.value || (a.assertedAt.value == b.assertedAt.value && a.id >= b.id)
  }

  function Newer(a: Claim, b: Claim): Claim {
    if IsNewer(a, b) then a else b
  }

  function Older(a: Claim, b: Claim): Claim {
    if IsNewer(a, b) then b else a
  }

  function One(flag: bool): int {
    if flag then 1 else 0
  }

  /** The newer statement says that the value or the date it gives is a change. */
  predicate Rescheduled(s: Reading, differ: bool, newer: Claim, older: Claim) {
    && (s.dates == Some(true) || s.numbers == Some(true) || differ) && newer.cue
    && newer.assertedAt.Some? && older.assertedAt.Some? && newer.assertedAt.value > older.assertedAt.value
  }

  /** The branches of `heuristic_relation`, once the signals are read. */
  function Decision(a: Claim, b: Claim, s: Reading, differ: bool, dupSim: real): Option<Draft> {
    var conflicting := s.numbers == Some(true) || differ || s.dates == Some(true) || s.negation;
    if conflicting && s.overlap >= MIN_F1 then
      if Rescheduled(s, differ, Newer(a, b), Older(a, b)) then
        Some(Draft(Supersedes, Some(if Newer(a, b).id == a.id then AToB else BToA), 0.65, s))
      else
        var fired := One(s.numbers == Some(true) || differ) + One(s.dates == Some(true)) + One(s.negation);
        Some(Draft(Contradicts, None, 0.6 + 0.1 * (fired - 1) as real, s))
    else if s.similarity >= dupSim && s.numbers != Some(true) && !differ then Some(Draft(Duplicate, None, 0.7, s))
    else if s.overlap >= 0.5 && s.numbers != Some(true) && !differ && s.dates != Some(true) && !s.negation then
      Some(Draft(Supports, None, 0.55 + 0.2 * (s.overlap - 0.5), s))
    else None
  }

  /** `heuristic_relation`. */
  function HeuristicRelation(a: Claim, b: Claim, similarity: real, dupSim: real): Option<Draft> {
    if Defers(a, b) then None
    else Decision(a, b, Read(a, b, similarity), NumbersDiffer(a.quantities, b.quantities), dupSim)
  }

  /** The decision, made with the loops that compute the signals. */
  method JudgePair(a: Claim, b: Claim, similarity: real, dupSim: real) returns (draft: Option<Draft>)
    ensures draft == HeuristicRelation(a, b, similarity, dupSim)
  {
    hide NumbersConflict, NumbersDiffer, DateConflict, Overlap, Defers, NegationAsymmetry, Decision;
    if Defers(a, b) {
      return None;
    }
    var numbers := CompareNumbers(a.quantities, b.quantities);
    var dates, _, _ := DateConflictDetail(a.schedules, b.schedules, a.dates, b.dates);
    var negation := NegationAsymmetry(a, b);
    var overlap := TokenF1(a.tokens, b.tokens);
    draft := Decide(a, b, Reading(numbers, dates, negation, overlap, similarity),
      NumbersDiffer(a.quantities, b.quantities), dupSim);
  }

  method Decide(a: Claim, b: Claim, s: Reading, differ: bool, dupSim: real) returns (draft: Option<Draft>)
    ensures draft == Decision(a, b, s, differ, dupSim)
  {
    if (s.numbers == Some(true) || differ || s.dates == Some(true) || s.negation) && s.overlap >= MIN_F1 {
      if a.assertedAt.Some? && b.assertedAt.Some? {
        var newer, older := Newer(a, b), Older(a, b);
        var rescheduled := (s.dates == Some(true) || s.numbers == Some(true) || differ) && newer.cue;
        if rescheduled && newer.assertedAt.value > older.assertedAt.value {
          return Some(Draft(Supersedes, Some(if newer.id == a.id then AToB else BToA), 0.65, s));
        }
      }
      var fired := 0;
      if s.numbers == Some(true) || differ {
        fired := fired + 1;
      }
      if s.dates == Some(true) {
        fired := fired + 1;
      }
      if s.negation {
        fired := fired + 1;
      }
      return Some(Draft(Contradicts, None, 0.6 + 0.1 * (fired - 1) as real, s));
    }
    if s.similarity >= dupSim && s.numbers != Some(true) && !differ {
      return Some(Draft(Duplicate, None, 0.7, s));
    }
    if s.overlap >= 0.5 && s.numbers != Some(true) && !differ && s.dates != Some(true) && !s.negation {
      return Some(Draft(Supports, None, 0.55 + 0.2 * (s.overlap - 0.5), s));
    }
    return None;
  }

  // ---------------------------------------------------------------- what a decision means

  predicate NumbersFired(s: Reading, differ: bool) {
    s.numbers == Some(true) || differ
  }

  /** Some signal says that the two statements cannot both be true. */
  predicate Conflicting(s: Reading, differ: bool) {
    NumbersFired(s, differ) || s.dates == Some(true) || s.negation
  }

  /** When each outcome is reached: a disagreement needs a conflicting signal and overlap, and becomes a
      supersession when the newer statement announces the change; agreement needs numbers that agree,
      and is a duplicate by similarity alone, whatever the dates and the negation say. */
  lemma DecisionMeans(a: Claim, b: Claim, s: Reading, differ: bool, dupSim: real)
    ensures var d := Decision(a, b, s, differ, dupSim);
            var disagree := Conflicting(s, differ) && s.overlap >= MIN_F1;
            var update := Rescheduled(s, differ, Newer(a, b), Older(a, b));
      && (d.Some? && d.value.relation == Supersedes <==> disagree && update)
      && (d.Some? && d.value.relation == Contradicts <==> disagree && !update)
      && (d.Some? && d.value.relation == Duplicate <==> !disagree && s.similarity >= dupSim && !NumbersFired(s, differ))
      && (d.Some? && d.value.relation == Supports <==>
        !Conflicting(s, differ) && s.similarity < dupSim && s.overlap >= 0.5)
      && (d.Some? ==> d.value.signals == s && (d.value.direction.Some? <==> d.value.relation == Supersedes))
  {
  }

  /** The confidence at which a relation may fuse two clusters. */
  const MERGE_CONFIDENCE := 0.75

  /** Of the heuristic's drafts only a contradiction on which numbers, dates and negation all agree is
      confident enough to fuse clusters. */
  lemma OnlyThreefoldContradictionsFuse(a: Claim, b: Claim, s: Reading, differ: bool, dupSim: real)
    requires s.overlap <= 1.0
    ensures var d := Decision(a, b, s, differ, dupSim);
      d.Some? ==> (d.value.confidence >= MERGE_CONFIDENCE <==>
        d.value.relation == Contradicts && NumbersFired(s, differ) && s.dates == Some(true) && s.negation)
  {
    var fired := One(NumbersFired(s, differ)) + One(s.dates == Some(true)) + One(s.negation);
    assert fired == 0 || fired == 1 || fired == 2 || fired == 3;
  }

  // ---------------------------------------------------------------- when judging is order-free

  function Opposite(d: Direction): Direction {
    if d == AToB then BToA else AToB
  }

  function Flip(d: Draft): Draft {
    if d.direction.None? then d else d.(direction := Some(Opposite(d.direction.value)))
  }

  function FlipAny(d: Option<Draft>): Option<Draft> {
    if d.None? then None else Some(Flip(d.value))
  }

  /** Exactly one of the statements has a comparable quantity that the other leaves without a match. */
  ghost predicate OneSided(a: Claim, b: Claim) {
    Unconfirmed(a.quantities, b.quantities) != Unconfirmed(b.quantities, a.quantities)
  }

  /** The pair is deferred, or its numbers are not one-sided, or it is neither near enough in words to
      be related nor near enough in meaning to be a duplicate. */
  ghost predicate OrderFree(a: Claim, b: Claim, similarity: real, dupSim: real) {
    Defers(a, b) || !OneSided(a, b) || (Overlap(a.tokens, b.tokens) < MIN_F1 && similarity < dupSim)
  }

  /** Every signal but the numbers is symmetric, and so is the decision to defer. */
  lemma OnlyNumbersDependOnOrder(a: Claim, b: Claim, similarity: real)
    ensures Read(b, a, similarity) == Read(a, b, similarity).(numbers := NumbersConflict(b.quantities, a.quantities))
    ensures Defers(a, b) == Defers(b, a)
  {
    hide NumbersConflict, DateConflict, Overlap;
    DateConflictIsSymmetric(a.schedules && b.schedules, a.dates, b.dates);
    OverlapIsSymmetric(a.tokens, b.tokens);
    assert a.stems * b.stems == b.stems * a.stems;
  }

  lemma OneIsNewer(a: Claim, b: Claim)
    requires a.id != b.id
    ensures IsNewer(a, b) != IsNewer(b, a)
    ensures Newer(a, b) == Newer(b, a) && Older(a, b) == Older(b, a) && Newer(a, b).id != Older(a, b).id
  {
  }

  lemma DecisionIsOrderFree(a: Claim, b: Claim, s: Reading, differ: bool, dupSim: real)
    requires a.id != b.id
    ensures Decision(b, a, s, differ, dupSim) == FlipAny(Decision(a, b, s, differ, dupSim))
  {
    hide IsNewer, Rescheduled;
    OneIsNewer(a, b);
  }

  /** With numbers that conflict in one reading and not in the other, the two decisions agree only on
      pairs that neither relates. */
  lemma OneSidedDecisions(a: Claim, b: Claim, s: Reading, dupSim: real)
    ensures var yes, no := Decision(a, b, s.(numbers := Some(true)), true, dupSim),
      Decision(b, a, s.(numbers := Some(false)), false, dupSim);
      && (no == FlipAny(yes) <==> s.overlap < MIN_F1 && s.similarity < dupSim)
      && (yes == FlipAny(no) <==> s.overlap < MIN_F1 && s.similarity < dupSim)
      && (yes.None? && no.None? <==> s.overlap < MIN_F1 && s.similarity < dupSim)
  {
    hide IsNewer, Rescheduled;
  }

  lemma NumbersWhenOneSided(a: Claim, b: Claim)
    requires Unconfirmed(a.quantities, b.quantities) && !Unconfirmed(b.quantities, a.quantities)
    ensures NumbersConflict(a.quantities, b.quantities) == Some(true)
      && NumbersConflict(b.quantities, a.quantities) == Some(false)
    ensures NumbersDiffer(a.quantities, b.quantities) && !NumbersDiffer(b.quantities, a.quantities)
  {
    hide ComparableWith, Confirmed, SomeComparable, Unconfirmed;
    var x, y := a.quantities, b.quantities;
    ConflictMeans(x, y);
    ConflictMeans(y, x);
    UnconfirmedIsComparable(x, y);
    SidesShareComparables(x, y);
    assert NumbersConflict(x, y).value && !NumbersConflict(y, x).value;
  }

  /** Exactly when the decision is the same whichever claim comes first, with the direction reversed. */
  lemma JudgingIsOrderFreeIff(a: Claim, b: Claim, similarity: real, dupSim: real)
    requires a.id != b.id
    ensures HeuristicRelation(b, a, similarity, dupSim) == FlipAny(HeuristicRelation(a, b, similarity, dupSim)) <==>
      OrderFree(a, b, similarity, dupSim)
  {
    hide Read, NumbersConflict, NumbersDiffer, Unconfirmed, Defers, Decision, FlipAny;
    OnlyNumbersDependOnOrder(a, b, similarity);
    var s := Read(a, b, similarity);
    ReadingOf(a, b, similarity);
    if !Defers(a, b) {
      if !OneSided(a, b) {
        NumbersConflictIsSymmetricIff(a.quantities, b.quantities);
        NumbersDifferIsSymmetricIff(a.quantities, b.quantities);
        assert Read(b, a, similarity) == s;
        DecisionIsOrderFree(a, b, s, NumbersDiffer(a.quantities, b.quantities), dupSim);
      } else if Unconfirmed(a.quantities, b.quantities) {
        NumbersWhenOneSided(a, b);
        assert s == s.(numbers := Some(true));
        OneSidedDecisions(a, b, s, dupSim);
      } else {
        NumbersWhenOneSided(b, a);
        assert s == s.(numbers := Some(false));
        OneSidedDecisions(b, a, s, dupSim);
      }
    } else {
      DeferredIsNone(a, b, similarity, dupSim);
    }
  }

  lemma ReadingOf(a: Claim, b: Claim, similarity: real)
    ensures var s := Read(a, b, similarity);
      s.numbers == NumbersConflict(a.quantities, b.quantities) && s.overlap == Overlap(a.tokens, b.tokens)
        && s.similarity == similarity
  {
  }

  lemma DeferredIsNone(a: Claim, b: Claim, similarity: real, dupSim: real)
    requires Defers(a, b) && Defers(b, a)
    ensures HeuristicRelation(a, b, similarity, dupSim) == None
      && HeuristicRelation(b, a, similarity, dupSim) == FlipAny(None)
  {
  }

  function Stating(id: nat, quantities: seq<Quantity>): Claim {
    Claim(id, Some(0), false, "", "", {}, "", {}, ["distance"], quantities, [], false, false, {}, false)
  }

  /** It is not always: "10 km" judged against "10 km and 20 km" supports it, and is contradicted by it. */
  lemma OrderDecides(a: Claim, b: Claim)
    requires a == Stating(1, [Kilometres(10.0)]) && b == Stating(2, [Kilometres(10.0), Kilometres(20.0)])
    ensures var d, e := HeuristicRelation(a, b, 0.0, 0.9), HeuristicRelation(b, a, 0.0, 0.9);
      d.Some? && e.Some? && d.value.relation == Supports && e.value.relation == Contradicts
  {
    hide NumbersConflict, NumbersDiffer;
    ExtraQuantityIsSeenFromOneSideOnly(a.quantities, b.quantities);
    assert multiset(["distance"]) * multiset(["distance"]) == multiset(["distance"]);
    assert Overlap(a.tokens, b.tokens) == 1.0;
  }

  /** A supersession found by the heuristic names the strictly later claim as the newer one. */
  lemma SupersedesIsLater(a: Claim, b: Claim, similarity: real, dupSim: real)
    requires a.id != b.id
    requires var d := HeuristicRelation(a, b, similarity, dupSim); d.Some? && d.value.relation == Supersedes
    ensures var d := HeuristicRelation(a, b, similarity, dupSim).value;
      && d.direction == Some(if Newer(a, b).id == a.id then AToB else BToA)
      && Newer(a, b).assertedAt.Some? && Older(a, b).assertedAt.Some?
      && Newer(a, b).assertedAt.value > Older(a, b).assertedAt.value && Newer(a, b).cue
  {
    hide Read, NumbersDiffer, Defers, IsNewer;
  }

  // ---------------------------------------------------------------- the stored relation

  /** A relation's key: the smaller claim id first. */
  datatype Pair = Pair(first: nat, second: nat)

  datatype Method = Heuristic | Llm | User

  datatype Row = Row(relation: Relation, direction: Option<Direction>, confidence: real, signals: Reading,
      judge: Method,
                     userLabel: Option<string>, resolvedAt: Option<int>)

  function PairOf(x: nat, y: nat): (p: Pair)
    ensures x == y || p.first < p.second
    ensures {p.first, p.second} == {x, y}
  {
    if x < y then Pair(x, y) else Pair(y, x)
  }

  /** The row a draft on `(a, b)` becomes, where `old` is what is stored. */
  function RowFor(a: nat, b: nat, draft: Draft, judge: Method, was: Option<Row>): Row {
    var direction := if a < b then draft.direction else Flip(draft).direction;
    if was.None? then Row(draft.relation, direction, draft.confidence, draft.signals, judge, None, None)
    else was.value.(relation := draft.relation, direction := direction, confidence := draft.confidence,
      signals := draft.signals, judge := judge)
  }

  function Lookup(rows: map<Pair, Row>, p: Pair): Option<Row> {
    if p in rows then Some(rows[p]) else None
  }

  predicate Labelled(rows: map<Pair, Row>, p: Pair) {
    p in rows && rows[p].userLabel.Some?
  }

  /** The table after storing a draft: a user's label outranks whatever is derived. */
  function Stored(rows: map<Pair, Row>, a: nat, b: nat, draft: Draft, judge: Method): map<Pair, Row> {
    var p := PairOf(a, b);
    if a == b || Labelled(rows, p) then rows else rows[p := RowFor(a, b, draft, judge, Lookup(rows, p))]
  }

  /** The stored row is the same whichever way the pair arrives. */
  lemma StoringIsOrderFree(rows: map<Pair, Row>, a: nat, b: nat, draft: Draft, judge: Method)
    ensures Stored(rows, a, b, draft, judge) == Stored(rows, b, a, Flip(draft), judge)
  {
  }

  /** The table after judging a pair: nothing is stored when the pair is deferred or unrelated. */
  function JudgedRows(rows: map<Pair, Row>, a: Claim, b: Claim, similarity: real, dupSim: real): map<Pair, Row> {
    var d := HeuristicRelation(a, b, similarity, dupSim);
    if d.None? then rows else Stored(rows, a.id, b.id, d.value, Heuristic)
  }

  /** Judging and storing a pair leaves one canonical row in either order when the judgement is
      order-free, and for a pair not stored before exactly then. */
  lemma OneCanonicalRow(rows: map<Pair, Row>, a: Claim, b: Claim, similarity: real, dupSim: real)
    requires a.id != b.id
    ensures OrderFree(a, b, similarity, dupSim) ==>
      JudgedRows(rows, a, b, similarity, dupSim) == JudgedRows(rows, b, a, similarity, dupSim)
    ensures PairOf(a.id, b.id) !in rows ==>
      (JudgedRows(rows, a, b, similarity, dupSim) == JudgedRows(rows, b, a, similarity, dupSim) <==>
        OrderFree(a, b, similarity, dupSim))
  {
    hide HeuristicRelation, Stored, OrderFree;
    JudgingIsOrderFreeIff(a, b, similarity, dupSim);
    var d, e := HeuristicRelation(a, b, similarity, dupSim), HeuristicRelation(b, a, similarity, dupSim);
    if d.Some? {
      StoringIsOrderFree(rows, a.id, b.id, d.value, Heuristic);
      if PairOf(a.id, b.id) !in rows {
        StoredTells(rows, a.id, b.id, d.value);
      }
    }
    if e.Some? && PairOf(a.id, b.id) !in rows {
      StoredTells(rows, b.id, a.id, e.value);
    }
    if d.Some? && e.Some? && PairOf(a.id, b.id) !in rows
      && RowFor(a.id, b.id, d.value, Heuristic, None) == RowFor(b.id, a.id, e.value, Heuristic, None) {
      RowTellsDraft(a.id, b.id, d.value, e.value);
    }
  }

  lemma StoredTells(rows: map<Pair, Row>, a: nat, b: nat, draft: Draft)
    requires a != b && PairOf(a, b) !in rows
    ensures PairOf(a, b) == PairOf(b, a) && PairOf(a, b) in Stored(rows, a, b, draft, Heuristic)
    ensures Stored(rows, a, b, draft, Heuristic)[PairOf(a, b)] == RowFor(a, b, draft, Heuristic, None)
  {
  }

  /** A fresh row determines the draft it came from, up to the order of the pair. */
  lemma RowTellsDraft(a: nat, b: nat, d: Draft, e: Draft)
    requires a != b && RowFor(a, b, d, Heuristic, None) == RowFor(b, a, e, Heuristic, None)
    ensures e == Flip(d)
  {
  }

  // ---------------------------------------------------------------- what a relation implies

  datatype Kind = WasSuperseded | ConflictOpened | ConflictResolved

  datatype Event = Event(kind: Kind, claim: nat, related: nat, at: int, observedAt: int)

  /** The relations, the claims' bookkeeping, and the events written so far. */
  datatype State = State(rows: map<Pair, Row>, lives: Reconcile.Lives, events: set<Event>)

  /** An unresolved contradiction that `claim` is party to. */
  predicate OpenFor(rows: map<Pair, Row>, p: Pair, claim: nat) {
    p in rows && rows[p].relation == Contradicts && rows[p].resolvedAt.None? && (p.first == claim || p.second == claim)
  }

  function OtherThan(p: Pair, claim: nat): nat {
    if p.first == claim then p.second else p.first
  }

  function OpenPairs(rows: map<Pair, Row>, claim: nat): set<Pair> {
    set p | p in rows && OpenFor(rows, p, claim)
  }

  /** The relations `done` are closed, each with its event. */
  function ClosedOnly(s: State, done: set<Pair>, claim: nat, now: int): State {
    s.(rows := map p | p in s.rows :: if p in done then s.rows[p].(resolvedAt := Some(now)) else s.rows[p],
       events := s.events + set p | p in done :: Event(ConflictResolved, claim, OtherThan(p, claim), now, now))
  }

  /** `resolve_conflicts_for`. */
  function Closed(s: State, claim: nat, now: int): State {
    ClosedOnly(s, OpenPairs(s.rows, claim), claim, now)
  }

  lemma NothingClosed(s: State, claim: nat, now: int)
    ensures ClosedOnly(s, {}, claim, now) == s
  {
  }

  lemma CloseOneMore(s: State, done: set<Pair>, p: Pair, claim: nat, now: int)
    requires p in s.rows && p !in done
    ensures var before, after := ClosedOnly(s, done, claim, now), ClosedOnly(s, done + {p}, claim, now);
      && p in before.rows && after.lives == before.lives
      && after.rows == before.rows[p := before.rows[p].(resolvedAt := Some(now))]
      && after.events == before.events + {Event(ConflictResolved, claim, OtherThan(p, claim), now, now)}
  {
    hide OtherThan;
  }

  /** `apply_supersede`. */
  function SupersededBy(s: State, older: Claim, newer: Claim, now: int): State
    requires older.id in s.lives && newer.assertedAt.Some?
  {
    if s.lives[older.id].status == Reconcile.Status.Superseded then s
    else
      var at := newer.assertedAt.value;
      Closed(s.(lives := s.lives[older.id := Reconcile.Life(Reconcile.Status.Superseded, Some(at), Some(newer.id))],
                events := s.events + {Event(WasSuperseded, older.id, newer.id, at, now)}),
             older.id, now)
  }

  predicate SaidOpen(events: set<Event>, claim: nat, other: nat) {
    exists e :: e in events && e.kind == ConflictOpened && e.claim == claim && e.related == other
  }

  function OpenedOnce(events: set<Event>, claim: nat, other: nat, at: int, now: int): set<Event> {
    if SaidOpen(events, claim, other) then events else events + {Event(ConflictOpened, claim, other, at, now)}
  }

  function Later(x: int, y: int): int {
    if x >= y then x else y
  }

  /** `_open_conflict`. */
  function Opened(s: State, a: Claim, b: Claim, now: int): State
    requires a.assertedAt.Some? && b.assertedAt.Some?
  {
    var at := Later(a.assertedAt.value, b.assertedAt.value);
    s.(events := OpenedOnce(OpenedOnce(s.events, a.id, b.id, at, now), b.id, a.id, at, now))
  }

  /** Which of the two a stored supersession names as the newer. */
  function NewerOf(a: Claim, b: Claim, row: Row): Claim {
    var p := PairOf(a.id, b.id);
    var claimA := if a.id == p.first then a else b;
    var claimB := if b.id == p.second then b else a;
    if row.direction == Some(AToB) then claimA else claimB
  }

  function OlderOf(a: Claim, b: Claim, row: Row): Claim {
    if NewerOf(a, b, row).id == a.id then b else a
  }

  ghost predicate Known(s: State, a: Claim, b: Claim) {
    a.id != b.id && a.id in s.lives && b.id in s.lives && a.assertedAt.Some? && b.assertedAt.Some?
  }

  /** `_apply_side_effects`: contradictions are announced, and a superseded claim is closed unless
      it is a note of the user's own. */
  function Effects(s: State, a: Claim, b: Claim, row: Row, now: int): State
    requires Known(s, a, b)
  {
    if row.relation == Contradicts && row.resolvedAt.None? then Opened(s, a, b, now)
    else if row.relation == Supersedes && !OlderOf(a, b, row).note
      then SupersededBy(s, OlderOf(a, b, row), NewerOf(a, b, row), now)
    else s
  }

  /** One turn of the judging loop: decide, store, apply. */
  function Judged(s: State, a: Claim, b: Claim, similarity: real, dupSim: real, now: int): State
    requires Known(s, a, b)
  {
    var draft := HeuristicRelation(a, b, similarity, dupSim);
    if draft.None? then s
    else
      var rows := Stored(s.rows, a.id, b.id, draft.value, Heuristic);
      Effects(s.(rows := rows), a, b, rows[PairOf(a.id, b.id)], now)
  }

  lemma OpeningIsOrderFree(s: State, a: Claim, b: Claim, now: int)
    requires Known(s, a, b)
    ensures Opened(s, a, b, now) == Opened(s, b, a, now)
  {
    var at := Later(a.assertedAt.value, b.assertedAt.value);
    var x, y := Event(ConflictOpened, a.id, b.id, at, now), Event(ConflictOpened, b.id, a.id, at, now);
    assert s.events + {x} + {y} == s.events + {y} + {x};
  }

  lemma EffectsAreOrderFree(s: State, a: Claim, b: Claim, row: Row, now: int)
    requires Known(s, a, b)
    ensures Effects(s, a, b, row, now) == Effects(s, b, a, row, now)
  {
    hide Opened, SupersededBy;
    OpeningIsOrderFree(s, a, b, now);
    assert PairOf(a.id, b.id) == PairOf(b.id, a.id);
    assert NewerOf(a, b, row) == NewerOf(b, a, row) && OlderOf(a, b, row) == OlderOf(b, a, row);
  }

  /** Following up on a relation changes no row's signals and stores none. */
  lemma EffectsKeepSignals(s: State, a: Claim, b: Claim, row: Row, now: int)
    requires Known(s, a, b)
    ensures Effects(s, a, b, row, now).rows.Keys == s.rows.Keys
    ensures forall p :: p in s.rows ==>
      Effects(s, a, b, row, now).rows[p] == s.rows[p].(resolvedAt := Effects(s, a, b, row, now).rows[p].resolvedAt)
  {
  }

  lemma JudgedTable(s: State, a: Claim, b: Claim, similarity: real, dupSim: real, now: int)
    requires Known(s, a, b)
    ensures Judged(s, a, b, similarity, dupSim, now).rows.Keys == JudgedRows(s.rows, a, b, similarity, dupSim).Keys
    ensures forall p :: p in JudgedRows(s.rows, a, b, similarity, dupSim) ==>
      Judged(s, a, b, similarity, dupSim, now).rows[p].signals ==
        JudgedRows(s.rows, a, b, similarity, dupSim)[p].signals
  {
    hide HeuristicRelation, Stored, Effects;
    var d := HeuristicRelation(a, b, similarity, dupSim);
    if d.Some? {
      StoredHasPair(s.rows, a.id, b.id, d.value);
      var rows := Stored(s.rows, a.id, b.id, d.value, Heuristic);
      EffectsKeepSignals(s.(rows := rows), a, b, rows[PairOf(a.id, b.id)], now);
    }
  }

  /** The whole turn: relation, bookkeeping and events are the same in either order when the judgement
      is order-free, and for a pair not stored before exactly then. */
  lemma JudgedIsOrderFreeIff(s: State, a: Claim, b: Claim, similarity: real, dupSim: real, now: int)
    requires Known(s, a, b)
    ensures OrderFree(a, b, similarity, dupSim) ==>
      Judged(s, a, b, similarity, dupSim, now) == Judged(s, b, a, similarity, dupSim, now)
    ensures PairOf(a.id, b.id) !in s.rows ==>
      (Judged(s, a, b, similarity, dupSim, now) == Judged(s, b, a, similarity, dupSim, now) <==>
        OrderFree(a, b, similarity, dupSim))
  {
    hide HeuristicRelation, Stored, Effects, OrderFree;
    JudgingIsOrderFreeIff(a, b, similarity, dupSim);
    OneCanonicalRow(s.rows, a, b, similarity, dupSim);
    if OrderFree(a, b, similarity, dupSim) {
      var d := HeuristicRelation(a, b, similarity, dupSim);
      if d.Some? {
        assert PairOf(a.id, b.id) == PairOf(b.id, a.id);
        var rows := Stored(s.rows, a.id, b.id, d.value, Heuristic);
        StoredHasPair(s.rows, a.id, b.id, d.value);
        EffectsAreOrderFree(s.(rows := rows), a, b, rows[PairOf(a.id, b.id)], now);
      }
    } else if PairOf(a.id, b.id) !in s.rows {
      OrderShows(s, a, b, similarity, dupSim, now);
    }
  }

  lemma OrderShows(s: State, a: Claim, b: Claim, similarity: real, dupSim: real, now: int)
    requires Known(s, a, b) && PairOf(a.id, b.id) !in s.rows && !OrderFree(a, b, similarity, dupSim)
    ensures Judged(s, a, b, similarity, dupSim, now) != Judged(s, b, a, similarity, dupSim, now)
  {
    hide HeuristicRelation, Stored, Effects, Judged, OneSided, Unconfirmed, Defers;
    JudgedTable(s, a, b, similarity, dupSim, now);
    JudgedTable(s, b, a, similarity, dupSim, now);
    JudgingIsOrderFreeIff(a, b, similarity, dupSim);
    var d, e := HeuristicRelation(a, b, similarity, dupSim), HeuristicRelation(b, a, similarity, dupSim);
    OneSidedDrafts(a, b, similarity, dupSim);
    assert PairOf(a.id, b.id) == PairOf(b.id, a.id);
    if d.Some? {
      StoredTells(s.rows, a.id, b.id, d.value);
    }
    if e.Some? {
      StoredTells(s.rows, b.id, a.id, e.value);
    }
  }

  /** Where order matters, the two drafts differ in their signals, or one of them is missing. */
  lemma OneSidedDrafts(a: Claim, b: Claim, similarity: real, dupSim: real)
    requires !OrderFree(a, b, similarity, dupSim)
    ensures var d, e := HeuristicRelation(a, b, similarity, dupSim), HeuristicRelation(b, a, similarity, dupSim);
      && (d.Some? || e.Some?)
      && (d.Some? && e.Some? ==> d.value.signals != e.value.signals)
  {
    hide NumbersConflict, NumbersDiffer, Unconfirmed, Defers, Overlap, DateConflict, NegationAsymmetry;
    OnlyNumbersDependOnOrder(a, b, similarity);
    if Unconfirmed(a.quantities, b.quantities) {
      NumbersWhenOneSided(a, b);
    } else {
      NumbersWhenOneSided(b, a);
    }
  }

  lemma StoredHasPair(rows: map<Pair, Row>, a: nat, b: nat, draft: Draft)
    requires a != b
    ensures PairOf(a, b) in Stored(rows, a, b, draft, Heuristic)
  {
  }

  // ---------------------------------------------------------------- the rows, updated in place

  class Book {
    var rows: map<Pair, Row>
    var lives: Reconcile.Lives
    var events: set<Event>

    constructor ()
      ensures Now() == State(map[], map[], {})
    {
      rows, lives, events := map[], map[], {};
    }

    function Now(): State
      reads this
    {
      State(rows, lives, events)
    }

    /** `store_relation`. */
    method StoreRelation(a: Claim, b: Claim, draft: Draft, judge: Method) returns (stored: Option<Row>)
      modifies this`rows
      ensures rows == Stored(old(rows), a.id, b.id, draft, judge)
      ensures a.id == b.id ==> stored == None
      ensures a.id != b.id ==> PairOf(a.id, b.id) in rows && stored == Some(rows[PairOf(a.id, b.id)])
    {
      if a.id == b.id {
        return None;
      }
      var aFirst := a.id < b.id;
      var p := if aFirst then Pair(a.id, b.id) else Pair(b.id, a.id);
      var existing := if p in rows then Some(rows[p]) else None;
      if existing.Some? && existing.value.userLabel.Some? {
        return existing;
      }
      var row := if existing.Some? then existing.value
        else Row(draft.relation, None, draft.confidence, draft.signals, judge, None, None);
      row := row.(relation := draft.relation);
      if draft.direction.None? {
        row := row.(direction := None);
      } else if aFirst {
        row := row.(direction := draft.direction);
      } else {
        row := row.(direction := Some(if draft.direction.value == AToB then BToA else AToB));
      }
      row := row.(confidence := draft.confidence, judge := judge, signals := draft.signals);
      rows := rows[p := row];
      return Some(row);
    }

    /** `resolve_conflicts_for`. */
    method ResolveConflictsFor(claim: nat, now: int)
      modifies this`rows, this`events
      ensures Now() == Closed(old(Now()), claim, now)
    {
      hide ClosedOnly, OtherThan;
      var todo := OpenPairs(rows, claim);
      ghost var start, all := Now(), todo;
      NothingClosed(start, claim, now);
      assert all - todo == {};
      while todo != {}
        invariant todo <= all && Now() == ClosedOnly(start, all - todo, claim, now)
        decreases |todo|
      {
        var p :| p in todo;
        CloseOneMore(start, all - todo, p, claim, now);
        assert all - (todo - {p}) == all - todo + {p};
        rows := rows[p := rows[p].(resolvedAt := Some(now))];
        events := events + {Event(ConflictResolved, claim, OtherThan(p, claim), now, now)};
        todo := todo - {p};
      }
      assert all - todo == all;
    }

    /** `apply_supersede`. */
    method ApplySupersede(older: Claim, newer: Claim, now: int)
      requires older.id in lives && newer.assertedAt.Some?
      modifies this
      ensures Now() == SupersededBy(old(Now()), older, newer, now)
    {
      hide Closed;
      if lives[older.id].status == Reconcile.Status.Superseded {
        return;
      }
      lives := lives[older.id := Reconcile.Life(Reconcile.Status.Superseded, newer.assertedAt, Some(newer.id))];
      events := events + {Event(WasSuperseded, older.id, newer.id, newer.assertedAt.value, now)};
      ResolveConflictsFor(older.id, now);
    }

    /** `_open_conflict`. */
    method OpenConflict(a: Claim, b: Claim, now: int)
      requires a.assertedAt.Some? && b.assertedAt.Some?
      modifies this`events
      ensures Now() == Opened(old(Now()), a, b, now)
    {
      var at := Later(a.assertedAt.value, b.assertedAt.value);
      if !SaidOpen(events, a.id, b.id) {
        events := events + {Event(ConflictOpened, a.id, b.id, at, now)};
      }
      if !SaidOpen(events, b.id, a.id) {
        events := events + {Event(ConflictOpened, b.id, a.id, at, now)};
      }
    }

    /** `_apply_side_effects`. */
    method ApplySideEffects(a: Claim, b: Claim, row: Row, now: int)
      requires Known(Now(), a, b)
      modifies this
      ensures Now() == Effects(old(Now()), a, b, row, now)
    {
      hide Opened, SupersededBy;
      if row.relation == Contradicts && row.resolvedAt.None? {
        OpenConflict(a, b, now);
      } else if row.relation == Supersedes {
        var p := PairOf(a.id, b.id);
        var claimA := if a.id == p.first then a else b;
        var claimB := if b.id == p.second then b else a;
        var newer := if row.direction == Some(AToB) then claimA else claimB;
        var older := if newer.id == claimA.id then claimB else claimA;
        if !older.note {
          ApplySupersede(older, newer, now);
        }
      }
    }

    /** One turn of the loop of `judge_relations`. */
    method Judge(a: Claim, b: Claim, similarity: real, dupSim: real, now: int)
      requires Known(Now(), a, b)
      modifies this
      ensures Now() == Judged(old(Now()), a, b, similarity, dupSim, now)
    {
      hide HeuristicRelation, Stored, Effects;
      var draft := JudgePair(a, b, similarity, dupSim);
      if draft.Some? {
        var stored := StoreRelation(a, b, draft.value, Heuristic);
        ApplySideEffects(a, b, stored.value, now);
      }
    }
  }

}
