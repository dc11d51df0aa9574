/** The `conflict_resolved` events of a reconcile (app/temporal/reconcile.py:197-224, 320-323, 375-413).
    Rows are looked up among the document's own claims but may be written for a claim of another
    document, and rows about one pair may pile up; so a second reconcile can write or delete rows again.
    When exactly it does is proved here. */
module ConflictEvents {

  /** An event row: the claim that is no longer current, the other side, and the cause given. */
  datatype Row = Row(claim: nat, related: nat, at: int, observedAt: int, cause: string)

  /** A contradiction that touches the document and does not stand: its inactive side, and when and why it closed. */
  datatype Closing = Closing(inactive: nat, other: nat, at: int, cause: string)

  type Key = set<nat>

  function KeyOf(r: Row): Key {
    {r.claim, r.related}
  }

  function PairOf(c: Closing): Key {
    {c.inactive, c.other}
  }

  /** The rows of every document, by id; ids are handed out in order. */
  datatype Log = Log(rows: map<nat, Row>, next: nat)

  ghost predicate Numbered(l: Log) {
    forall id :: id in l.rows ==> id < l.next
  }

  /** There is one relation, so at most one closing, per pair of claims. */
  ghost predicate OnePerPair(cs: seq<Closing>) {
    forall i, j :: 0 <= i < j < |cs| ==> PairOf(cs[i]) != PairOf(cs[j])
  }

  predicate IsOwn(l: Log, own: set<nat>, id: nat) {
    id in l.rows && l.rows[id].claim in own
  }

  /** For each pair among the document's own rows, one of the rows about it: whichever came last. */
  ghost predicate IsLoaded(l: Log, own: set<nat>, loaded: map<Key, nat>) {
    && (forall k :: k in loaded ==> IsOwn(l, own, loaded[k]) && KeyOf(l.rows[loaded[k]]) == k)
    && (forall id :: IsOwn(l, own, id) ==> KeyOf(l.rows[id]) in loaded)
  }

  predicate Records(r: Row, c: Closing) {
    r.claim == c.inactive && r.related == c.other && r.at == c.at && r.cause == c.cause
  }

  // ---------------------------------------------------------------- one pass

  /** The row `id` records `c`: an old row, rewritten, when one was loaded, else a new one. */
  ghost predicate WrittenAt(l: Log, loaded: map<Key, nat>, c: Closing, r: Log, id: nat) {
    && id in r.rows && Records(r.rows[id], c)
    && if PairOf(c) in loaded
       then id == loaded[PairOf(c)] && id in l.rows && r.rows[id].observedAt == l.rows[id].observedAt
       else l.next <= id
  }

  /** After the closings `cs`: `ids[k]` is the row that records `cs[k]`; every other row is as it was. */
  ghost predicate Written(l: Log, loaded: map<Key, nat>, cs: seq<Closing>, r: Log, ids: seq<nat>) {
    && |ids| == |cs| && l.next <= r.next && Numbered(r)
    && (forall id :: id in l.rows ==> id in r.rows)
    && (forall id :: id in r.rows && id !in ids ==> id in l.rows && r.rows[id] == l.rows[id])
    && (forall k :: 0 <= k < |cs| ==> WrittenAt(l, loaded, cs[k], r, ids[k]))
  }

  predicate Closes(cs: seq<Closing>, k: Key) {
    exists i :: 0 <= i < |cs| && PairOf(cs[i]) == k
  }

  /** What was loaded and not needed. */
  ghost predicate IsStale(loaded: map<Key, nat>, cs: seq<Closing>, id: nat) {
    exists k :: k in loaded && loaded[k] == id && !Closes(cs, k)
  }

  ghost predicate Swept(loaded: map<Key, nat>, cs: seq<Closing>, r: Log, l': Log) {
    && l'.next == r.next
    && (forall id :: id in l'.rows <==> id in r.rows && !IsStale(loaded, cs, id))
    && (forall id :: id in l'.rows ==> l'.rows[id] == r.rows[id])
  }

  /** One whole pass, given which rows were loaded. */
  ghost predicate Passed(l: Log, own: set<nat>, loaded: map<Key, nat>, cs: seq<Closing>, l': Log) {
    IsLoaded(l, own, loaded) && exists r, ids :: Written(l, loaded, cs, r, ids) && Swept(loaded, cs, r, l')
  }

  /** The dictionary of loaded rows, filled in the order in which the query returned them: the last row
      about a pair stays. */
  function Fill(l: Log, selected: seq<nat>): map<Key, nat> {
    if selected == [] then map[]
    else
      var id, before := selected[|selected| - 1], Fill(l, selected[..|selected| - 1]);
      if id in l.rows then before[KeyOf(l.rows[id]) := id] else before
  }

  method Load(l: Log, own: set<nat>, selected: seq<nat>) returns (loaded: map<Key, nat>)
    requires forall id :: id in selected <==> IsOwn(l, own, id)
    ensures loaded == Fill(l, selected) && IsLoaded(l, own, loaded)
  {
    loaded := map[];
    for i := 0 to |selected|
      invariant loaded == Fill(l, selected[..i])
    {
      var id := selected[i];
      assert IsOwn(l, own, id);
      assert selected[..i + 1][..i] == selected[..i];
      loaded := loaded[KeyOf(l.rows[id]) := id];
    }
    assert selected[..|selected|] == selected;
    FillLoads(l, own, selected);
  }

  lemma {:induction false} FillHolds(l: Log, selected: seq<nat>)
    ensures forall k :: k in Fill(l, selected) ==>
      Fill(l, selected)[k] in selected && Fill(l, selected)[k] in l.rows && KeyOf(l.rows[Fill(l, selected)[k]]) == k
    ensures forall id :: id in selected && id in l.rows ==> KeyOf(l.rows[id]) in Fill(l, selected)
  {
    hide KeyOf;
    if selected != [] {
      FillHolds(l, selected[..|selected| - 1]);
    }
  }

  lemma FillLoads(l: Log, own: set<nat>, selected: seq<nat>)
    requires forall id :: id in selected <==> IsOwn(l, own, id)
    ensures IsLoaded(l, own, Fill(l, selected))
  {
    hide KeyOf, Fill;
    FillHolds(l, selected);
  }

  ghost predicate Ascending(ids: seq<nat>) {
    forall i, j :: 0 <= i < j < |ids| ==> ids[i] < ids[j]
  }

  /** From rows in the order of their ids the one with the greatest id stays. */
  lemma {:induction false} FillKeepsGreatest(l: Log, selected: seq<nat>, id: nat)
    requires Ascending(selected) && id in selected && id in l.rows
    ensures KeyOf(l.rows[id]) in Fill(l, selected) && id <= Fill(l, selected)[KeyOf(l.rows[id])]
  {
    hide KeyOf;
    var n := |selected| - 1;
    if selected[n] != id {
      FillKeepsGreatest(l, selected[..n], id);
    }
  }

  /** What is still in the dictionary once the closings `cs` have been seen to. */
  ghost predicate Pending(loaded: map<Key, nat>, cs: seq<Closing>, pending: map<Key, nat>) {
    && (forall k :: k in pending <==> k in loaded && !Closes(cs, k))
    && (forall k :: k in pending ==> pending[k] == loaded[k])
  }

  /** The event of one closing: the row loaded for its pair, else a new one. */
  method RecordClosing(log: Log, pending: map<Key, nat>, c: Closing, now: int,
                       ghost l: Log, ghost own: set<nat>, ghost loaded: map<Key, nat>, ghost cs: seq<Closing>,
                         ghost ids: seq<nat>)
    returns (log': Log, pending': map<Key, nat>, ghost id: nat)
    requires IsLoaded(l, own, loaded) && Numbered(l) && OnePerPair(cs + [c])
    requires Written(l, loaded, cs, log, ids) && Pending(loaded, cs, pending)
    ensures Written(l, loaded, cs + [c], log', ids + [id]) && Pending(loaded, cs + [c], pending')
  {
    hide KeyOf, PairOf, WrittenAt, OnePerPair, IsLoaded, Written, Pending;
    PendingOne(loaded, cs, c, pending);
    LoadedIsThere(l, own, loaded, cs, log, ids, PairOf(c));
    var key := PairOf(c);
    if key in pending {
      var existing := pending[key];
      pending' := pending - {key};
      log' := log.(rows := log.rows[existing :=
        log.rows[existing].(claim := c.inactive, related := c.other, at := c.at, cause := c.cause)]);
      id := existing;
    } else {
      pending' := pending;
      log' := Log(log.rows[log.next := Row(c.inactive, c.other, c.at, now, c.cause)], log.next + 1);
      id := log.next;
    }
    WritesHere(l, own, loaded, cs, c, log, ids, log', id);
    WritesOneMore(l, own, loaded, cs, c, log, ids, log', id);
  }

  /** Deleting what is left in the dictionary. */
  method Sweep(log: Log, pending: map<Key, nat>, ghost l: Log, ghost own: set<nat>, ghost loaded: map<Key, nat>,
      ghost cs: seq<Closing>, ghost ids: seq<nat>)
    returns (log': Log)
    requires IsLoaded(l, own, loaded) && Written(l, loaded, cs, log, ids) && Pending(loaded, cs, pending)
    ensures Passed(l, own, loaded, cs, log')
  {
    hide IsLoaded, Written, IsStale;
    log' := log.(rows := log.rows - pending.Values);
    PendingIsStale(loaded, cs, pending);
    assert Swept(loaded, cs, log, log');
  }

  lemma NothingWritten(l: Log, loaded: map<Key, nat>)
    requires Numbered(l)
    ensures Written(l, loaded, [], l, []) && Pending(loaded, [], loaded)
  {
  }

  lemma PairIsNew(cs: seq<Closing>, c: Closing)
    requires OnePerPair(cs + [c])
    ensures !Closes(cs, PairOf(c)) && forall k :: Closes(cs + [c], k) <==> Closes(cs, k) || k == PairOf(c)
  {
    hide PairOf;
    var all := cs + [c];
    assert all[|cs|] == c;
    assert forall i :: 0 <= i < |cs| ==> all[i] == cs[i];
  }

  lemma PendingOne(loaded: map<Key, nat>, cs: seq<Closing>, c: Closing, pending: map<Key, nat>)
    requires OnePerPair(cs + [c]) && Pending(loaded, cs, pending)
    ensures PairOf(c) in pending <==> PairOf(c) in loaded
    ensures PairOf(c) in pending ==> pending[PairOf(c)] == loaded[PairOf(c)]
    ensures Pending(loaded, cs + [c], pending - {PairOf(c)})
    ensures PairOf(c) !in pending ==> pending - {PairOf(c)} == pending
  {
    hide PairOf, Closes;
    PairIsNew(cs, c);
  }

  lemma LoadedIsThere(l: Log, own: set<nat>, loaded: map<Key, nat>, cs: seq<Closing>, r: Log, ids: seq<nat>, key: Key)
    requires IsLoaded(l, own, loaded) && Written(l, loaded, cs, r, ids)
    ensures key in loaded ==> loaded[key] in l.rows && loaded[key] in r.rows && loaded[key] < r.next
    ensures r.next !in r.rows && l.next <= r.next
  {
    hide KeyOf, PairOf, WrittenAt;
  }

  /** A loaded row is rewritten once only, so it still has its first observation time. */
  lemma WritesHere(l: Log, own: set<nat>, loaded: map<Key, nat>, cs: seq<Closing>, c: Closing, r: Log, ids: seq<nat>,
      r': Log, id: nat)
    requires IsLoaded(l, own, loaded) && Numbered(l) && OnePerPair(cs + [c]) && Written(l, loaded, cs, r, ids)
    requires id in r'.rows && Records(r'.rows[id], c)
    requires PairOf(c) in loaded ==>
      id == loaded[PairOf(c)] && id in r.rows && r'.rows[id].observedAt == r.rows[id].observedAt
    requires PairOf(c) !in loaded ==> id == r.next
    ensures WrittenAt(l, loaded, c, r', id)
  {
    hide KeyOf, PairOf;
    if PairOf(c) in loaded {
      assert id in l.rows;
      if id in ids {
        var k :| 0 <= k < |ids| && ids[k] == id;
        assert WrittenAt(l, loaded, cs[k], r, id);
      } else {
        assert r.rows[id] == l.rows[id];
      }
    }
  }

  lemma WritesOneMore(l: Log, own: set<nat>, loaded: map<Key, nat>, cs: seq<Closing>, c: Closing, r: Log,
      ids: seq<nat>, r': Log, id: nat)
    requires IsLoaded(l, own, loaded) && Numbered(l) && OnePerPair(cs + [c]) && Written(l, loaded, cs, r, ids)
    requires WrittenAt(l, loaded, c, r', id) && r.next <= r'.next && id < r'.next
    requires if PairOf(c) in loaded then id in r.rows else id == r.next
    requires forall x :: x in r'.rows <==> x in r.rows || x == id
    requires forall x :: x in r.rows && x != id ==> r'.rows[x] == r.rows[x]
    ensures Written(l, loaded, cs + [c], r', ids + [id])
  {
    hide KeyOf, PairOf;
    var all, closings := ids + [id], cs + [c];
    forall k | 0 <= k < |closings| ensures WrittenAt(l, loaded, closings[k], r', all[k]) {
      if k < |cs| {
        assert WrittenAt(l, loaded, cs[k], r, ids[k]);
        assert closings[k] == cs[k] && closings[|cs|] == c;
        assert PairOf(cs[k]) != PairOf(c);
      }
    }
    forall x | x in r'.rows && x !in all ensures x in l.rows && r'.rows[x] == l.rows[x] {
      assert x !in ids && x != id by {
        assert all[|ids|] == id;
        assert forall k :: 0 <= k < |ids| ==> all[k] == ids[k];
      }
    }
  }

  lemma PendingIsStale(loaded: map<Key, nat>, cs: seq<Closing>, pending: map<Key, nat>)
    requires Pending(loaded, cs, pending)
    ensures forall id :: id in pending.Values <==> IsStale(loaded, cs, id)
  {
    hide Closes;
    forall id ensures id in pending.Values <==> IsStale(loaded, cs, id) {
      if id in pending.Values {
        var k :| k in pending && pending[k] == id;
      }
      if IsStale(loaded, cs, id) {
        var k :| k in loaded && loaded[k] == id && !Closes(cs, k);
        assert k in pending;
      }
    }
  }

  // ---------------------------------------------------------------- when a pass changes nothing

  /** Every closing has a loaded row that records it already, and no other row was loaded. */
  ghost predicate Still(l: Log, loaded: map<Key, nat>, cs: seq<Closing>) {
    && (forall k :: 0 <= k < |cs| ==> StillAt(l, loaded, cs[k]))
    && (forall k :: k in loaded ==> Closes(cs, k))
  }

  ghost predicate StillAt(l: Log, loaded: map<Key, nat>, c: Closing) {
    PairOf(c) in loaded && loaded[PairOf(c)] in l.rows && Records(l.rows[loaded[PairOf(c)]], c)
  }

  lemma WrittenRow(l: Log, loaded: map<Key, nat>, cs: seq<Closing>, r: Log, ids: seq<nat>, k: nat)
    requires Written(l, loaded, cs, r, ids) && k < |cs|
    ensures k < |ids| && WrittenAt(l, loaded, cs[k], r, ids[k])
  {
    hide WrittenAt;
  }

  /** A row that records a closing is not deleted. */
  lemma WrittenStays(l: Log, own: set<nat>, loaded: map<Key, nat>, cs: seq<Closing>, r: Log, ids: seq<nat>, l': Log,
      k: nat)
    requires IsLoaded(l, own, loaded) && Numbered(l) && Written(l, loaded, cs, r, ids) && Swept(loaded, cs, r, l')
      && k < |cs|
    ensures k < |ids| && ids[k] in l'.rows && Records(l'.rows[ids[k]], cs[k])
    ensures PairOf(cs[k]) !in loaded ==> ids[k] !in l.rows
  {
    hide KeyOf, PairOf, Written, Records;
    WrittenRow(l, loaded, cs, r, ids, k);
    assert Closes(cs, PairOf(cs[k]));
    forall key | key in loaded && loaded[key] == ids[k] ensures Closes(cs, key) {
      assert key == KeyOf(l.rows[ids[k]]);
    }
  }

  /** A loaded row that no closing needs is deleted. */
  lemma StaleGoes(l: Log, own: set<nat>, loaded: map<Key, nat>, cs: seq<Closing>, r: Log, l': Log, key: Key)
    requires IsLoaded(l, own, loaded) && Swept(loaded, cs, r, l') && key in loaded && !Closes(cs, key)
    ensures loaded[key] in l.rows && loaded[key] !in l'.rows
  {
    hide KeyOf, Closes;
    assert IsStale(loaded, cs, loaded[key]);
  }

  /** A row neither loaded nor new is left alone. */
  lemma OthersStay(l: Log, loaded: map<Key, nat>, cs: seq<Closing>, r: Log, ids: seq<nat>, l': Log, id: nat)
    requires Numbered(l) && Written(l, loaded, cs, r, ids) && Swept(loaded, cs, r, l')
    requires id in l.rows && forall k :: k in loaded ==> loaded[k] != id
    ensures id in l'.rows && l'.rows[id] == l.rows[id]
  {
    hide KeyOf, PairOf, Records;
    forall k | 0 <= k < |ids| ensures ids[k] != id {
      assert WrittenAt(l, loaded, cs[k], r, ids[k]);
    }
  }

  /** A row with the same pair, side, instant, cause and observation time is the same row. */
  lemma StillIsSame(l: Log, own: set<nat>, loaded: map<Key, nat>, cs: seq<Closing>, r: Log, ids: seq<nat>, id: nat)
    requires IsLoaded(l, own, loaded) && Written(l, loaded, cs, r, ids) && Still(l, loaded, cs)
    ensures id in r.rows <==> id in l.rows
    ensures id in r.rows ==> r.rows[id] == l.rows[id]
  {
    hide KeyOf, PairOf;
    if id in ids {
      var k :| 0 <= k < |ids| && ids[k] == id;
      assert WrittenAt(l, loaded, cs[k], r, id) && StillAt(l, loaded, cs[k]);
    }
  }

  /** A pass leaves the rows alone exactly when every closing has a loaded row that records it already
      and no other row was loaded; whatever the rows, and in whatever order they were loaded. */
  lemma PassChangesNothingIff(l: Log, own: set<nat>, loaded: map<Key, nat>, cs: seq<Closing>, l': Log)
    requires Numbered(l) && Passed(l, own, loaded, cs, l')
    ensures l'.rows == l.rows <==> Still(l, loaded, cs)
  {
    hide KeyOf, PairOf, IsLoaded, Written, Swept, Records, IsStale, Closes;
    var r, ids :| Written(l, loaded, cs, r, ids) && Swept(loaded, cs, r, l');
    if Still(l, loaded, cs) {
      NothingStale(loaded, cs);
      forall id ensures (id in l'.rows <==> id in l.rows) && (id in l.rows ==> l'.rows[id] == l.rows[id]) {
        StillIsSame(l, own, loaded, cs, r, ids, id);
        SweptRow(loaded, cs, r, l', id);
      }
      assert l'.rows.Keys == l.rows.Keys;
    } else if k :| 0 <= k < |cs| && !StillAt(l, loaded, cs[k]) {
      WrittenStays(l, own, loaded, cs, r, ids, l', k);
      WrittenRow(l, loaded, cs, r, ids, k);
    } else {
      var key :| key in loaded && !Closes(cs, key);
      StaleGoes(l, own, loaded, cs, r, l', key);
    }
  }

  lemma NothingStale(loaded: map<Key, nat>, cs: seq<Closing>)
    requires forall k :: k in loaded ==> Closes(cs, k)
    ensures forall id :: !IsStale(loaded, cs, id)
  {
    hide Closes;
  }

  lemma SweptRow(loaded: map<Key, nat>, cs: seq<Closing>, r: Log, l': Log, id: nat)
    requires Swept(loaded, cs, r, l') && !IsStale(loaded, cs, id)
    ensures id in l'.rows <==> id in r.rows
    ensures id in r.rows ==> l'.rows[id] == r.rows[id]
  {
    hide IsStale;
  }

  // ---------------------------------------------------------------- when a second pass changes nothing

  /** Every closing's inactive side is a claim of the document itself. */
  ghost predicate AllOwn(own: set<nat>, cs: seq<Closing>) {
    forall k :: 0 <= k < |cs| ==> cs[k].inactive in own
  }

  ghost predicate Recorded(r: Row, cs: seq<Closing>) {
    exists k :: 0 <= k < |cs| && Records(r, cs[k])
  }

  ghost predicate Twins(l: Log, own: set<nat>, i: nat, j: nat) {
    i != j && IsOwn(l, own, i) && IsOwn(l, own, j) && KeyOf(l.rows[i]) == KeyOf(l.rows[j])
  }

  /** Where two of the document's own rows are about one pair, both record what the pass would write. */
  ghost predicate HarmlessTwins(l: Log, own: set<nat>, cs: seq<Closing>) {
    forall i, j :: Twins(l, own, i, j) ==> Recorded(l.rows[i], cs)
  }

  lemma RecordedPair(r: Row, cs: seq<Closing>, k: nat)
    requires OnePerPair(cs) && Recorded(r, cs) && k < |cs| && PairOf(cs[k]) == KeyOf(r)
    ensures Records(r, cs[k])
  {
    var x :| 0 <= x < |cs| && Records(r, cs[x]);
    assert PairOf(cs[x]) == KeyOf(r);
    SameClosing(cs, x, k);
  }

  lemma SameClosing(cs: seq<Closing>, x: nat, k: nat)
    requires OnePerPair(cs) && x < |cs| && k < |cs| && PairOf(cs[x]) == PairOf(cs[k])
    ensures x == k
  {
    hide PairOf;
  }

  lemma LeftoverIsTwin(l: Log, own: set<nat>, loaded: map<Key, nat>, cs: seq<Closing>, id: nat)
    requires IsLoaded(l, own, loaded) && HarmlessTwins(l, own, cs) && IsOwn(l, own, id)
    requires KeyOf(l.rows[id]) in loaded && loaded[KeyOf(l.rows[id])] != id
    ensures Recorded(l.rows[id], cs)
  {
    hide KeyOf, Recorded;
    assert Twins(l, own, id, loaded[KeyOf(l.rows[id])]);
  }

  /** After a pass every row of the document's own claims records a closing, unless it is a leftover twin. */
  lemma OwnRowAfterPass(l: Log, own: set<nat>, loaded: map<Key, nat>, cs: seq<Closing>, r: Log, ids: seq<nat>,
      l': Log, id: nat)
    requires Numbered(l) && IsLoaded(l, own, loaded) && Written(l, loaded, cs, r, ids) && Swept(loaded, cs, r, l')
    requires IsOwn(l', own, id)
    ensures Recorded(l'.rows[id], cs)
      || (IsOwn(l, own, id) && l'.rows[id] == l.rows[id] && loaded[KeyOf(l.rows[id])] != id)
  {
    hide KeyOf, PairOf, Records, IsStale;
    if id in ids {
      var k :| 0 <= k < |ids| && ids[k] == id;
      WrittenStays(l, own, loaded, cs, r, ids, l', k);
    } else if loaded[KeyOf(l.rows[id])] == id {
      LoadedIsNeeded(l, own, loaded, cs, r, ids, l', id);
    }
  }

  lemma LoadedIsNeeded(l: Log, own: set<nat>, loaded: map<Key, nat>, cs: seq<Closing>, r: Log, ids: seq<nat>, l': Log,
      id: nat)
    requires IsLoaded(l, own, loaded) && Written(l, loaded, cs, r, ids) && Swept(loaded, cs, r, l')
    requires IsOwn(l, own, id) && loaded[KeyOf(l.rows[id])] == id && id in l'.rows
    ensures id in ids
  {
    hide KeyOf, PairOf, Records;
    var key := KeyOf(l.rows[id]);
    assert !IsStale(loaded, cs, id);
    assert Closes(cs, key);
    var k :| 0 <= k < |cs| && PairOf(cs[k]) == key;
    assert WrittenAt(l, loaded, cs[k], r, ids[k]);
  }

  /** With own inactive sides and harmless twins, all the document's own rows record closings after a pass. */
  lemma AllRecorded(l: Log, own: set<nat>, loaded: map<Key, nat>, cs: seq<Closing>, l': Log, id: nat)
    requires Numbered(l) && Passed(l, own, loaded, cs, l') && HarmlessTwins(l, own, cs) && IsOwn(l', own, id)
    ensures Recorded(l'.rows[id], cs)
  {
    hide KeyOf, PairOf, Records, Written, Swept, Recorded;
    var r, ids :| Written(l, loaded, cs, r, ids) && Swept(loaded, cs, r, l');
    OwnRowAfterPass(l, own, loaded, cs, r, ids, l', id);
    if IsOwn(l, own, id) && l'.rows[id] == l.rows[id] && loaded[KeyOf(l.rows[id])] != id {
      LeftoverIsTwin(l, own, loaded, cs, id);
    }
  }

  lemma SecondPassKeeps(l: Log, own: set<nat>, cs: seq<Closing>, loaded: map<Key, nat>, once: Log,
      loaded': map<Key, nat>, twice: Log)
    requires Numbered(l) && OnePerPair(cs) && Passed(l, own, loaded, cs, once) && Passed(once, own, loaded', cs, twice)
    requires AllOwn(own, cs) && HarmlessTwins(l, own, cs)
    ensures twice.rows == once.rows
  {
    hide Written, Swept, KeyOf, PairOf, Records, Recorded, HarmlessTwins, OnePerPair;
    PassKeepsNumbers(l, own, loaded, cs, once);
    var r, ids :| Written(l, loaded, cs, r, ids) && Swept(loaded, cs, r, once);
    forall k | 0 <= k < |cs| ensures StillAt(once, loaded', cs[k]) {
      WrittenStays(l, own, loaded, cs, r, ids, once, k);
      RecordsPair(once.rows[ids[k]], cs[k]);
      assert IsOwn(once, own, ids[k]);
      var id := loaded'[PairOf(cs[k])];
      AllRecorded(l, own, loaded, cs, once, id);
      RecordedPair(once.rows[id], cs, k);
    }
    forall key | key in loaded' ensures Closes(cs, key) {
      AllRecorded(l, own, loaded, cs, once, loaded'[key]);
      RecordedCloses(once.rows[loaded'[key]], cs);
    }
    PassChangesNothingIff(once, own, loaded', cs, twice);
  }

  lemma RecordsPair(r: Row, c: Closing)
    requires Records(r, c)
    ensures KeyOf(r) == PairOf(c) && r.claim == c.inactive
  {
  }

  lemma RecordedCloses(r: Row, cs: seq<Closing>)
    requires Recorded(r, cs)
    ensures Closes(cs, KeyOf(r))
  {
    var k :| 0 <= k < |cs| && Records(r, cs[k]);
    assert PairOf(cs[k]) == KeyOf(r);
  }

  lemma PassKeepsNumbers(l: Log, own: set<nat>, loaded: map<Key, nat>, cs: seq<Closing>, l': Log)
    requires Passed(l, own, loaded, cs, l')
    ensures Numbered(l')
  {
  }

  /** A closing whose inactive side is another document's claim is written again by every pass, whatever
      was loaded. */
  lemma ForeignClosingIsRewritten(l: Log, own: set<nat>, loaded: map<Key, nat>, cs: seq<Closing>, l': Log)
    requires Numbered(l) && Passed(l, own, loaded, cs, l') && !AllOwn(own, cs)
    ensures l'.rows != l.rows
  {
    hide KeyOf, PairOf, Written, Swept;
    PassChangesNothingIff(l, own, loaded, cs, l');
    var k :| 0 <= k < |cs| && cs[k].inactive !in own;
    assert !StillAt(l, loaded, cs[k]);
  }

  // ---------------------------------------------------------------- passes exist

  /** The rows can be selected in an order in which `last` is the one that stays for its pair. */
  lemma {:induction false} SelectionExists(l: Log, own: set<nat>, last: nat, ids: set<nat>)
      returns (loaded: map<Key, nat>)
    requires IsOwn(l, own, last) && forall id :: id in ids ==> IsOwn(l, own, id)
    ensures forall k :: k in loaded ==> IsOwn(l, own, loaded[k]) && KeyOf(l.rows[loaded[k]]) == k
    ensures forall id :: id in ids ==> id in l.rows && KeyOf(l.rows[id]) in loaded
    ensures KeyOf(l.rows[last]) in loaded && loaded[KeyOf(l.rows[last])] == last
    decreases |ids|
  {
    hide KeyOf;
    if ids == {} {
      loaded := map[KeyOf(l.rows[last]) := last];
    } else {
      var id :| id in ids;
      var rest := SelectionExists(l, own, last, ids - {id});
      loaded := rest[KeyOf(l.rows[id]) := id][KeyOf(l.rows[last]) := last];
    }
  }

  lemma LoadExists(l: Log, own: set<nat>, last: nat) returns (loaded: map<Key, nat>)
    requires IsOwn(l, own, last)
    ensures IsLoaded(l, own, loaded) && KeyOf(l.rows[last]) in loaded && loaded[KeyOf(l.rows[last])] == last
  {
    hide KeyOf;
    loaded := SelectionExists(l, own, last, set id | id in l.rows && l.rows[id].claim in own);
  }

  lemma {:induction false} WritingExists(l: Log, own: set<nat>, loaded: map<Key, nat>, cs: seq<Closing>)
      returns (r: Log, ids: seq<nat>)
    requires IsLoaded(l, own, loaded) && Numbered(l) && OnePerPair(cs)
    ensures Written(l, loaded, cs, r, ids)
    decreases |cs|
  {
    hide IsLoaded, Written, KeyOf, PairOf, OnePerPair;
    if cs == [] {
      NothingWritten(l, loaded);
      return l, [];
    }
    var init, c := cs[..|cs| - 1], cs[|cs| - 1];
    assert cs == init + [c];
    FewerPairs(init, c);
    var before, ids' := WritingExists(l, own, loaded, init);
    LoadedIsThere(l, own, loaded, init, before, ids', PairOf(c));
    var id := if PairOf(c) in loaded then loaded[PairOf(c)] else before.next;
    var observed := if PairOf(c) in loaded then before.rows[id].observedAt else 0;
    r := Log(before.rows[id := Row(c.inactive, c.other, c.at, observed, c.cause)], if id == before.next
      then before.next + 1 else before.next);
    ids := ids' + [id];
    WritesHere(l, own, loaded, init, c, before, ids', r, id);
    WritesOneMore(l, own, loaded, init, c, before, ids', r, id);
  }

  lemma FewerPairs(init: seq<Closing>, c: Closing)
    requires OnePerPair(init + [c])
    ensures OnePerPair(init)
  {
    hide PairOf;
    assert forall i :: 0 <= i < |init| ==> (init + [c])[i] == init[i];
  }

  lemma PassExists(l: Log, own: set<nat>, loaded: map<Key, nat>, cs: seq<Closing>) returns (l': Log)
    requires IsLoaded(l, own, loaded) && Numbered(l) && OnePerPair(cs)
    ensures Passed(l, own, loaded, cs, l')
  {
    hide IsLoaded, Written, IsStale, OnePerPair;
    var r, ids := WritingExists(l, own, loaded, cs);
    l' := Log(map id | id in r.rows && !IsStale(loaded, cs, id) :: r.rows[id], r.next);
    assert Swept(loaded, cs, r, l');
  }

  // ---------------------------------------------------------------- the exact condition

  ghost predicate SecondPassNeverChanges(l: Log, own: set<nat>, cs: seq<Closing>) {
    forall loaded, once, loaded', twice ::
      Passed(l, own, loaded, cs, once) && Passed(once, own, loaded', cs, twice) ==> twice.rows == once.rows
  }

  /** A twin that does not record a closing can be left behind by one pass and picked up by the next. */
  lemma TwinComesBack(l: Log, own: set<nat>, cs: seq<Closing>, i: nat, j: nat)
    requires Numbered(l) && OnePerPair(cs) && Twins(l, own, i, j) && !Recorded(l.rows[i], cs)
    ensures !SecondPassNeverChanges(l, own, cs)
  {
    hide KeyOf, PairOf, OnePerPair, Records, IsLoaded, Written, Swept;
    var loaded := LoadExists(l, own, j);
    var once := PassExists(l, own, loaded, cs);
    PassKeepsNumbers(l, own, loaded, cs, once);
    LeftBehind(l, own, loaded, cs, once, i);
    var loaded' := LoadExists(once, own, i);
    var twice := PassExists(once, own, loaded', cs);
    PassChangesNothingIff(once, own, loaded', cs, twice);
    NotStill(once, own, loaded', cs, i);
  }

  lemma LeftBehind(l: Log, own: set<nat>, loaded: map<Key, nat>, cs: seq<Closing>, l': Log, i: nat)
    requires Numbered(l) && Passed(l, own, loaded, cs, l') && IsOwn(l, own, i) && KeyOf(l.rows[i]) in loaded
      && loaded[KeyOf(l.rows[i])] != i
    ensures i in l'.rows && l'.rows[i] == l.rows[i]
  {
    hide KeyOf, Written, Swept;
    var r, ids :| Written(l, loaded, cs, r, ids) && Swept(loaded, cs, r, l');
    OthersStay(l, loaded, cs, r, ids, l', i);
  }

  lemma NotStill(l: Log, own: set<nat>, loaded: map<Key, nat>, cs: seq<Closing>, i: nat)
    requires IsOwn(l, own, i) && KeyOf(l.rows[i]) in loaded && loaded[KeyOf(l.rows[i])] == i && !Recorded(l.rows[i], cs)
    ensures !Still(l, loaded, cs)
  {
    hide KeyOf, PairOf, Records;
    var key := KeyOf(l.rows[i]);
    forall k | 0 <= k < |cs| && PairOf(cs[k]) == key ensures !StillAt(l, loaded, cs[k]) {
      assert !Records(l.rows[i], cs[k]);
    }
  }

  /** A second pass over the same closings changes no row, whatever order rows are selected in, exactly
      when every closing's inactive side belongs to the document and the document's own rows about one
      pair, if there are several, all record its closing already. */
  lemma SecondPassChangesNothingIff(l: Log, own: set<nat>, cs: seq<Closing>)
    requires Numbered(l) && OnePerPair(cs)
    ensures SecondPassNeverChanges(l, own, cs) <==> AllOwn(own, cs) && HarmlessTwins(l, own, cs)
  {
    hide Passed, Numbered, OnePerPair, AllOwn, Recorded, KeyOf;
    if AllOwn(own, cs) && HarmlessTwins(l, own, cs) {
      forall loaded, once, loaded', twice | Passed(l, own, loaded, cs, once) && Passed(once, own, loaded', cs, twice)
        ensures twice.rows == once.rows
      {
        SecondPassKeeps(l, own, cs, loaded, once, loaded', twice);
      }
    } else if !AllOwn(own, cs) {
      SomePass(l, own, cs);
    } else {
      var i, j :| Twins(l, own, i, j) && !Recorded(l.rows[i], cs);
      TwinComesBack(l, own, cs, i, j);
    }
  }

  lemma AnyLoad(l: Log, own: set<nat>) returns (loaded: map<Key, nat>)
    ensures IsLoaded(l, own, loaded)
  {
    if id :| IsOwn(l, own, id) {
      loaded := LoadExists(l, own, id);
    } else {
      loaded := map[];
    }
  }

  lemma SomePass(l: Log, own: set<nat>, cs: seq<Closing>)
    requires Numbered(l) && OnePerPair(cs) && !AllOwn(own, cs)
    ensures !SecondPassNeverChanges(l, own, cs)
  {
    hide IsLoaded, Passed, OnePerPair, AllOwn;
    var loaded := AnyLoad(l, own);
    var once := PassExists(l, own, loaded, cs);
    PassKeepsNumbers(l, own, loaded, cs, once);
    var loaded' := AnyLoad(once, own);
    var twice := PassExists(once, own, loaded', cs);
    ForeignClosingIsRewritten(once, own, loaded', cs, twice);
  }

  // ---------------------------------------------------------------- rows selected in the order of their ids

  /** Of the rows about one pair the one with the greatest id was loaded. */
  ghost predicate LoadedByAge(l: Log, own: set<nat>, loaded: map<Key, nat>) {
    IsLoaded(l, own, loaded) && forall id :: IsOwn(l, own, id) ==> id <= loaded[KeyOf(l.rows[id])]
  }

  lemma AscendingIsByAge(l: Log, own: set<nat>, selected: seq<nat>)
    requires Ascending(selected) && forall id :: id in selected <==> IsOwn(l, own, id)
    ensures LoadedByAge(l, own, Fill(l, selected))
  {
    hide KeyOf, Fill, Ascending;
    FillLoads(l, own, selected);
    forall id | IsOwn(l, own, id) ensures id <= Fill(l, selected)[KeyOf(l.rows[id])] {
      FillKeepsGreatest(l, selected, id);
    }
  }

  /** Every pair that several of the document's own rows are about is closed. */
  ghost predicate TwinsAreClosed(l: Log, own: set<nat>, cs: seq<Closing>) {
    forall i, j :: Twins(l, own, i, j) ==> Closes(cs, KeyOf(l.rows[i]))
  }

  /** When rows come in the order of their ids, a pass that records a closing in an old row is followed by
      one that finds it there again. */
  lemma SameRowFoundAgain(l: Log, own: set<nat>, loaded: map<Key, nat>, cs: seq<Closing>, r: Log, ids: seq<nat>,
      once: Log, loaded': map<Key, nat>, k: nat)
    requires Numbered(l) && OnePerPair(cs) && LoadedByAge(l, own, loaded) && LoadedByAge(once, own, loaded')
    requires Written(l, loaded, cs, r, ids) && Swept(loaded, cs, r, once) && k < |cs| && cs[k].inactive in own
    ensures StillAt(once, loaded', cs[k])
  {
    hide KeyOf, PairOf, Records, Swept, Written, IsStale, OnePerPair;
    WrittenStays(l, own, loaded, cs, r, ids, once, k);
    RecordsPair(once.rows[ids[k]], cs[k]);
    assert IsOwn(once, own, ids[k]);
    var id := loaded'[PairOf(cs[k])];
    OwnRowIsOldOrWritten(l, loaded, cs, r, ids, once, id);
    if x :| 0 <= x < |cs| && x < |ids| && ids[x] == id {
      WrittenStays(l, own, loaded, cs, r, ids, once, x);
      RecordsPair(once.rows[id], cs[x]);
      SameClosing(cs, x, k);
    } else {
      assert IsOwn(l, own, id);
      WrittenRow(l, loaded, cs, r, ids, k);
    }
  }

  lemma OwnRowIsOldOrWritten(l: Log, loaded: map<Key, nat>, cs: seq<Closing>, r: Log, ids: seq<nat>, l': Log, id: nat)
    requires Written(l, loaded, cs, r, ids) && Swept(loaded, cs, r, l') && id in l'.rows
    ensures (exists k :: 0 <= k < |cs| && k < |ids| && ids[k] == id)
      || (id !in ids && id in l.rows && l'.rows[id] == l.rows[id])
  {
    hide WrittenAt, IsStale;
  }

  /** In the order of their ids the second pass changes no row exactly when every closing's inactive side
      belongs to the document and the pairs with several rows are all closed. */
  lemma SecondPassByAgeIff(
      l: Log, own: set<nat>, cs: seq<Closing>, loaded: map<Key, nat>, once: Log, loaded': map<Key, nat>, twice: Log)
    requires Numbered(l) && OnePerPair(cs) && Passed(l, own, loaded, cs, once) && Passed(once, own, loaded', cs, twice)
    requires LoadedByAge(l, own, loaded) && LoadedByAge(once, own, loaded')
    ensures twice.rows == once.rows <==> AllOwn(own, cs) && TwinsAreClosed(l, own, cs)
  {
    hide KeyOf, PairOf, Records, Swept, Written, Closes, StillAt, OnePerPair, LoadedByAge;
    PassKeepsNumbers(l, own, loaded, cs, once);
    PassChangesNothingIff(once, own, loaded', cs, twice);
    var r, ids :| Written(l, loaded, cs, r, ids) && Swept(loaded, cs, r, once);
    if !AllOwn(own, cs) {
      ForeignClosingIsRewritten(once, own, loaded', cs, twice);
    } else if i, j :| Twins(l, own, i, j) && !Closes(cs, KeyOf(l.rows[i])) {
      var other := if loaded[KeyOf(l.rows[i])] == i then j else i;
      LeftBehind(l, own, loaded, cs, once, other);
      assert IsOwn(once, own, other);
    } else {
      forall k | 0 <= k < |cs| ensures StillAt(once, loaded', cs[k]) {
        SameRowFoundAgain(l, own, loaded, cs, r, ids, once, loaded', k);
      }
      forall key | key in loaded' ensures Closes(cs, key) {
        OnlyClosedAgain(l, own, loaded, cs, r, ids, once, loaded'[key]);
      }
    }
  }

  lemma OnlyClosedAgain(l: Log, own: set<nat>, loaded: map<Key, nat>, cs: seq<Closing>, r: Log, ids: seq<nat>,
      once: Log, id: nat)
    requires Numbered(l) && IsLoaded(l, own, loaded) && TwinsAreClosed(l, own, cs)
    requires Written(l, loaded, cs, r, ids) && Swept(loaded, cs, r, once) && IsOwn(once, own, id)
    ensures Closes(cs, KeyOf(once.rows[id]))
  {
    hide KeyOf, PairOf, Records, Swept, Written, Closes, Recorded;
    OwnRowAfterPass(l, own, loaded, cs, r, ids, once, id);
    if Recorded(once.rows[id], cs) {
      RecordedCloses(once.rows[id], cs);
    } else {
      assert Twins(l, own, id, loaded[KeyOf(l.rows[id])]);
    }
  }

  /** Two inputs on which a second pass does change rows: a closing on another document's claim, and two
      rows about one pair that nothing closes. */
  lemma SecondPassCanChange(own: set<nat>, foreign: seq<Closing>, l: Log)
    requires own == {1} && foreign == [Closing(2, 1, 0, "claim active/retracted")]
    requires l == Log(map[0 := Row(1, 2, 0, 0, ""), 1 := Row(1, 2, 0, 0, "")], 2)
    ensures !SecondPassNeverChanges(Log(map[], 0), own, foreign)
    ensures AllOwn(own, []) && !SecondPassNeverChanges(l, own, [])
  {
    hide SecondPassNeverChanges;
    assert foreign[0].inactive !in own;
    SecondPassChangesNothingIff(Log(map[], 0), own, foreign);
    assert Twins(l, own, 0, 1) && !Recorded(l.rows[0], []);
    SecondPassChangesNothingIff(l, own, []);
  }
}
