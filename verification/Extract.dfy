/** Storing aligned claims (app/claims/extract.py): a draft's quote is located in its chunk, or else
    in the whole version, and the stored quote is read again from the version's text. */
module Extract {
  import opened Common
  import opened Segment
  import opened Align

  datatype Version = Version(cleanText: string, effectiveAt: int)
  datatype Chunk = Chunk(start: nat, text: string)
  datatype Draft = Draft(statement: string, quote: string)
  datatype Stored = Stored(
      version: nat, statement: string, quote: string, start: nat, end: nat, hash: int, assertedAt: int)

  /** An `asserted` event. */
  datatype Assertion = Assertion(claim: nat, at: int)

  datatype Outcome = Rejected | Unchanged | Created

  /** A chunk's text is the slice of the version it says it is. */
  ghost predicate ChunkOf(chunk: Chunk, text: string) {
    chunk.start + |chunk.text| <= |text| && text[chunk.start..chunk.start + |chunk.text|] == chunk.text
  }

  /** The quote stored with a claim is what its offsets cut out of its version. */
  ghost predicate Cites(c: Stored, versions: seq<Version>) {
    && c.version < |versions|
    && c.start < c.end <= |versions[c.version].cleanText|
    && c.quote == versions[c.version].cleanText[c.start..c.end]
    && c.assertedAt == versions[c.version].effectiveAt
  }

  class ClaimStore {
    const folding: Folding
    const fuzzy: Fuzzy
    const hash: (string, nat, nat) -> int
    const versions: seq<Version>
    var claims: seq<Stored>
    var events: seq<Assertion>

    constructor (folding: Folding, fuzzy: Fuzzy, hash: (string, nat, nat) -> int, versions: seq<Version>)
      requires InRange(fuzzy)
      ensures Valid() && claims == [] && this.versions == versions
    {
      this.folding, this.fuzzy, this.hash, this.versions := folding, fuzzy, hash, versions;
      claims, events := [], [];
    }

    /** Every stored quote is faithful, no version stores the same claim twice, and each claim has
        its one `asserted` event. */
    ghost predicate Valid()
      reads this
    {
      && InRange(fuzzy)
      && (forall i :: 0 <= i < |claims| ==>
        Cites(claims[i], versions) && claims[i].hash == hash(claims[i].statement, claims[i].start, claims[i].end))
      && (forall i, j :: 0 <= i < j < |claims| ==> !SameClaim(claims[i], claims[j]))
      && |events| == |claims|
      && (forall i :: 0 <= i < |events| ==> events[i] == Assertion(i, claims[i].assertedAt))
    }

    predicate SameClaim(a: Stored, b: Stored) {
      a.version == b.version && a.hash == b.hash
    }

    /** Where a draft's quote is: in its chunk, or else in the whole version, or nowhere. */
    ghost predicate Locates(chunk: Chunk, text: string, quote: string, span: Option<Span>) {
      if exists s :: Aligned(folding, fuzzy, chunk.text, quote, Some(s))
      then exists s :: Aligned(folding, fuzzy, chunk.text, quote, Some(s)) && span == Shift(Some(s), chunk.start)
      else Aligned(folding, fuzzy, text, quote, span)
    }

    /** Nothing is left to do for a draft: it is nowhere, or its claim is stored. */
    ghost predicate Held(stored: seq<Stored>, v: nat, chunk: Chunk, draft: Draft)
      requires v < |versions|
    {
      exists span :: Locates(chunk, versions[v].cleanText, draft.quote, span)
        && (span.Some? ==> Has(stored, v, hash(draft.statement, span.value.start, span.value.end)))
    }

    lemma LocatedOnce(chunk: Chunk, text: string, quote: string, a: Option<Span>, b: Option<Span>)
      requires Locates(chunk, text, quote, a) && Locates(chunk, text, quote, b)
      ensures a == b
    {
      hide Aligned;
      if s :| Aligned(folding, fuzzy, chunk.text, quote, Some(s)) {
        forall t | Aligned(folding, fuzzy, chunk.text, quote, Some(t)) ensures t == s {
          AlignedOnce(folding, fuzzy, chunk.text, quote, Some(s), Some(t));
        }
      } else {
        AlignedOnce(folding, fuzzy, text, quote, a, b);
      }
    }

    method Locate(v: nat, chunk: Chunk, draft: Draft) returns (span: Option<Span>)
      requires InRange(fuzzy) && v < |versions|
      ensures Locates(chunk, versions[v].cleanText, draft.quote, span)
    {
      hide Aligned;
      span := AlignQuote(folding, fuzzy, draft.quote, chunk.text, chunk.start);
      if span.Some? {
        assert Shift(Some(Span(span.value.start - chunk.start, span.value.end - chunk.start)), chunk.start) == span;
      } else {
        span := AlignQuote(folding, fuzzy, draft.quote, versions[v].cleanText, 0);
        assert span.Some? ==> Some(Span(span.value.start - 0, span.value.end - 0)) == span;
        forall s ensures !Aligned(folding, fuzzy, chunk.text, draft.quote, Some(s)) {
          if Aligned(folding, fuzzy, chunk.text, draft.quote, Some(s)) {
            AlignedOnce(folding, fuzzy, chunk.text, draft.quote, None, Some(s));
          }
        }
      }
    }

    /** A located span is a non-empty slice of the version, and its text is evidence for the quote. */
    lemma LocatedIsEvidence(chunk: Chunk, text: string, quote: string, s: Span)
      requires Locates(chunk, text, quote, Some(s)) && ChunkOf(chunk, text)
      ensures s.start < s.end <= |text|
      ensures Evidence(folding, fuzzy, text, quote, s)
        || (chunk.start <= s.start
        && Evidence(folding, fuzzy, chunk.text, quote, Span(s.start - chunk.start, s.end - chunk.start)))
    {
      hide Aligned;
      if t :| Aligned(folding, fuzzy, chunk.text, quote, Some(t)) {
        LocatedOnce(chunk, text, quote, Some(s), Shift(Some(t), chunk.start));
        AlignedIsEvidence(folding, fuzzy, chunk.text, quote, t);
      } else {
        AlignedIsEvidence(folding, fuzzy, text, quote, s);
      }
    }

    /** An offset into the chunk addresses the same text in the version. */
    lemma ChunkOffsets(chunk: Chunk, text: string, s: Span)
      requires ChunkOf(chunk, text) && s.start <= s.end <= |chunk.text|
      ensures chunk.start + s.end <= |text|
        && text[chunk.start + s.start..chunk.start + s.end] == chunk.text[s.start..s.end]
    {
      var window := text[chunk.start..chunk.start + |chunk.text|];
      forall i | s.start <= i < s.end ensures window[i] == text[chunk.start + i] {
      }
      assert window == chunk.text;
    }

    /** `_persist`. */
    method Persist(v: nat, chunk: Chunk, draft: Draft) returns (outcome: Outcome)
      requires Valid() && v < |versions| && ChunkOf(chunk, versions[v].cleanText)
      modifies this
      ensures Valid()
      ensures Held(claims, v, chunk, draft)
      ensures outcome == Rejected <==> Locates(chunk, versions[v].cleanText, draft.quote, None)
      ensures outcome == Created <==> !Held(old(claims), v, chunk, draft)
      ensures outcome != Created ==> claims == old(claims) && events == old(events)
      ensures outcome == Created ==>
        && |claims| == |old(claims)| + 1 && claims[..|old(claims)|] == old(claims)
        && events == old(events) + [Assertion(|old(claims)|, versions[v].effectiveAt)]
        && var c := claims[|old(claims)|];
           c.version == v && c.statement == draft.statement
             && Locates(chunk, versions[v].cleanText, draft.quote, Some(Span(c.start, c.end)))
    {
      hide Locates, ChunkOf;
      var span := Locate(v, chunk, draft);
      ghost var text := versions[v].cleanText;
      forall other | Locates(chunk, text, draft.quote, other) ensures other == span {
        LocatedOnce(chunk, text, draft.quote, other, span);
      }
      if span.None? {
        return Rejected;
      }
      var start, end := span.value.start, span.value.end;
      LocatedIsEvidence(chunk, text, draft.quote, span.value);
      var digest := hash(draft.statement, start, end);
      var existing := FindClaim(v, digest);
      if existing {
        return Unchanged;
      }
      var quote := versions[v].cleanText[start..end];
      var claim := Stored(v, draft.statement, quote, start, end, digest, versions[v].effectiveAt);
      assert span == Some(Span(claim.start, claim.end));
      claims := claims + [claim];
      events := events + [Assertion(|claims| - 1, claim.assertedAt)];
      assert claims[|claims| - 1] == claim;
      return Created;
    }

    method FindClaim(v: nat, h: int) returns (found: bool)
      ensures found <==> Has(claims, v, h)
    {
      for i := 0 to |claims|
        invariant forall k :: 0 <= k < i ==> !(claims[k].version == v && claims[k].hash == h)
      {
        if claims[i].version == v && claims[i].hash == h {
          return true;
        }
      }
      return false;
    }

    /** `verify_quote_invariant`: the claims whose offsets do not cut out their quote. */
    method VerifyQuotes() returns (bad: seq<nat>)
      requires forall i :: 0 <= i < |claims| ==> claims[i].version < |versions|
      ensures forall i: nat :: i in bad <==> i < |claims| && !Reproduces(claims[i], versions)
      ensures Valid() ==> bad == []
    {
      bad := [];
      for i := 0 to |claims|
        invariant forall k: nat :: k in bad <==> k < i && !Reproduces(claims[k], versions)
      {
        if !Reproduces(claims[i], versions) {
          bad := bad + [i];
        }
      }
      assert bad != [] ==> bad[0] in bad;
    }
  }

  ghost predicate Has(stored: seq<Stored>, v: nat, h: int) {
    exists i :: 0 <= i < |stored| && stored[i].version == v && stored[i].hash == h
  }

  function Slice(text: string, start: nat, end: nat): string {
    var e := if end < |text| then end else |text|;
    if start < e then text[start..e] else ""
  }

  predicate Reproduces(c: Stored, versions: seq<Version>) {
    c.version < |versions| && Slice(versions[c.version].cleanText, c.start, c.end) == c.quote
  }

  // ---------------------------------------------------------------- extraction

  /** One chunk and the drafts made from it. */
  datatype Passage = Passage(chunk: Chunk, drafts: seq<Draft>)

  datatype Stats = Stats(drafts: nat, created: nat, rejected: nat, known: nat)

  ghost predicate AllHeld(store: ClaimStore, stored: seq<Stored>, v: nat, p: Passage, k: nat)
    requires v < |store.versions| && k <= |p.drafts|
  {
    forall d :: 0 <= d < k ==> store.Held(stored, v, p.chunk, p.drafts[d])
  }

  lemma OneMoreHeld(store: ClaimStore, fewer: seq<Stored>, more: seq<Stored>, v: nat, p: Passage, k: nat)
    requires v < |store.versions| && k < |p.drafts| && fewer <= more
    requires AllHeld(store, fewer, v, p, k) && store.Held(more, v, p.chunk, p.drafts[k])
    ensures AllHeld(store, more, v, p, k + 1)
  {
    forall d | 0 <= d < k ensures store.Held(more, v, p.chunk, p.drafts[d]) {
    }
  }

  function Seen(stats: Stats): nat {
    stats.created + stats.rejected + stats.known
  }

  /** The drafts of one chunk. Every claim counted as created is a new row, no row is lost, every
      draft is counted once, and drafts that were dealt with before create nothing. */
  method ExtractChunk(store: ClaimStore, v: nat, p: Passage, sofar: Stats) returns (stats: Stats)
    requires store.Valid() && v < |store.versions| && ChunkOf(p.chunk, store.versions[v].cleanText)
    modifies store
    ensures store.Valid() && old(store.claims) <= store.claims
    ensures stats.created - sofar.created == |store.claims| - |old(store.claims)|
    ensures stats.drafts - sofar.drafts == |p.drafts| == Seen(stats) - Seen(sofar)
    ensures AllHeld(store, store.claims, v, p, |p.drafts|)
    ensures AllHeld(store, old(store.claims), v, p, |p.drafts|) ==> store.claims == old(store.claims)
  {
    hide ClaimStore.Held, ClaimStore.Valid, ClaimStore.Locates, ChunkOf;
    stats := sofar.(drafts := sofar.drafts + |p.drafts|);
    ghost var idle := AllHeld(store, store.claims, v, p, |p.drafts|);
    for d := 0 to |p.drafts|
      invariant store.Valid() && old(store.claims) <= store.claims
      invariant stats.created - sofar.created == |store.claims| - |old(store.claims)|
      invariant stats.drafts == sofar.drafts + |p.drafts| && Seen(stats) - Seen(sofar) == d
      invariant AllHeld(store, store.claims, v, p, d)
      invariant idle ==> store.claims == old(store.claims)
    {
      ghost var was := store.claims;
      var outcome := store.Persist(v, p.chunk, p.drafts[d]);
      OneMoreHeld(store, was, store.claims, v, p, d);
      match outcome
      case Rejected => stats := stats.(rejected := stats.rejected + 1);
      case Created => stats := stats.(created := stats.created + 1);
      case Unchanged => stats := stats.(known := stats.known + 1);
    }
  }
}
