/** Where a draft's quote is located (app/claims/extract.py:228-242): in its chunk if it is there, and only else
    anywhere in the version. */
module ExtractMeaning {
  import opened Common
  import opened Segment
  import opened Align
  import opened Forms
  import opened Extract

  lemma {:induction false} FirstOccurrenceExists(s: string, q: string, i: nat) returns (first: nat)
    requires OccursAt(s, q, i)
    ensures FirstOccurrence(s, q, first)
  {
    if k: nat :| k < i && OccursAt(s, q, k) {
      first := FirstOccurrenceExists(s, q, k);
    } else {
      first := i;
    }
  }

  lemma {:induction false} EndExists(f: Folding, text: string, from: nat) returns (end: nat)
    requires from <= |text|
    ensures from <= end <= |text| && (forall i :: from <= i < end ==> f.combining(text[i]))
      && (end < |text| ==> !f.combining(text[end]))
    decreases |text| - from
  {
    if from < |text| && f.combining(text[from]) {
      end := EndExists(f, text, from + 1);
    } else {
      end := from;
    }
  }

  /** What matches exactly or in its normal form is aligned somewhere. */
  lemma MatchIsAligned(f: Folding, fuzzy: Fuzzy, text: string, quote: string) returns (s: Span)
    requires ExactMatch(text, quote) || NormalMatch(f, text, quote)
    ensures Aligned(f, fuzzy, text, quote, Some(s)) && s.start <= s.end <= |text|
  {
    hide Fold, Strip, Positions;
    if ExactMatch(text, quote) {
      var k: nat :| OccursAt(text, quote, k);
      var i := FirstOccurrenceExists(text, quote, k);
      s := Span(i, i + |quote|);
    } else {
      var q, n := QuoteForm(f, quote), NormalForm(f, text);
      var k: nat :| OccursAt(n, q, k);
      var i := FirstOccurrenceExists(n, q, k);
      PositionsAreSound(f, text);
      var last := Positions(f, text)[i + |q| - 1];
      var end := EndExists(f, text, last + 1);
      s := Span(Positions(f, text)[i], end);
      assert Positions(f, text)[i] <= last;
      assert MapsBack(f, text, i, i + |q|, s);
    }
  }

  /** A quote whose words are somewhere in its chunk is located inside the chunk. */
  lemma QuoteIsLocatedInItsChunk(
      store: ClaimStore, chunk: Chunk, text: string, quote: string, start: nat, end: nat, span: Option<Span>)
    requires Faithful(store.folding) && start <= end <= |chunk.text|
    requires Words(store.folding, chunk.text[start..end]) == Words(store.folding, quote) != []
    requires store.Locates(chunk, text, quote, span)
    ensures span.Some? && chunk.start <= span.value.start <= span.value.end <= chunk.start + |chunk.text|
  {
    hide Words, Aligned;
    var f, fuzzy := store.folding, store.fuzzy;
    SameWordsMatch(f, chunk.text, quote, start, end);
    var s := MatchIsAligned(f, fuzzy, chunk.text, quote);
    var t :| Aligned(f, fuzzy, chunk.text, quote, Some(t)) && span == Shift(Some(t), chunk.start);
    AlignedOnce(f, fuzzy, chunk.text, quote, Some(s), Some(t));
  }

  /** A quote whose words are somewhere in the version is located, whatever its chunk says. */
  lemma QuoteIsLocatedInItsVersion(
      store: ClaimStore, chunk: Chunk, text: string, quote: string, start: nat, end: nat, span: Option<Span>)
    requires Faithful(store.folding) && start <= end <= |text|
    requires Words(store.folding, text[start..end]) == Words(store.folding, quote) != []
    requires store.Locates(chunk, text, quote, span)
    ensures span.Some?
  {
    hide Words, Aligned;
    var f, fuzzy := store.folding, store.fuzzy;
    if !exists s :: Aligned(f, fuzzy, chunk.text, quote, Some(s)) {
      SameWordsMatch(f, text, quote, start, end);
      var s := MatchIsAligned(f, fuzzy, text, quote);
      AlignedOnce(f, fuzzy, text, quote, Some(s), span);
    }
  }
}
