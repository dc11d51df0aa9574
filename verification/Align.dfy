/** Quote alignment (app/claims/align.py) and the storing of aligned claims
    (app/claims/extract.py). The Unicode tables are parameters: folding a character may erase it or
    expand it, and what is proved holds for any choice. */
module Align {
  import opened Common
  import opened Segment

  datatype Folding = Folding(combining: char -> bool, nfkc: char -> string, casefold: char -> string)

  /** Folded text, and whether a space was the last thing seen. */
  datatype Folded = Folded(text: string, spaced: bool)

  // ---------------------------------------------------------------- the table of typographic characters

  /** The keys a dictionary can hold: `str.maketrans` makes numbers of the characters it is given. */
  datatype Key = Number(n: int) | Text(s: string)

  /** What the characters were meant to be folded to. */
  const QUOTES: map<int, char> := map[
    0x2018 := '\'', 0x2019 := '\'', 0x201A := '\'', 0x201B := '\'', 0x201C := '"', 0x201D := '"', 0x201E := '"',
      0x201F := '"',
    0x2013 := '-', 0x2014 := '-', 0x2012 := '-', 0x2015 := '-', 0x2010 := '-', 0x2011 := '-', 0x2212 := '-',
    0xA0 := ' ', 0x2007 := ' ', 0x202F := ' ', 0x3000 := ' '
  ]

  /** `str.maketrans`. */
  function MakeTrans(folds: map<int, char>): map<Key, char> {
    var keys := set code | code in folds :: Number(code);
    map k | k in keys :: folds[k.n]
  }

  const TABLE := MakeTrans(QUOTES)

  /** `_TABLE.get(ch, ch)`: the look-up is with a character, which is a text of length one. */
  function TableGet(ch: char): char {
    if Text([ch]) in TABLE then TABLE[Text([ch])] else ch
  }

  /** The table is keyed by number and asked with a text, so it folds nothing, whatever it lists. */
  lemma TableFoldsNothing(ch: char)
    ensures TableGet(ch) == ch
    ensures ch as int in QUOTES ==> TableGet(ch) != QUOTES[ch as int]
  {
  }

  // ---------------------------------------------------------------- the normal form

  function FoldPiece(f: Folding, piece: char, so: Folded): Folded {
    if f.combining(piece) then so
    else if !IsSpace(piece) then Folded(so.text + f.casefold(piece), false)
    else if so.spaced then so
    else Folded(so.text + f.casefold(' '), true)
  }

  function FoldPieces(f: Folding, pieces: string, so: Folded): Folded {
    if pieces == [] then so else FoldPiece(f, pieces[|pieces| - 1], FoldPieces(f, pieces[..|pieces| - 1], so))
  }

  function FoldChar(f: Folding, ch: char, so: Folded): Folded {
    if f.combining(ch) then so else FoldPieces(f, f.nfkc(ch), so)
  }

  function Fold(f: Folding, text: string, so: Folded): Folded {
    if text == [] then so else FoldChar(f, text[|text| - 1], Fold(f, text[..|text| - 1], so))
  }

  const NOTHING := Folded("", false)

  /** The text before stripping. */
  function NormalForm(f: Folding, text: string): string {
    Fold(f, text, NOTHING).text
  }

  function StripLeft(s: string): string {
    if s != [] && IsSpace(s[0]) then StripLeft(s[1..]) else s
  }

  function StripRight(s: string): string {
    if s != [] && IsSpace(s[|s| - 1]) then StripRight(s[..|s| - 1]) else s
  }

  function Strip(s: string): string {
    StripRight(StripLeft(s))
  }

  function Repeat(index: nat, n: nat): seq<nat> {
    seq(n, _ => index)
  }

  /** For each character of the normal form, the position it came from. */
  function Positions(f: Folding, text: string): (p: seq<nat>) {
    if text == [] then []
    else
      var before := Fold(f, text[..|text| - 1], NOTHING).text;
      var more := |NormalForm(f, text)| - |before|;
      Positions(f, text[..|text| - 1]) + Repeat(|text| - 1, if more < 0 then 0 else more)
  }

  // ---------------------------------------------------------------- the loops

  method FoldInto(f: Folding, ch: char, chars: string, spaced: bool) returns (out: string, previousWasSpace: bool)
    ensures Folded(out, previousWasSpace) == FoldChar(f, ch, Folded(chars, spaced))
  {
    hide TableGet, QUOTES;
    out, previousWasSpace := chars, spaced;
    var folded := TableGet(ch);
    TableFoldsNothing(ch);
    if f.combining(folded) {
      return;
    }
    var pieces := f.nfkc(folded);
    for k := 0 to |pieces|
      invariant Folded(out, previousWasSpace) == FoldPieces(f, pieces[..k], Folded(chars, spaced))
    {
      assert pieces[..k + 1][..k] == pieces[..k];
      var piece := pieces[k];
      if f.combining(piece) {
        continue;
      }
      if IsSpace(piece) {
        if previousWasSpace {
          continue;
        }
        previousWasSpace := true;
        piece := ' ';
      } else {
        previousWasSpace := false;
      }
      out := out + f.casefold(piece);
    }
    assert pieces[..|pieces|] == pieces;
  }

  /** `_normalize`. */
  method Normalize(f: Folding, text: string) returns (r: string)
    ensures r == Strip(NormalForm(f, text))
  {
    var chars, spaced := "", false;
    for k := 0 to |text|
      invariant Folded(chars, spaced) == Fold(f, text[..k], NOTHING)
    {
      assert text[..k + 1][..k] == text[..k];
      chars, spaced := FoldInto(f, text[k], chars, spaced);
    }
    assert text[..|text|] == text;
    r := Strip(chars);
  }

  /** `_index_map`. */
  method IndexMap(f: Folding, text: string) returns (chars: string, positions: seq<nat>)
    ensures chars == NormalForm(f, text) && positions == Positions(f, text)
  {
    var spaced := false;
    chars, positions := "", [];
    for index := 0 to |text|
      invariant Folded(chars, spaced) == Fold(f, text[..index], NOTHING)
      invariant positions == Positions(f, text[..index])
    {
      assert text[..index + 1][..index] == text[..index];
      ghost var before := |chars|;
      chars, spaced := FoldInto(f, text[index], chars, spaced);
      FoldCharGrows(f, text[index], Fold(f, text[..index], NOTHING));
      PositionsAreSound(f, text[..index]);
      assert positions == Positions(f, text[..index]) + Repeat(index, 0);
      while |positions| < |chars|
        invariant before <= |positions| <= |chars|
        invariant positions == Positions(f, text[..index]) + Repeat(index, |positions| - before)
      {
        positions := positions + [index];
      }
    }
    assert text[..|text|] == text;
  }

  // ---------------------------------------------------------------- folding is compositional

  function After(so: Folded, more: Folded): Folded {
    Folded(so.text + more.text, more.spaced)
  }

  lemma {:induction false} FoldPiecesFrom(f: Folding, pieces: string, so: Folded)
    ensures FoldPieces(f, pieces, so) == After(so, FoldPieces(f, pieces, Folded("", so.spaced)))
  {
    if pieces != [] {
      FoldPiecesFrom(f, pieces[..|pieces| - 1], so);
    } else {
      assert so.text + "" == so.text;
    }
  }

  lemma FoldCharGrows(f: Folding, ch: char, so: Folded)
    ensures FoldChar(f, ch, so) == After(so, FoldChar(f, ch, Folded("", so.spaced)))
    ensures so.text <= FoldChar(f, ch, so).text
  {
    FoldPiecesFrom(f, f.nfkc(ch), so);
    assert so.text + "" == so.text;
  }

  lemma {:induction false} FoldFrom(f: Folding, text: string, so: Folded)
    ensures Fold(f, text, so) == After(so, Fold(f, text, Folded("", so.spaced)))
  {
    assert so.text + "" == so.text;
    if text != [] {
      var init, ch := text[..|text| - 1], text[|text| - 1];
      FoldFrom(f, init, so);
      var part := Fold(f, init, Folded("", so.spaced));
      FoldCharGrows(f, ch, After(so, part));
      FoldCharGrows(f, ch, part);
    }
  }

  lemma {:induction false} FoldJoin(f: Folding, a: string, b: string, so: Folded)
    ensures Fold(f, a + b, so) == Fold(f, b, Fold(f, a, so))
  {
    if b == [] {
      assert a + b == a;
    } else {
      assert (a + b)[..|a + b| - 1] == a + b[..|b| - 1];
      FoldJoin(f, a, b[..|b| - 1], so);
    }
  }

  /** The normal form of a slice, read on from where the text before it stopped. */
  function Onward(f: Folding, text: string, start: nat, end: nat): Folded
    requires start <= end <= |text|
  {
    Fold(f, text[start..end], Folded("", Fold(f, text[..start], NOTHING).spaced))
  }

  lemma SplitNormalForm(f: Folding, text: string, start: nat, end: nat)
    requires start <= end <= |text|
    ensures NormalForm(f, text[..end]) == NormalForm(f, text[..start]) + Onward(f, text, start, end).text
  {
    assert text[..end] == text[..start] + text[start..end];
    FoldJoin(f, text[..start], text[start..end], NOTHING);
    FoldFrom(f, text[start..end], Fold(f, text[..start], NOTHING));
  }

  // ---------------------------------------------------------------- positions

  /** The position map is parallel to the normal form, in range and non-decreasing. */
  lemma {:induction false} PositionsAreSound(f: Folding, text: string)
    ensures |Positions(f, text)| == |NormalForm(f, text)|
    ensures forall j :: 0 <= j < |Positions(f, text)| ==> Positions(f, text)[j] < |text|
    ensures forall i, j :: 0 <= i < j < |Positions(f, text)| ==> Positions(f, text)[i] <= Positions(f, text)[j]
  {
    if text != [] {
      var init := text[..|text| - 1];
      PositionsAreSound(f, init);
      FoldCharGrows(f, text[|text| - 1], Fold(f, init, NOTHING));
    }
  }

  /** Which part of the normal form comes from the first `k` characters. */
  lemma {:induction false} PositionsCut(f: Folding, text: string, k: nat, j: nat)
    requires k <= |text| && j < |Positions(f, text)|
    ensures Positions(f, text)[j] < k <==> j < |NormalForm(f, text[..k])|
  {
    PositionsAreSound(f, text);
    if k == |text| {
      assert text[..k] == text;
    } else {
      var init := text[..|text| - 1];
      assert init[..k] == text[..k];
      PositionsAreSound(f, init);
      if j < |Positions(f, init)| {
        PositionsCut(f, init, k, j);
      } else {
        SplitNormalForm(f, init, k, |init|);
        assert init[..|init|] == init;
      }
    }
  }

  // ---------------------------------------------------------------- a slice keeps its matches

  /** How folding from a fresh start can differ from folding just after a space. */
  ghost predicate Lags(f: Folding, anew: Folded, afterSpace: Folded) {
    || (anew == Folded("", false) && afterSpace == Folded("", true))
    || (anew.spaced == afterSpace.spaced
      && (anew.text == afterSpace.text || anew.text == f.casefold(' ') + afterSpace.text))
  }

  lemma LagsPiece(f: Folding, piece: char, x: Folded, y: Folded)
    requires Lags(f, x, y)
    ensures Lags(f, FoldPiece(f, piece, x), FoldPiece(f, piece, y))
  {
    hide IsSpace;
    var sp, c := f.casefold(' '), f.casefold(piece);
    assert sp + (y.text + c) == (sp + y.text) + c && sp + (y.text + sp) == (sp + y.text) + sp;
    assert "" + sp == sp && sp + "" == sp && "" + c == c;
  }

  lemma {:induction false} LagsPieces(f: Folding, pieces: string, x: Folded, y: Folded)
    requires Lags(f, x, y)
    ensures Lags(f, FoldPieces(f, pieces, x), FoldPieces(f, pieces, y))
  {
    hide Lags, FoldPiece;
    if pieces != [] {
      LagsPieces(f, pieces[..|pieces| - 1], x, y);
      LagsPiece(f, pieces[|pieces| - 1], FoldPieces(f, pieces[..|pieces| - 1], x),
        FoldPieces(f, pieces[..|pieces| - 1], y));
    }
  }

  lemma {:induction false} LagsText(f: Folding, text: string, x: Folded, y: Folded)
    requires Lags(f, x, y)
    ensures Lags(f, Fold(f, text, x), Fold(f, text, y))
  {
    hide Lags, FoldPiece, FoldPieces;
    if text != [] {
      var init, ch := text[..|text| - 1], text[|text| - 1];
      LagsText(f, init, x, y);
      LagsPieces(f, f.nfkc(ch), Fold(f, init, x), Fold(f, init, y));
    }
  }

  ghost predicate OccursAt(s: string, q: string, i: int) {
    0 <= i && i + |q| <= |s| && s[i..i + |q|] == q
  }

  ghost predicate Contains(s: string, q: string) {
    exists i :: OccursAt(s, q, i)
  }

  lemma OccursInside(pre: string, s: string, q: string, i: int)
    requires OccursAt(s, q, i)
    ensures OccursAt(pre + s, q, |pre| + i)
  {
    assert (pre + s)[|pre| + i..|pre| + i + |q|] == s[i..i + |q|];
  }

  /** A slice that holds all the characters a match came from holds the match in its own normal
      form, up to one leading space. */
  lemma SliceHoldsMatch(f: Folding, text: string, q: string, i: nat, start: nat, end: nat)
    requires OccursAt(NormalForm(f, text), q, i) && q != "" && |Positions(f, text)| == |NormalForm(f, text)|
    requires start <= Positions(f, text)[i] && Positions(f, text)[i + |q| - 1] < end <= |text|
    ensures start <= end && Contains(NormalForm(f, text[start..end]), q)
  {
    hide Fold, Positions, Lags, After;
    PositionsAreSound(f, text);
    assert Positions(f, text)[i] <= Positions(f, text)[i + |q| - 1];
    PositionsCut(f, text, start, i);
    PositionsCut(f, text, end, i + |q| - 1);
    SplitNormalForm(f, text, start, end);
    SplitNormalForm(f, text, end, |text|);
    assert text[..|text|] == text;
    var a := |NormalForm(f, text[..start])|;
    var onward := Onward(f, text, start, end).text;
    assert OccursAt(onward, q, i - a) by {
      var whole := NormalForm(f, text);
      assert whole == NormalForm(f, text[..start]) + onward + Onward(f, text, end, |text|).text;
      assert onward[i - a..i - a + |q|] == whole[i..i + |q|];
    }
    SliceLags(f, text, start, end, q, i - a);
  }

  lemma SliceLags(f: Folding, text: string, start: nat, end: nat, q: string, i: nat)
    requires start <= end <= |text| && OccursAt(Onward(f, text, start, end).text, q, i)
    ensures Contains(NormalForm(f, text[start..end]), q)
  {
    var slice := text[start..end];
    if Fold(f, text[..start], NOTHING).spaced {
      var later := Folded("", true);
      LagsText(f, slice, NOTHING, later);
      var own, onward := NormalForm(f, slice), Fold(f, slice, later).text;
      assert Lags(f, Fold(f, slice, NOTHING), Fold(f, slice, later));
      if own == onward {
        assert OccursAt(own, q, i);
      } else {
        assert own == f.casefold(' ') + onward;
        OccursInside(f.casefold(' '), onward, q, i);
      }
    } else {
      assert OccursAt(NormalForm(f, slice), q, i);
    }
  }

  // ---------------------------------------------------------------- stripping

  ghost predicate Stripped(q: string) {
    q != "" ==> !IsSpace(q[0]) && !IsSpace(q[|q| - 1])
  }

  lemma {:induction false} StripLeftKeeps(s: string, q: string, i: nat)
    requires OccursAt(s, q, i) && q != "" && Stripped(q)
    ensures Contains(StripLeft(s), q)
  {
    hide IsSpace;
    if s != [] && IsSpace(s[0]) {
      assert s[i] == q[0];
      assert s[1..][i - 1..i - 1 + |q|] == s[i..i + |q|];
      StripLeftKeeps(s[1..], q, i - 1);
    } else {
      assert OccursAt(StripLeft(s), q, i);
    }
  }

  lemma {:induction false} StripRightKeeps(s: string, q: string, i: nat)
    requires OccursAt(s, q, i) && q != "" && Stripped(q)
    ensures Contains(StripRight(s), q)
  {
    hide IsSpace;
    if s != [] && IsSpace(s[|s| - 1]) {
      assert s[i + |q| - 1] == q[|q| - 1];
      assert s[..|s| - 1][i..i + |q|] == s[i..i + |q|];
      StripRightKeeps(s[..|s| - 1], q, i);
    } else {
      assert OccursAt(StripRight(s), q, i);
    }
  }

  lemma StripKeeps(s: string, q: string)
    requires Contains(s, q) && q != "" && Stripped(q)
    ensures Contains(Strip(s), q)
  {
    var i :| OccursAt(s, q, i);
    StripLeftKeeps(s, q, i);
    var j :| OccursAt(StripLeft(s), q, j);
    StripRightKeeps(StripLeft(s), q, j);
  }

  lemma {:induction false} StripLeftStrips(s: string)
    ensures StripLeft(s) != "" ==> !IsSpace(StripLeft(s)[0])
  {
    hide IsSpace;
    if s != [] && IsSpace(s[0]) {
      StripLeftStrips(s[1..]);
    }
  }

  lemma {:induction false} StripRightStrips(s: string)
    ensures StripRight(s) <= s
    ensures StripRight(s) != "" ==> !IsSpace(StripRight(s)[|StripRight(s)| - 1])
  {
    hide IsSpace;
    if s != [] && IsSpace(s[|s| - 1]) {
      StripRightStrips(s[..|s| - 1]);
    }
  }

  lemma StripStrips(s: string)
    ensures Stripped(Strip(s))
  {
    hide IsSpace;
    StripLeftStrips(s);
    StripRightStrips(StripLeft(s));
  }

  // ---------------------------------------------------------------- alignment

  /** `s.find(q)`: the first occurrence, or -1. */
  method Find(s: string, q: string) returns (r: int)
    ensures r == -1 || OccursAt(s, q, r)
    ensures forall i :: OccursAt(s, q, i) ==> 0 <= r <= i
  {
    r := 0;
    while r + |q| <= |s|
      invariant 0 <= r
      invariant forall i :: OccursAt(s, q, i) ==> r <= i
    {
      if s[r..r + |q|] == q {
        return;
      }
      r := r + 1;
    }
    r := -1;
  }

  ghost predicate FirstOccurrence(s: string, q: string, i: int) {
    OccursAt(s, q, i) && forall k :: OccursAt(s, q, k) ==> i <= k
  }

  /** `_expand_combining`. */
  method ExpandCombining(f: Folding, text: string, start: nat, end: nat) returns (s: nat, e: nat)
    requires start < end <= |text|
    ensures s <= start && (s > 0 ==> !f.combining(text[s])) && forall i :: s < i <= start ==> f.combining(text[i])
    ensures end <= e <= |text| && (e < |text| ==> !f.combining(text[e]))
      && forall i :: end <= i < e ==> f.combining(text[i])
  {
    s, e := start, end;
    while s > 0 && f.combining(text[s])
      invariant s <= start && forall i :: s < i <= start ==> f.combining(text[i])
    {
      s := s - 1;
    }
    while e < |text| && f.combining(text[e])
      invariant end <= e <= |text| && forall i :: end <= i < e ==> f.combining(text[i])
    {
      e := e + 1;
    }
  }

  /** Characters that leave a trace in the normal form are not combining. */
  lemma {:induction false} TracesAreNotCombining(f: Folding, text: string, j: nat)
    requires j < |Positions(f, text)|
    ensures Positions(f, text)[j] < |text| && !f.combining(text[Positions(f, text)[j]])
  {
    var init := text[..|text| - 1];
    if j < |Positions(f, init)| {
      TracesAreNotCombining(f, init, j);
    }
  }

  /** The span the characters `lo`, ..., `hi - 1` of the normal form map back to: from the first
      one's origin to the last one's, with the combining characters that follow it. */
  ghost predicate MapsBack(f: Folding, text: string, lo: int, hi: int, s: Span) {
    && 0 <= lo < hi <= |Positions(f, text)|
    && s.start == Positions(f, text)[lo]
    && Positions(f, text)[hi - 1] < s.end <= |text|
    && (forall i :: Positions(f, text)[hi - 1] < i < s.end ==> f.combining(text[i]))
    && (s.end < |text| ==> !f.combining(text[s.end]))
  }

  method MapBack(f: Folding, text: string, positions: seq<nat>, lo: nat, hi: nat) returns (s: Span)
    requires positions == Positions(f, text) && lo < hi <= |positions|
    ensures MapsBack(f, text, lo, hi, s) && s.start < s.end
  {
    hide Positions;
    PositionsAreSound(f, text);
    var start, end := positions[lo], positions[hi - 1] + 1;
    assert lo < hi - 1 ==> positions[lo] <= positions[hi - 1];
    var b, e := ExpandCombining(f, text, start, end);
    TracesAreNotCombining(f, text, lo);
    s := Span(b, e);
  }

  lemma {:induction false} CombiningErased(f: Folding, text: string, so: Folded)
    requires forall i :: 0 <= i < |text| ==> f.combining(text[i])
    ensures Fold(f, text, so) == so
  {
    if text != [] {
      CombiningErased(f, text[..|text| - 1], so);
    }
  }

  /** Taking in the combining characters does not change the slice's normal form. */
  lemma ExpansionAddsNothing(f: Folding, text: string, lo: int, hi: int, s: Span)
    requires MapsBack(f, text, lo, hi, s)
    ensures s.start <= Positions(f, text)[hi - 1]
    ensures NormalForm(f, text[s.start..s.end]) == NormalForm(f, text[s.start..Positions(f, text)[hi - 1] + 1])
  {
    hide Fold, Positions;
    PositionsAreSound(f, text);
    assert lo < hi - 1 ==> Positions(f, text)[lo] <= Positions(f, text)[hi - 1];
    var mid := Positions(f, text)[hi - 1] + 1;
    var a, b := text[s.start..mid], text[mid..s.end];
    assert text[s.start..s.end] == a + b;
    FoldJoin(f, a, b, NOTHING);
    CombiningErased(f, b, Fold(f, a, NOTHING));
  }

  /** The normalised path is sound: the slice's own normal form contains the normalised quote. */
  lemma MatchIsEvidence(f: Folding, text: string, quote: string, i: int, s: Span)
    requires var q := Strip(NormalForm(f, quote));
      q != "" && OccursAt(NormalForm(f, text), q, i) && MapsBack(f, text, i, i + |q|, s)
    ensures s.start <= s.end <= |text|
    ensures Contains(Strip(NormalForm(f, text[s.start..s.end])), Strip(NormalForm(f, quote)))
  {
    hide Fold, Positions, Strip;
    var q := Strip(NormalForm(f, quote));
    StripStrips(NormalForm(f, quote));
    PositionsAreSound(f, text);
    SliceHoldsMatch(f, text, q, i, s.start, s.end);
    StripKeeps(NormalForm(f, text[s.start..s.end]), q);
  }

  /** The fuzzy matcher, given the normalised quote and the normalised chunk: an interval of the
      latter, or nothing. */
  type Fuzzy = (string, string) -> Option<Interval>

  datatype Interval = Interval(lo: nat, hi: nat)

  ghost predicate InRange(fuzzy: Fuzzy) {
    forall q, n :: fuzzy(q, n).Some? ==> fuzzy(q, n).value.lo < fuzzy(q, n).value.hi && fuzzy(q, n).value.lo < |n|
  }

  function QuoteForm(f: Folding, quote: string): string {
    Strip(NormalForm(f, quote))
  }

  ghost predicate ExactMatch(text: string, quote: string) {
    quote != "" && Contains(text, quote)
  }

  ghost predicate NormalMatch(f: Folding, text: string, quote: string) {
    quote != "" && text != "" && QuoteForm(f, quote) != "" && Contains(NormalForm(f, text), QuoteForm(f, quote))
  }

  ghost predicate FuzzyMatch(f: Folding, fuzzy: Fuzzy, text: string, quote: string) {
    && quote != "" && text != "" && QuoteForm(f, quote) != ""
    && var r := fuzzy(QuoteForm(f, quote), NormalForm(f, text));
       r.Some? && r.value.hi <= |NormalForm(f, text)|
  }

  /** Exactly which span, within `text`, a quote is aligned to. */
  ghost predicate Aligned(f: Folding, fuzzy: Fuzzy, text: string, quote: string, r: Option<Span>) {
    var q, n := QuoteForm(f, quote), NormalForm(f, text);
    if ExactMatch(text, quote) then
      r.Some? && FirstOccurrence(text, quote, r.value.start) && r.value.end == r.value.start + |quote|
    else if NormalMatch(f, text, quote) then
      r.Some? && exists i :: FirstOccurrence(n, q, i) && MapsBack(f, text, i, i + |q|, r.value)
    else if FuzzyMatch(f, fuzzy, text, quote) then
      r.Some? && MapsBack(f, text, fuzzy(q, n).value.lo, fuzzy(q, n).value.hi, r.value)
    else
      r.None?
  }

  /** What an aligned span guarantees: it is a non-empty slice which is the quote, or whose normal
      form contains the quote's, or which the fuzzy matcher vouches for. */
  ghost predicate Evidence(f: Folding, fuzzy: Fuzzy, text: string, quote: string, s: Span) {
    && s.start < s.end <= |text|
    && var slice := text[s.start..s.end];
       || slice == quote
       || Contains(QuoteForm(f, slice), QuoteForm(f, quote))
       || (FuzzyMatch(f, fuzzy, text, quote) && !NormalMatch(f, text, quote) && !ExactMatch(text, quote))
  }

  lemma AlignedIsEvidence(f: Folding, fuzzy: Fuzzy, text: string, quote: string, s: Span)
    requires Aligned(f, fuzzy, text, quote, Some(s))
    ensures Evidence(f, fuzzy, text, quote, s)
  {
    hide Fold, Positions, Strip;
    if ExactMatch(text, quote) {
      assert text[s.start..s.end] == quote;
    } else {
      var q, n := QuoteForm(f, quote), NormalForm(f, text);
      PositionsAreSound(f, text);
      if NormalMatch(f, text, quote) {
        var i :| FirstOccurrence(n, q, i) && MapsBack(f, text, i, i + |q|, s);
        MatchIsEvidence(f, text, quote, i, s);
        assert Positions(f, text)[i] <= Positions(f, text)[i + |q| - 1];
      } else {
        var r := fuzzy(q, n).value;
        assert Positions(f, text)[r.lo] <= Positions(f, text)[r.hi - 1];
      }
    }
  }

  /** Alignment leaves no freedom. */
  lemma AlignedOnce(f: Folding, fuzzy: Fuzzy, text: string, quote: string, a: Option<Span>, b: Option<Span>)
    requires Aligned(f, fuzzy, text, quote, a) && Aligned(f, fuzzy, text, quote, b)
    ensures a == b
  {
    hide Fold, Positions, Strip, Contains, OccursAt;
    if !ExactMatch(text, quote) {
      var q, n := QuoteForm(f, quote), NormalForm(f, text);
      if NormalMatch(f, text, quote) {
        var i :| FirstOccurrence(n, q, i) && MapsBack(f, text, i, i + |q|, a.value);
        var k :| FirstOccurrence(n, q, k) && MapsBack(f, text, k, k + |q|, b.value);
        assert i == k;
        MapsBackOnce(f, text, i, i + |q|, a.value, b.value);
      } else if FuzzyMatch(f, fuzzy, text, quote) {
        var r := fuzzy(q, n).value;
        MapsBackOnce(f, text, r.lo, r.hi, a.value, b.value);
      }
    }
  }

  lemma MapsBackOnce(f: Folding, text: string, lo: int, hi: int, a: Span, b: Span)
    requires MapsBack(f, text, lo, hi, a) && MapsBack(f, text, lo, hi, b)
    ensures a == b
  {
    hide Fold, Positions;
  }

  function Shift(r: Option<Span>, offset: nat): Option<Span> {
    if r.None? then None else Some(Span(offset + r.value.start, offset + r.value.end))
  }

  /** The span `r` of the version, as a span of the chunk that starts at `offset`. */
  ghost predicate AlignedAt(f: Folding, fuzzy: Fuzzy, text: string, quote: string, offset: nat, r: Option<Span>) {
    if r.None? then Aligned(f, fuzzy, text, quote, None)
    else
      && offset <= r.value.start <= r.value.end
      && Aligned(f, fuzzy, text, quote, Some(Span(r.value.start - offset, r.value.end - offset)))
  }

  /** `align_quote`. */
  method AlignQuote(f: Folding, fuzzy: Fuzzy, quote: string, chunkText: string, chunkStart: nat)
      returns (r: Option<Span>)
    requires InRange(fuzzy)
    ensures AlignedAt(f, fuzzy, chunkText, quote, chunkStart, r)
  {
    hide Fold, Positions, Strip, MapsBack;
    if quote == "" || chunkText == "" {
      assert quote != "" ==> !ExactMatch(chunkText, quote);
      return None;
    }
    var index := Find(chunkText, quote);
    if index >= 0 {
      assert ExactMatch(chunkText, quote);
      return Some(Span(chunkStart + index, chunkStart + index + |quote|));
    }
    assert !ExactMatch(chunkText, quote);
    var normalizedChunk, positions := IndexMap(f, chunkText);
    var normalizedQuote := Normalize(f, quote);
    PositionsAreSound(f, chunkText);
    if normalizedQuote == "" {
      return None;
    }
    index := Find(normalizedChunk, normalizedQuote);
    if index >= 0 {
      var s := MapBack(f, chunkText, positions, index, index + |normalizedQuote|);
      assert FirstOccurrence(normalizedChunk, normalizedQuote, index);
      return Some(Span(chunkStart + s.start, chunkStart + s.end));
    }
    assert !NormalMatch(f, chunkText, quote);
    var result := fuzzy(normalizedQuote, normalizedChunk);
    if result.None? || result.value.hi - 1 >= |positions| {
      return None;
    }
    var s := MapBack(f, chunkText, positions, result.value.lo, result.value.hi);
    return Some(Span(chunkStart + s.start, chunkStart + s.end));
  }
}
