/** Which terminators end their sentence (app/ingestion/segment.py:83-141): abbreviations, decimals,
    initials, and what must follow. The Unicode properties of characters are parameters. */
module Closing {
  import opened Segment

  /** `str.isupper`, `str.isdigit` and the `\d` of a pattern, of one character. */
  datatype Unicode = Unicode(isUpper: char -> bool, isDigit: char -> bool, isDecimal: char -> bool)

  /** What is so in every version of Unicode: the properties of ASCII characters, that no capital is a space, and
      that no digit is a space, a terminator or a closer. */
  ghost predicate Sane(u: Unicode) {
    && (forall c: char :: c as int < 128 ==> (u.isUpper(c) <==> 'A' <= c <= 'Z'))
    && (forall c: char :: c as int < 128 ==> (u.isDigit(c) <==> '0' <= c <= '9'))
    && (forall c: char :: u.isUpper(c) ==> !IsSpace(c))
    && (forall c: char :: u.isDecimal(c) ==> u.isDigit(c))
    && (forall c: char :: u.isDigit(c) ==> !IsSpace(c) && !IsTerminator(c) && !IsCloser(c))
  }

  const ABBREVIATIONS := {
    "mr", "mrs", "ms", "dr", "prof", "sr", "jr", "st", "rev", "hon", "gen", "col", "lt", "capt", "sgt", "inc",
    "ltd", "co", "corp", "vs", "etc", "e.g", "i.e", "approx", "est", "fig", "no", "al", "vol", "pp", "dept",
    "univ", "assn", "bros", "mfg", "govt", "sen", "rep", "ltc"
  }

  predicate IsFullWidth(c: char) {
    c as int in {0x3002, 0xFF01, 0xFF1F, 0xFF1B, 0x2026}
  }

  predicate IsWord(c: char) {
    'a' <= c <= 'z' || 'A' <= c <= 'Z' || '0' <= c <= '9' || c == '.' || c == '\'' || 0xC0 <= c as int <= 0x24F
  }

  /** What may begin a sentence: a capital, a digit, an ideograph or an opening mark. */
  predicate Opens(u: Unicode, c: char) {
    u.isUpper(c) || u.isDigit(c) || 0x4E00 <= c as int <= 0x9FFF || c in "\"'([{" || c as int in {0xAB, 0x201C, 0x2018}
  }

  // ---------------------------------------------------------------- the word before a full stop

  /** Where the run of word characters that ends before `index` begins. */
  function WordStart(text: string, index: nat): (p: nat)
    requires index <= |text|
    ensures p <= index && (forall m :: p <= m < index ==> IsWord(text[m])) && (p > 0 ==> !IsWord(text[p - 1]))
  {
    if index > 0 && IsWord(text[index - 1]) then WordStart(text, index - 1) else index
  }

  function TrimLeft(s: string, marks: string): string {
    if s != [] && s[0] in marks then TrimLeft(s[1..], marks) else s
  }

  function TrimRight(s: string, marks: string): string {
    if s != [] && s[|s| - 1] in marks then TrimRight(s[..|s| - 1], marks) else s
  }

  /** `str.strip`, of the given characters. */
  function Trim(s: string, marks: string): string {
    TrimRight(TrimLeft(s, marks), marks)
  }

  /** `str.lower` as far as the abbreviations can tell: beyond ASCII no letter becomes an ASCII word. */
  function Lower(s: string): string {
    seq(|s|, i requires 0 <= i < |s| => if 'A' <= s[i] <= 'Z' then (s[i] as int + 32) as char else s[i])
  }

  predicate WordBefore(text: string, index: nat)
    requires index <= |text|
  {
    index > 0 && IsWord(text[index - 1])
  }

  function Token(text: string, index: nat): string
    requires index <= |text|
  {
    text[WordStart(text, index)..index]
  }

  predicate EndsInTwoDots(s: string) {
    |s| >= 2 && s[|s| - 2..] == ".."
  }

  predicate IsInitial(s: string) {
    |s| == 1 && 'A' <= s[0] <= 'Z'
  }

  /** The full stop belongs to the word before it: a decimal, an abbreviation or an initial. */
  predicate Held(u: Unicode, text: string, index: nat)
    requires index < |text|
  {
    && WordBefore(text, index)
    && var token, p := Token(text, index), WordStart(text, index);
    || (u.isDecimal(text[index - 1]) && index + 1 < |text| && u.isDigit(text[index + 1]))
    || Lower(Trim(token, ".'")) in ABBREVIATIONS
    || (IsInitial(Trim(token, ".")) && !EndsInTwoDots(token) && (p == 0 || IsSpace(text[p - 1])))
  }

  // ---------------------------------------------------------------- what follows

  function PastClosers(text: string, j: nat): (r: nat)
    requires j <= |text|
    ensures j <= r <= |text| && (forall m :: j <= m < r ==> IsCloser(text[m])) && (r < |text| ==> !IsCloser(text[r]))
    decreases |text| - j
  {
    if j < |text| && IsCloser(text[j]) then PastClosers(text, j + 1) else j
  }

  function PastSpaces(text: string, j: nat): (r: nat)
    requires j <= |text|
    ensures j <= r <= |text| && (forall m :: j <= m < r ==> IsSpace(text[m])) && (r < |text| ==> !IsSpace(text[r]))
    decreases |text| - j
  {
    if j < |text| && IsSpace(text[j]) then PastSpaces(text, j + 1) else j
  }

  /** The text ends at `j`, or after spaces, or spaces follow and then something that may begin a sentence. */
  predicate Announced(u: Unicode, text: string, j: nat)
    requires j <= |text|
  {
    j == |text| || (IsSpace(text[j]) && var k := PastSpaces(text, j); k == |text| || Opens(u, text[k]))
  }

  /** A full stop with no word before it. */
  predicate IsBare(text: string, index: nat)
    requires index < |text|
  {
    text[index] == '.' && !WordBefore(text, index)
  }

  /** The terminator at `index` ends its sentence. */
  predicate Closes(u: Unicode, text: string, index: nat) {
    && index < |text|
    && (|| IsFullWidth(text[index])
        || IsBare(text, index)
        || (text[index] in ".!?" && !(text[index] == '.' && Held(u, text, index))
          && Announced(u, text, PastClosers(text, index + 1))))
  }

  /** `_closes_sentence`. */
  method ClosesSentence(u: Unicode, text: string, index: nat) returns (r: bool)
    requires index < |text|
    ensures r == Closes(u, text, index)
  {
    hide IsSpace, IsCloser, IsWord, Opens, ABBREVIATIONS, Trim, Lower, WordStart, PastClosers, PastSpaces;
    var ch := text[index];
    if IsFullWidth(ch) {
      return true;
    }
    if ch !in ".!?" {
      return false;
    }
    if ch == '.' {
      var p := WordStart(text, index);
      if p == index {
        return true;
      }
      var token := text[p..index];
      if u.isDecimal(text[index - 1]) && index + 1 < |text| && u.isDigit(text[index + 1]) {
        return false;
      }
      if Lower(Trim(token, ".'")) in ABBREVIATIONS {
        return false;
      }
      if IsInitial(Trim(token, ".")) && !EndsInTwoDots(token) {
        if p == 0 || IsSpace(text[p - 1]) {
          return false;
        }
      }
    }
    assert !IsBare(text, index) && !(ch == '.' && Held(u, text, index));
    hide Held, IsBare, IsFullWidth;
    assert Closes(u, text, index) <==> Announced(u, text, PastClosers(text, index + 1));
    hide Closes;
    var j := index + 1;
    while j < |text| && IsCloser(text[j])
      invariant index < j <= |text|
      invariant forall m :: index < m < j ==> IsCloser(text[m])
    {
      j := j + 1;
    }
    ClosersEnd(text, index + 1, j);
    if j >= |text| {
      return true;
    }
    if !IsSpace(text[j]) {
      return false;
    }
    var k := j;
    while k < |text| && IsSpace(text[k])
      invariant j <= k <= |text|
      invariant forall m :: j <= m < k ==> IsSpace(text[m])
    {
      k := k + 1;
    }
    SpacesEnd(text, j, k);
    if k >= |text| {
      return true;
    }
    return Opens(u, text[k]);
  }

  lemma {:induction false} ClosersEnd(text: string, j: nat, r: nat)
    requires j <= r <= |text| && (forall m :: j <= m < r ==> IsCloser(text[m])) && (r < |text| ==> !IsCloser(text[r]))
    ensures PastClosers(text, j) == r
    decreases r - j
  {
    hide IsCloser;
    if j < r {
      ClosersEnd(text, j + 1, r);
    }
  }

  lemma {:induction false} SpacesEnd(text: string, j: nat, r: nat)
    requires j <= r <= |text| && (forall m :: j <= m < r ==> IsSpace(text[m])) && (r < |text| ==> !IsSpace(text[r]))
    ensures PastSpaces(text, j) == r
    decreases r - j
  {
    hide IsSpace;
    if j < r {
      SpacesEnd(text, j + 1, r);
    }
  }

  // ---------------------------------------------------------------- what the sentences then are

  function Rule(u: Unicode, text: string): nat -> bool {
    (index: nat) => Closes(u, text, index)
  }

  /** The sentences of a text under this rule. */
  ghost predicate Sentences(u: Unicode, text: string, spans: seq<Span>) {
    Segments(text, Rule(u, text), 0, spans)
  }

  /** Neighbouring sentences are split at a blank line, after a full-width terminator or a bare full stop, or
      else there is a space between them and the later one begins with what may begin a sentence. */
  lemma SentencesBeginProperly(u: Unicode, text: string, spans: seq<Span>, k: nat)
    requires Sentences(u, text, spans) && k + 1 < |spans|
    ensures spans[k].end <= spans[k + 1].start < |text|
    ensures (exists m :: spans[k].end <= m && m + 1 < spans[k + 1].start && BlankLineAt(text, m))
      || (exists t: nat :: SplitAfter(text, spans[k], t) && (IsFullWidth(text[t]) || IsBare(text, t)))
      || (spans[k].end < spans[k + 1].start && Opens(u, text[spans[k + 1].start]))
  {
    hide IsSpace, IsCloser, IsTerminator, Covered, Opens, IsWord, Segments, Held;
    var i, j := spans[k].end - 1, spans[k + 1].start;
    Spans(text, Rule(u, text), 0, spans);
    assert Trimmed(text, spans[k]) && Trimmed(text, spans[k + 1]);
    assert Within(spans, k, i) && Within(spans, k + 1, j);
    Separates(text, Rule(u, text), 0, spans, k, k + 1, i, j);
    GapIsSpace(u, text, spans, k);
    ClosersEndNothing(NEWLINE);
    if m :| i <= m && m + 1 <= j && BlankLineAt(text, m) {
      assert m != i && m + 1 != j;
    } else {
      var e :| i < e <= j && SentenceEnd(text, Rule(u, text), e);
      var t: nat :| t < e && EndsAt(text, Rule(u, text), t, e);
      StopInGap(u, text, spans[k], j, t, e);
    }
  }

  /** A sentence end between two spans with only spaces in between is the end of the first. */
  lemma StopInGap(u: Unicode, text: string, s: Span, j: nat, t: nat, e: nat)
    requires s.end <= j < |text| && !IsSpace(text[j]) && forall m :: s.end <= m < j ==> IsSpace(text[m])
    requires t < e && s.end <= e <= j && EndsAt(text, Rule(u, text), t, e) && SentenceEnd(text, Rule(u, text), e)
    ensures SplitAfter(text, s, t) && (IsFullWidth(text[t]) || IsBare(text, t) || (s.end < j && Opens(u, text[j])))
  {
    hide IsSpace, IsCloser, IsTerminator, Opens, IsWord, Held;
    ClosersEndNothing(text[e - 1]);
    assert e == s.end;
    ClosersEnd(text, t + 1, e);
    SpacesEnd(text, e, j);
  }

  /** The terminator at `t` and the closers after it are the end of the span. */
  predicate SplitAfter(text: string, s: Span, t: nat) {
    t < s.end <= |text| && IsTerminator(text[t]) && forall m :: t < m < s.end ==> IsCloser(text[m])
  }

  lemma GapIsSpace(u: Unicode, text: string, spans: seq<Span>, k: nat)
    requires Sentences(u, text, spans) && k + 1 < |spans|
    ensures spans[k].end <= spans[k + 1].start <= |text|
    ensures forall m :: spans[k].end <= m < spans[k + 1].start ==> IsSpace(text[m])
  {
    hide IsSpace, Segments, Separated;
    Spans(text, Rule(u, text), 0, spans);
    assert Trimmed(text, spans[k + 1]);
    forall m | spans[k].end <= m < spans[k + 1].start ensures IsSpace(text[m]) {
      NotCovered(spans, k, m);
      OutsideIsSpace(u, text, spans, m);
    }
  }

  lemma OutsideIsSpace(u: Unicode, text: string, spans: seq<Span>, m: nat)
    requires Sentences(u, text, spans) && m < |text| && !Covered(spans, m)
    ensures IsSpace(text[m])
  {
    hide IsSpace, Segments, Separated, Covered;
    if !IsSpace(text[m]) {
      Covers(text, Rule(u, text), 0, spans, m);
    }
  }

  ghost predicate SameSentence(spans: seq<Span>, i: nat, j: nat) {
    exists k :: Within(spans, k, i) && Within(spans, k, j)
  }

  lemma SameUnlessSeparated(u: Unicode, text: string, spans: seq<Span>, i: nat, j: nat)
    requires Sentences(u, text, spans) && i < j < |text| && !IsSpace(text[i]) && !IsSpace(text[j])
    ensures SameSentence(spans, i, j) <==> !Separated(text, Rule(u, text), i, j)
  {
    hide IsSpace, Segments, Separated, Within;
    Covers(text, Rule(u, text), 0, spans, i);
    Covers(text, Rule(u, text), 0, spans, j);
    var a :| Within(spans, a, i);
    var b :| Within(spans, b, j);
    Separates(text, Rule(u, text), 0, spans, a, b, i, j);
    if k :| Within(spans, k, i) && Within(spans, k, j) {
      Separates(text, Rule(u, text), 0, spans, k, k, i, j);
    }
  }

  /** A full stop that belongs to the word before it never ends its sentence: what comes next, but for a blank
      line, is in the same one. */
  lemma HeldStopsStayInside(u: Unicode, text: string, spans: seq<Span>, p: nat, q: nat)
    requires Sentences(u, text, spans) && p < q < |text| && text[p] == '.' && Held(u, text, p) && !IsSpace(text[q])
    requires forall m :: p < m < q ==> IsSpace(text[m]) && !BlankLineAt(text, m)
    ensures SameSentence(spans, p, q)
  {
    hide IsSpace, IsCloser, IsTerminator, Held, IsWord, Segments, PastClosers;
    StopIsInk();
    SameUnlessSeparated(u, text, spans, p, q);
    if e :| p < e <= q && SentenceEnd(text, Rule(u, text), e) {
      var t: nat :| t < e && EndsAt(text, Rule(u, text), t, e);
      ClosersEndNothing(text[t]);
      assert t == p;
      HeldNeverCloses(u, text, p);
    }
  }

  lemma HeldNeverCloses(u: Unicode, text: string, p: nat)
    requires p < |text| && text[p] == '.' && Held(u, text, p)
    ensures !Closes(u, text, p)
  {
    hide IsWord, Announced, IsSpace, IsCloser;
  }

  lemma StopIsInk()
    ensures !IsSpace('.') && !IsCloser('.') && IsTerminator('.') && !IsFullWidth('.') && IsWord('.')
  {
  }

  /** A point before a digit splits the number exactly when no word character comes before the point: "3.5" is
      kept whole, ".5" is cut into two sentences. */
  lemma PointStaysInsideIff(u: Unicode, text: string, spans: seq<Span>, p: nat)
    requires Sane(u) && Sentences(u, text, spans) && p + 1 < |text| && text[p] == '.' && u.isDigit(text[p + 1])
    ensures SameSentence(spans, p, p + 1) <==> WordBefore(text, p)
  {
    hide IsSpace, IsCloser, IsTerminator, Held, IsWord, Segments;
    StopIsInk();
    SameUnlessSeparated(u, text, spans, p, p + 1);
    assert Closes(u, text, p) <==> !WordBefore(text, p);
    assert EndsAt(text, Rule(u, text), p, p + 1) <==> Closes(u, text, p);
    ClosersEndNothing('.');
    if SentenceEnd(text, Rule(u, text), p + 1) {
      var t: nat :| t < p + 1 && EndsAt(text, Rule(u, text), t, p + 1);
      assert t == p;
    }
  }

  // ---------------------------------------------------------------- dotted acronyms

  /** The word before the full stop has a full stop inside. */
  predicate IsAcronym(text: string, index: nat)
    requires index <= |text|
  {
    WordBefore(text, index) && '.' in Trim(Token(text, index), ".'")
  }

  lemma {:induction false} TrimRightShortens(s: string, t: string)
    requires |s| <= |t| && s == t[|t| - |s|..]
    ensures |TrimRight(s, ".'")| <= |TrimRight(t, ".")| && |TrimRight(s, ".'")| <= |s|
  {
    if s != [] && s[|s| - 1] in ".'" {
      assert s[|s| - 1] == t[|t| - 1];
      if s[|s| - 1] == '.' {
        TrimRightShortens(s[..|s| - 1], t[..|t| - 1]);
      } else {
        assert TrimRight(t, ".") == t;
        TrimRightShortens(s[..|s| - 1], s[..|s| - 1]);
      }
    }
  }

  lemma {:induction false} TrimLeftIsSuffix(s: string, marks: string)
    ensures |TrimLeft(s, marks)| <= |s| && TrimLeft(s, marks) == s[|s| - |TrimLeft(s, marks)|..]
    ensures TrimLeft(s, marks) != [] ==> TrimLeft(s, marks)[0] !in marks
  {
    if s != [] && s[0] in marks {
      TrimLeftIsSuffix(s[1..], marks);
    }
  }

  lemma {:induction false} TrimLeftTwice(s: string)
    ensures TrimLeft(TrimLeft(s, "."), ".'") == TrimLeft(s, ".'")
  {
    if s != [] && s[0] == '.' {
      TrimLeftTwice(s[1..]);
    }
  }

  lemma {:induction false} TrimRightIsPrefix(s: string, marks: string)
    ensures |TrimRight(s, marks)| <= |s| && TrimRight(s, marks) == s[..|TrimRight(s, marks)|]
  {
    if s != [] && s[|s| - 1] in marks {
      TrimRightIsPrefix(s[..|s| - 1], marks);
    }
  }

  /** A word with a full stop inside is no initial. */
  lemma AcronymIsNoInitial(token: string)
    requires '.' in Trim(token, ".'")
    ensures !IsInitial(Trim(token, "."))
  {
    var left, bare := TrimLeft(token, "."), TrimLeft(token, ".'");
    TrimLeftTwice(token);
    TrimLeftIsSuffix(left, ".'");
    TrimRightShortens(bare, left);
    TrimRightIsPrefix(bare, ".'");
    assert Trim(token, ".'")[0] == bare[0];
    assert |Trim(token, ".'")| >= 2;
  }

  lemma OnlyTwoAcronyms(s: string)
    requires '.' in s
    ensures Lower(s) in ABBREVIATIONS <==> Lower(s) == "e.g" || Lower(s) == "i.e"
  {
    var k :| 0 <= k < |s| && s[k] == '.';
    assert Lower(s)[k] == '.';
    forall w | w in ABBREVIATIONS && '.' in w ensures w == "e.g" || w == "i.e" {
    }
  }

  /** Before something that may begin a sentence a full stop is kept with it exactly when it belongs to its word. */
  lemma StaysIffHeld(u: Unicode, text: string, spans: seq<Span>, p: nat, q: nat)
    requires Sentences(u, text, spans) && p + 1 < q < |text| && text[p] == '.' && WordBefore(text, p)
    requires !IsSpace(text[q]) && Opens(u, text[q])
    requires forall m :: p < m < q ==> IsSpace(text[m]) && !BlankLineAt(text, m)
    ensures SameSentence(spans, p, q) <==> Held(u, text, p)
  {
    hide IsCloser, IsTerminator, IsSpace, IsWord, Segments, Opens, Held;
    StopIsInk();
    if Held(u, text, p) {
      HeldStopsStayInside(u, text, spans, p, q);
    } else {
      ClosersEndNothing(text[p + 1]);
      ClosersEnd(text, p + 1, p + 1);
      SpacesEnd(text, p + 1, q);
      assert EndsAt(text, Rule(u, text), p, p + 1);
      assert SentenceEnd(text, Rule(u, text), p + 1);
      SameUnlessSeparated(u, text, spans, p, q);
    }
  }

  /** A dotted acronym before a new capital is kept with what follows exactly when it is "e.g." or "i.e.". */
  lemma AcronymStaysIff(u: Unicode, text: string, spans: seq<Span>, p: nat, q: nat)
    requires Sane(u) && Sentences(u, text, spans) && p + 1 < q < |text| && text[p] == '.' && IsAcronym(text, p)
    requires !IsSpace(text[q]) && Opens(u, text[q])
    requires forall m :: p < m < q ==> IsSpace(text[m]) && !BlankLineAt(text, m)
    ensures SameSentence(spans, p, q) <==> Lower(Trim(Token(text, p), ".'")) in {"e.g", "i.e"}
  {
    hide IsCloser, IsTerminator, IsSpace, IsWord, Segments, ABBREVIATIONS, Trim, Lower, Opens;
    var token := Token(text, p);
    AcronymIsNoInitial(token);
    OnlyTwoAcronyms(Trim(token, ".'"));
    StaysIffHeld(u, text, spans, p, q);
  }

  /** A single capital before the full stop, not part of a longer word, is an initial, and kept with what follows,
      exactly when it stands at the beginning or after a space: in "J. Smith", but not in "20°C. Snow". */
  lemma InitialStaysIff(u: Unicode, text: string, spans: seq<Span>, p: nat, q: nat)
    requires Sane(u) && Sentences(u, text, spans) && 1 <= p && p + 1 < q < |text| && text[p] == '.'
    requires 'A' <= text[p - 1] <= 'Z' && (p > 1 ==> !IsWord(text[p - 2]))
    requires !IsSpace(text[q]) && Opens(u, text[q])
    requires forall m :: p < m < q ==> IsSpace(text[m]) && !BlankLineAt(text, m)
    ensures SameSentence(spans, p, q) <==> p == 1 || IsSpace(text[p - 2])
  {
    assert IsWord(text[p - 1]);
    OneCapital(text, p);
    hide IsCloser, IsTerminator, IsSpace, IsWord, Segments, ABBREVIATIONS, Trim, Lower, Opens, WordStart;
    StaysIffHeld(u, text, spans, p, q);
  }

  lemma OneCapital(text: string, p: nat)
    requires 1 <= p < |text| && 'A' <= text[p - 1] <= 'Z' && (p > 1 ==> !IsWord(text[p - 2]))
    ensures WordStart(text, p) == p - 1 && Trim(Token(text, p), ".") == [text[p - 1]]
    ensures Lower(Trim(Token(text, p), ".'")) !in ABBREVIATIONS
  {
    var c := text[p - 1];
    assert Token(text, p) == [c] && [c][1..] == [] && [c][..0] == [];
    assert Trim([c], ".") == [c] && Trim([c], ".'") == [c];
    assert |Lower([c])| == 1;
    forall w | w in ABBREVIATIONS ensures |w| != 1 {
    }
  }

  /** So "U.S. Army" is two sentences. */
  lemma AcronymIsSplit(u: Unicode, spans: seq<Span>)
    requires Sane(u) && Sentences(u, "U.S. Army", spans)
    ensures !SameSentence(spans, 3, 5)
  {
    var text := "U.S. Army";
    assert WordStart(text, 3) == 0;
    assert Token(text, 3) == "U.S";
    assert Trim("U.S", ".'") == "U.S";
    assert Lower("U.S")[0] == 'u' && "e.g"[0] == 'e' && "i.e"[0] == 'i';
    AcronymStaysIff(u, text, spans, 3, 5);
  }

  // ---------------------------------------------------------------- marks that end a sentence

  /** Quotation marks and brackets that close. */
  predicate ClosesQuote(c: char) {
    c == '"' || c == '\'' || c == ')' || c == ']' || c == '}' || c as int in {0xBB, 0x203A, 0x201D, 0x2019}
  }

  /** A capital, a digit, an ideograph, or a mark that opens a quotation or a bracket. */
  predicate MayBegin(u: Unicode, c: char) {
    || u.isUpper(c) || u.isDigit(c) || 0x4E00 <= c as int <= 0x9FFF
    || c == '"' || c == '\'' || c == '(' || c == '[' || c == '{' || c as int in {0xAB, 0x201C, 0x2018}
  }

  lemma MarksMean(u: Unicode, c: char)
    ensures IsCloser(c) <==> ClosesQuote(c)
    ensures Opens(u, c) <==> MayBegin(u, c)
    ensures IsTerminator(c) <==>
      c == '.' || c == '!' || c == '?' || c as int in {0x3002, 0xFF01, 0xFF1F, 0xFF1B, 0x2026}
  {
  }

  /** The mark at `p` ends a sentence wherever it stands (the full-width ones), or because the text ends there, or goes
      on, after its closing quotes and some space, with what may begin one. */
  ghost predicate EndsSentence(u: Unicode, text: string, p: nat, e: nat)
    requires p < e <= |text|
  {
    || text[p] as int in {0x3002, 0xFF01, 0xFF1F, 0xFF1B, 0x2026}
    || ((text[p] == '!' || text[p] == '?')
        && (e == |text| || exists k ::
          e < k <= |text| && (forall m :: e <= m < k ==> IsSpace(text[m])) && (k < |text| ==> MayBegin(u, text[k]))))
  }

  /** An exclamation or question mark, or a full-width mark, takes the closing quotes after it into its sentence and
      ends it there: nothing after them is in the same one. */
  lemma MarkEndsItsSentence(u: Unicode, text: string, spans: seq<Span>, p: nat, e: nat, q: nat)
    requires Sane(u) && Sentences(u, text, spans) && p < e <= |text| && EndsSentence(u, text, p, e)
    requires (forall m :: p < m < e ==> ClosesQuote(text[m])) && (e < |text| ==> !ClosesQuote(text[e]))
    requires p < q < |text| && !IsSpace(text[q])
    ensures SameSentence(spans, p, q) <==> q < e
  {
    hide IsSpace, IsWord, Segments, Held, ClosesQuote, MayBegin;
    forall m | p <= m <= e && m < |text| ensures IsCloser(text[m]) <==> ClosesQuote(text[m]) {
      MarksMean(u, text[m]);
    }
    MarksMean(u, text[p]);
    MarkIsTerminator(text[p]);
    BeginningsAreInk(u);
    hide IsCloser;
    ClosersEnd(text, p + 1, e);
    MarkCloses(u, text, p, e);
    SameUnlessSeparated(u, text, spans, p, q);
    if q < e {
      InsideMarks(u, text, p, e, q);
    } else {
      assert EndsAt(text, Rule(u, text), p, e) && SentenceEnd(text, Rule(u, text), e);
    }
  }

  lemma BeginningsAreInk(u: Unicode)
    requires Sane(u)
    ensures forall c: char :: MayBegin(u, c) ==> !IsSpace(c)
  {
  }

  lemma MarkIsTerminator(c: char)
    ensures c == '!' || c == '?' || c as int in {0x3002, 0xFF01, 0xFF1F, 0xFF1B, 0x2026} ==>
      IsTerminator(c) && !IsSpace(c) && c != '.'
  {
  }

  lemma MarkCloses(u: Unicode, text: string, p: nat, e: nat)
    requires p < e <= |text| && EndsSentence(u, text, p, e) && PastClosers(text, p + 1) == e
    requires forall c: char :: MayBegin(u, c) ==> !IsSpace(c)
    ensures Closes(u, text, p)
  {
    hide IsSpace, MayBegin, IsCloser, Opens, PastClosers;
    if !IsFullWidth(text[p]) && e < |text| {
      var k :| e < k <= |text| && (forall m :: e <= m < k ==> IsSpace(text[m]))
        && (k < |text| ==> MayBegin(u, text[k]));
      if k < |text| {
        MarksMean(u, text[k]);
      }
      SpacesEnd(text, e, k);
    }
  }

  lemma InsideMarks(u: Unicode, text: string, p: nat, e: nat, q: nat)
    requires p < q < e <= |text| && forall m :: p < m < e ==> IsCloser(text[m])
    ensures !Separated(text, Rule(u, text), p, q)
  {
    forall m | p < m <= q ensures !IsSpace(text[m]) {
      ClosersEndNothing(text[m]);
    }
    ClosersEndNothing(NEWLINE);
    hide IsSpace, IsCloser, IsTerminator;
  }

  /** "Dr. Smith" is one sentence. */
  lemma TitleIsKept(u: Unicode, spans: seq<Span>)
    requires Sane(u) && Sentences(u, "Dr. Smith", spans)
    ensures SameSentence(spans, 2, 4)
  {
    var text := "Dr. Smith";
    assert WordStart(text, 2) == 0 && Token(text, 2) == "Dr";
    assert Trim("Dr", ".'") == "Dr" && Lower("Dr") == "dr";
    HeldStopsStayInside(u, text, spans, 2, 4);
  }
}
