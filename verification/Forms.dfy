/** What the normal form of a text is (app/claims/align.py:46-96): its words, case-folded, with one space between
    them. So texts that differ in case, in runs of spaces or in combining characters have one form, others do not,
    and a quote is found wherever the chunk has its words. */
module Forms {
  import opened Common
  import opened Segment
  import opened Align

  // ---------------------------------------------------------------- the words of a text

  /** What is left of a text when compatibility forms are taken apart and combining characters dropped. */
  function Letters(f: Folding, text: string): string {
    if text == [] then []
    else
      var ch := text[|text| - 1];
      Letters(f, text[..|text| - 1]) + (if f.combining(ch) then [] else Bare(f, f.nfkc(ch)))
  }

  function Bare(f: Folding, pieces: string): string {
    if pieces == [] then []
    else
      var last := pieces[|pieces| - 1];
      Bare(f, pieces[..|pieces| - 1]) + (if f.combining(last) then [] else [last])
  }

  function EndsInk(s: string): bool {
    s != [] && !IsSpace(s[|s| - 1])
  }

  /** `str.split`: the runs of characters that are not spaces. */
  function Split(s: string): (words: seq<string>)
    ensures EndsInk(s) ==> words != []
  {
    if s == [] then []
    else
      var init, c := s[..|s| - 1], s[|s| - 1];
      if IsSpace(c) then Split(init)
      else if EndsInk(init) then Split(init)[..|Split(init)| - 1] + [Split(init)[|Split(init)| - 1] + [c]]
      else Split(init) + [[c]]
  }

  function FoldWord(f: Folding, word: string): string {
    if word == [] then [] else FoldWord(f, word[..|word| - 1]) + f.casefold(word[|word| - 1])
  }

  function FoldWords(f: Folding, words: seq<string>): (r: seq<string>)
    ensures |r| == |words| && forall i :: 0 <= i < |words| ==> r[i] == FoldWord(f, words[i])
  {
    seq(|words|, i requires 0 <= i < |words| => FoldWord(f, words[i]))
  }

  function Join(words: seq<string>): string {
    if words == [] then ""
    else if |words| == 1 then words[0]
    else Join(words[..|words| - 1]) + " " + words[|words| - 1]
  }

  /** The case-folded words of a text. */
  function Words(f: Folding, text: string): seq<string> {
    FoldWords(f, Split(Letters(f, text)))
  }

  /** What holds of case folding in every version of Unicode. */
  ghost predicate Faithful(f: Folding) {
    && f.casefold(' ') == " "
    && forall c :: !IsSpace(c) ==>
      f.casefold(c) != "" && forall i :: 0 <= i < |f.casefold(c)| ==> !IsSpace(f.casefold(c)[i])
  }

  // ---------------------------------------------------------------- folding goes letter by letter

  /** Folding of letters that are none of them combining. */
  function FoldLetters(f: Folding, s: string): Folded {
    if s == [] then NOTHING
    else
      var before, c := FoldLetters(f, s[..|s| - 1]), s[|s| - 1];
      if !IsSpace(c) then Folded(before.text + f.casefold(c), false)
      else if before.spaced then before
      else Folded(before.text + f.casefold(' '), true)
  }

  lemma {:induction false} FoldBare(f: Folding, s: string, pieces: string)
    ensures FoldPieces(f, pieces, FoldLetters(f, s)) == FoldLetters(f, s + Bare(f, pieces))
  {
    hide IsSpace, FoldPiece, FoldLetters;
    if pieces == [] {
      assert s + [] == s;
    } else {
      var init, last := pieces[..|pieces| - 1], pieces[|pieces| - 1];
      FoldBare(f, s, init);
      FoldOneLetter(f, s + Bare(f, init), last);
      assert s + (Bare(f, init) + [last]) == s + Bare(f, init) + [last];
      assert s + (Bare(f, init) + []) == s + Bare(f, init);
    }
  }

  lemma FoldOneLetter(f: Folding, s: string, c: char)
    ensures FoldPiece(f, c, FoldLetters(f, s)) == FoldLetters(f, if f.combining(c) then s else s + [c])
  {
    hide IsSpace;
    assert (s + [c])[..|s|] == s;
  }

  lemma {:induction false} FoldIsLetters(f: Folding, text: string)
    ensures Fold(f, text, NOTHING) == FoldLetters(f, Letters(f, text))
  {
    hide IsSpace, FoldPieces, Bare;
    if text != [] {
      var init, ch := text[..|text| - 1], text[|text| - 1];
      FoldIsLetters(f, init);
      FoldBare(f, Letters(f, init), f.nfkc(ch));
      assert Letters(f, init) + [] == Letters(f, init);
    }
  }

  // ---------------------------------------------------------------- the form is the words

  function StartsSpace(s: string): bool {
    s != [] && IsSpace(s[0])
  }

  /** One space for spaces before the first word. */
  function Lead(s: string): string {
    if StartsSpace(s) then " " else ""
  }

  function Trail(s: string): string {
    if s != [] && IsSpace(s[|s| - 1]) && Split(s) != [] then " " else ""
  }

  /** The folded letters are the folded words, spaced out. */
  ghost predicate IsSpacedOut(f: Folding, s: string) {
    && FoldLetters(f, s).text == Lead(s) + Join(FoldWords(f, Split(s))) + Trail(s)
    && (FoldLetters(f, s).spaced <==> s != [] && IsSpace(s[|s| - 1]))
  }

  lemma {:induction false} FoldedWords(f: Folding, s: string)
    requires f.casefold(' ') == " "
    ensures IsSpacedOut(f, s)
  {
    hide IsSpace, FoldLetters;
    if s == [] {
      hide *;
      NothingIsSpacedOut(f);
    } else {
      var init, c := s[..|s| - 1], s[|s| - 1];
      FoldedWords(f, init);
      hide *;
      if IsSpace(c) {
        SpaceKeepsShape(f, s, init, c);
      } else if EndsInk(init) {
        LetterKeepsShape(f, s, init, c);
      } else {
        WordKeepsShape(f, s, init, c);
      }
    }
  }

  lemma NothingIsSpacedOut(f: Folding)
    ensures IsSpacedOut(f, "")
  {
  }

  lemma SpaceKeepsShape(f: Folding, s: string, init: string, c: char)
    requires s == init + [c] && IsSpace(c) && f.casefold(' ') == " " && IsSpacedOut(f, init)
    ensures IsSpacedOut(f, s)
  {
    hide IsSpace, Join, FoldWords;
    assert s[..|s| - 1] == init;
    SpacesHaveNoWords(init);
    if init == [] {
      JoinNone();
      assert FoldWords(f, []) == [];
    } else {
      assert Lead(s) == Lead(init);
    }
  }

  lemma LetterKeepsShape(f: Folding, s: string, init: string, c: char)
    requires s == init + [c] && !IsSpace(c) && EndsInk(init) && IsSpacedOut(f, init)
    ensures IsSpacedOut(f, s)
  {
    hide IsSpace, Join, FoldWords, Split;
    assert s[..|s| - 1] == init && Lead(s) == Lead(init);
    SplitStep(init, c);
    EndsInWord(init);
    FoldLastLonger(f, Split(init), c);
  }

  lemma WordKeepsShape(f: Folding, s: string, init: string, c: char)
    requires s == init + [c] && !IsSpace(c) && !EndsInk(init) && f.casefold(' ') == " " && IsSpacedOut(f, init)
    ensures IsSpacedOut(f, s)
  {
    hide IsSpace, Join, FoldWords;
    assert s[..|s| - 1] == init;
    var words, word := Split(init), f.casefold(c);
    FoldOne(f, words, c);
    JoinMore(FoldWords(f, words), word);
    SpacesHaveNoWords(init);
    SameCount(f, words);
    JoinNone();
    assert Split(s) == words + [[c]] && Trail(s) == "";
    assert FoldLetters(f, s) == Folded(FoldLetters(f, init).text + word, false);
    if init == [] {
      assert Lead(s) == "" && FoldLetters(f, init).text == "";
    } else {
      assert Lead(s) == Lead(init);
    }
    hide FoldLetters, Split;
    var joined := Join(FoldWords(f, words));
    if words == [] {
      assert FoldLetters(f, init).text == Lead(init);
    } else {
      assert (Lead(init) + joined + " ") + word == Lead(init) + (joined + " " + word);
    }
  }

  lemma SameCount(f: Folding, words: seq<string>)
    ensures FoldWords(f, words) == [] <==> words == []
  {
  }

  lemma JoinNone()
    ensures Join([]) == ""
  {
  }

  lemma JoinMore(words: seq<string>, word: string)
    ensures Join(words + [word]) == if words == [] then word else Join(words) + " " + word
  {
    assert (words + [word])[..|words|] == words;
  }

  lemma FoldOne(f: Folding, words: seq<string>, c: char)
    ensures FoldWords(f, words + [[c]]) == FoldWords(f, words) + [f.casefold(c)]
  {
    assert [c][..0] == [] && FoldWord(f, [c]) == FoldWord(f, []) + f.casefold(c);
    assert FoldWord(f, [c]) == f.casefold(c);
  }

  lemma FoldMore(f: Folding, words: seq<string>, word: string)
    ensures FoldWords(f, words + [word]) == FoldWords(f, words) + [FoldWord(f, word)]
  {
    hide FoldWord;
  }

  lemma FoldLetter(f: Folding, word: string, c: char)
    ensures FoldWord(f, word + [c]) == FoldWord(f, word) + f.casefold(c)
  {
    assert (word + [c])[..|word|] == word;
  }

  /** A letter more on the last word. */
  lemma FoldLastLonger(f: Folding, words: seq<string>, c: char)
    requires words != []
    ensures Join(FoldWords(f, Longer(words, c))) == Join(FoldWords(f, words)) + f.casefold(c)
  {
    hide Join, FoldWord, FoldWords;
    var n := |words| - 1;
    var init, last := words[..n], words[n];
    assert words == init + [last] && Longer(words, c) == init + [last + [c]];
    FoldMore(f, init, last);
    FoldMore(f, init, last + [c]);
    FoldLetter(f, last, c);
    JoinMore(FoldWords(f, init), FoldWord(f, last));
    JoinMore(FoldWords(f, init), FoldWord(f, last + [c]));
  }

  /** A text without words is all spaces. */
  lemma {:induction false} SpacesHaveNoWords(s: string)
    ensures Split(s) == [] <==> forall i :: 0 <= i < |s| ==> IsSpace(s[i])
  {
    hide IsSpace;
    if s != [] {
      SpacesHaveNoWords(s[..|s| - 1]);
    }
  }

  /** A word: not empty, and no space in it. */
  ghost predicate IsWord(word: string) {
    word != "" && forall i :: 0 <= i < |word| ==> !IsSpace(word[i])
  }

  ghost predicate AreWords(words: seq<string>) {
    forall i :: 0 <= i < |words| ==> IsWord(words[i])
  }

  lemma {:induction false} SplitGivesWords(s: string)
    ensures AreWords(Split(s))
  {
    hide IsSpace;
    if s != [] {
      SplitGivesWords(s[..|s| - 1]);
    }
  }

  lemma {:induction false} FoldedIsWord(f: Folding, word: string)
    requires Faithful(f) && IsWord(word)
    ensures IsWord(FoldWord(f, word))
  {
    hide IsSpace;
    var init := word[..|word| - 1];
    if init != [] {
      FoldedIsWord(f, init);
    }
  }

  lemma WordsAreWords(f: Folding, text: string)
    requires Faithful(f)
    ensures AreWords(Words(f, text))
  {
    hide IsWord, FoldWord;
    var words := Split(Letters(f, text));
    SplitGivesWords(Letters(f, text));
    forall i | 0 <= i < |words| ensures IsWord(FoldWords(f, words)[i]) {
      FoldedIsWord(f, words[i]);
    }
  }

  lemma {:induction false} JoinEnds(words: seq<string>)
    requires AreWords(words) && words != []
    ensures Join(words) != "" && !IsSpace(Join(words)[0]) && !IsSpace(Join(words)[|Join(words)| - 1])
  {
    hide IsSpace;
    if |words| > 1 {
      JoinEnds(words[..|words| - 1]);
      assert IsWord(words[|words| - 1]);
    } else {
      assert IsWord(words[0]);
    }
  }

  /** The normal form of a text is its words, with one space between any two, and one at either end where the text
      begins or ends with spaces. */
  lemma NormalFormIsWords(f: Folding, text: string)
    requires f.casefold(' ') == " "
    ensures NormalForm(f, text) == Lead(Letters(f, text)) + Join(Words(f, text)) + Trail(Letters(f, text))
  {
    hide IsSpace, Join;
    FoldIsLetters(f, text);
    FoldedWords(f, Letters(f, text));
    assert IsSpacedOut(f, Letters(f, text));
  }

  /** What a quote is compared by: its words, with one space between any two. */
  lemma QuoteFormIsWords(f: Folding, text: string)
    requires Faithful(f)
    ensures QuoteForm(f, text) == Join(Words(f, text))
  {
    hide IsSpace, Join, Words, Letters, NormalForm;
    NormalFormIsWords(f, text);
    WordsAreWords(f, text);
    var s, body := Letters(f, text), Join(Words(f, text));
    if Words(f, text) == [] {
      JoinNone();
      NoWordsNoTrail(f, text);
      StripsSpaces(Lead(s) + body + Trail(s));
    } else {
      JoinEnds(Words(f, text));
      StripsEnds(Lead(s), body, Trail(s));
    }
  }

  lemma NoWordsNoTrail(f: Folding, text: string)
    ensures Words(f, text) == [] ==> Trail(Letters(f, text)) == ""
  {
    SameCount(f, Split(Letters(f, text)));
  }

  lemma StripsSpaces(s: string)
    requires s == "" || s == " "
    ensures Strip(s) == ""
  {
    assert IsSpace(' ');
    hide IsSpace;
    if s == " " {
      assert IsSpace(s[0]) && s[1..] == "";
      assert StripLeft(s) == StripLeft("");
    }
  }

  lemma StripsEnds(lead: string, body: string, trail: string)
    requires (lead == "" || lead == " ") && (trail == "" || trail == " ")
    requires body != "" && !IsSpace(body[0]) && !IsSpace(body[|body| - 1])
    ensures Strip(lead + body + trail) == body
  {
    assert IsSpace(' ');
    hide IsSpace;
    var s, rest := lead + body + trail, body + trail;
    assert rest[0] == body[0] && StripLeft(rest) == rest;
    if lead == " " {
      assert s[0] == ' ' && s[1..] == rest;
    } else {
      assert s == rest;
    }
    assert StripLeft(s) == rest;
    if trail == " " {
      assert rest[|rest| - 1] == ' ' && rest[..|rest| - 1] == body;
      assert StripRight(rest) == StripRight(body);
    } else {
      assert rest == body;
    }
    assert StripRight(body) == body;
  }

  // ---------------------------------------------------------------- when two texts have one form

  /** One character more. */
  lemma SplitStep(s: string, c: char)
    ensures EndsInk(s + [c]) <==> !IsSpace(c)
    ensures IsSpace(c) ==> Split(s + [c]) == Split(s)
    ensures !IsSpace(c) && !EndsInk(s) ==> Split(s + [c]) == Split(s) + [[c]]
    ensures !IsSpace(c) && EndsInk(s) ==> Split(s + [c]) == Longer(Split(s), c)
  {
    hide IsSpace;
    assert (s + [c])[..|s|] == s;
  }

  /** The last word is a letter longer. */
  function Longer(words: seq<string>, c: char): seq<string>
    requires words != []
  {
    words[..|words| - 1] + [words[|words| - 1] + [c]]
  }

  lemma {:induction false} SplitOnSpace(s: string, word: string)
    requires IsWord(word)
    ensures Split(s + " " + word) == Split(s) + [word] && EndsInk(s + " " + word)
  {
    assert IsSpace(' ');
    hide IsSpace, Split, EndsInk;
    var n := |word| - 1;
    var front, c := word[..n], word[n];
    assert s + " " + word == s + " " + front + [c] && front + [c] == word;
    SplitStep(s + " " + front, c);
    if n > 0 {
      assert IsWord(front);
      SplitOnSpace(s, front);
      assert Longer(Split(s) + [front], c) == Split(s) + [front + [c]];
    } else {
      assert s + " " + front == s + [' '] && word == [c];
      SplitStep(s, ' ');
    }
  }

  lemma {:induction false} SplitOneWord(word: string)
    requires IsWord(word)
    ensures Split(word) == [word] && EndsInk(word)
  {
    hide IsSpace, Split, EndsInk;
    var n := |word| - 1;
    var front, c := word[..n], word[n];
    assert front + [c] == word;
    SplitStep(front, c);
    SplitNothing();
    if n > 0 {
      assert IsWord(front);
      SplitOneWord(front);
      assert Longer([front], c) == [front + [c]];
    }
  }

  /** Joining words and splitting again gives them back. */
  lemma {:induction false} SplitJoin(words: seq<string>)
    requires AreWords(words)
    ensures Split(Join(words)) == words
  {
    hide IsWord, Split;
    var n := |words| - 1;
    if |words| > 1 {
      SplitJoin(words[..n]);
      SplitOnSpace(Join(words[..n]), words[n]);
      assert words == words[..n] + [words[n]];
    } else if |words| == 1 {
      SplitOneWord(words[0]);
    } else {
      SplitNothing();
    }
  }

  lemma SplitNothing()
    ensures Split("") == [] && !EndsInk("")
  {
  }

  /** Two texts are compared as equal exactly when they have the same case-folded words. */
  lemma SameFormIff(f: Folding, a: string, b: string)
    requires Faithful(f)
    ensures QuoteForm(f, a) == QuoteForm(f, b) <==> Words(f, a) == Words(f, b)
  {
    hide Words, Join, Split, QuoteForm;
    QuoteFormIsWords(f, a);
    QuoteFormIsWords(f, b);
    WordsAreWords(f, a);
    WordsAreWords(f, b);
    SplitJoin(Words(f, a));
    SplitJoin(Words(f, b));
  }

  // ---------------------------------------------------------------- what does not matter

  lemma {:induction false} LettersJoin(f: Folding, a: string, b: string)
    ensures Letters(f, a + b) == Letters(f, a) + Letters(f, b)
  {
    hide Bare;
    if b == [] {
      assert a + b == a && Letters(f, a) + [] == Letters(f, a);
    } else {
      assert (a + b)[..|a + b| - 1] == a + b[..|b| - 1];
      LettersJoin(f, a, b[..|b| - 1]);
    }
  }

  /** Letter by letter, the two texts differ at most in case. */
  ghost predicate SameButCase(f: Folding, a: string, b: string) {
    && |a| == |b|
    && forall i :: 0 <= i < |a| ==> (IsSpace(a[i]) <==> IsSpace(b[i])) && f.casefold(a[i]) == f.casefold(b[i])
  }

  lemma {:induction false} SameButCaseFolds(f: Folding, a: string, b: string)
    requires SameButCase(f, a, b)
    ensures FoldLetters(f, a) == FoldLetters(f, b)
  {
    hide IsSpace;
    if a != [] {
      SameButCaseFolds(f, a[..|a| - 1], b[..|b| - 1]);
    }
  }

  /** Case does not matter, not even to the space at either end. */
  lemma CaseDoesNotMatter(f: Folding, a: string, b: string)
    requires SameButCase(f, Letters(f, a), Letters(f, b))
    ensures NormalForm(f, a) == NormalForm(f, b) && QuoteForm(f, a) == QuoteForm(f, b)
  {
    hide FoldLetters, Letters;
    FoldIsLetters(f, a);
    FoldIsLetters(f, b);
    SameButCaseFolds(f, Letters(f, a), Letters(f, b));
  }

  /** Characters that are their own compatibility form. */
  ghost predicate Plain(f: Folding, text: string) {
    forall i :: 0 <= i < |text| ==> !f.combining(text[i]) && f.nfkc(text[i]) == [text[i]]
  }

  lemma {:induction false} PlainLetters(f: Folding, text: string)
    requires Plain(f, text)
    ensures Letters(f, text) == text
  {
    hide Bare;
    if text != [] {
      var init, ch := text[..|text| - 1], text[|text| - 1];
      PlainLetters(f, init);
      BareOne(f, ch);
      assert text == init + [ch];
    }
  }

  lemma BareOne(f: Folding, ch: char)
    ensures Bare(f, [ch]) == if f.combining(ch) then [] else [ch]
  {
    assert [ch][..0] == [];
    assert Bare(f, [ch]) == Bare(f, []) + (if f.combining(ch) then [] else [ch]);
  }

  /** Plain texts without spaces have one form exactly when they fold to the same characters. */
  lemma PlainWordsCompareFolded(f: Folding, a: string, b: string)
    requires Faithful(f) && Plain(f, a) && Plain(f, b) && IsWord(a) && IsWord(b)
    ensures QuoteForm(f, a) == QuoteForm(f, b) <==> FoldWord(f, a) == FoldWord(f, b)
  {
    hide QuoteForm, IsWord, FoldWord;
    SameFormIff(f, a, b);
    PlainLetters(f, a);
    PlainLetters(f, b);
    SplitOneWord(a);
    SplitOneWord(b);
    assert Words(f, a)[0] == FoldWord(f, a) && Words(f, b)[0] == FoldWord(f, b);
  }

  lemma {:induction false} SplitSpaces(a: string, gap: string, b: string)
    requires gap != "" && forall i :: 0 <= i < |gap| ==> IsSpace(gap[i])
    ensures Split(a + gap + b) == Split(a) + Split(b)
    ensures EndsInk(a + gap + b) <==> EndsInk(b)
    decreases |b|
  {
    hide IsSpace, Split, EndsInk;
    if b == "" {
      TrailingSpaces(a, gap);
      SplitNothing();
      assert a + gap + b == a + gap;
    } else {
      var front, c := b[..|b| - 1], b[|b| - 1];
      assert a + gap + b == a + gap + front + [c] && front + [c] == b;
      SplitSpaces(a, gap, front);
      SplitStep(a + gap + front, c);
      SplitStep(front, c);
      if EndsInk(front) {
        EndsInWord(front);
        assert Longer(Split(a) + Split(front), c) == Split(a) + Longer(Split(front), c);
      }
    }
  }

  lemma EndsInWord(s: string)
    ensures EndsInk(s) ==> Split(s) != []
  {
  }

  lemma {:induction false} TrailingSpaces(a: string, gap: string)
    requires forall i :: 0 <= i < |gap| ==> IsSpace(gap[i])
    ensures Split(a + gap) == Split(a) && (gap != "" ==> !EndsInk(a + gap))
  {
    hide IsSpace, Split, EndsInk;
    if gap == "" {
      assert a + gap == a;
    } else {
      var front, c := gap[..|gap| - 1], gap[|gap| - 1];
      assert a + gap == a + front + [c];
      SplitStep(a + front, c);
      TrailingSpaces(a, front);
    }
  }

  /** How long a run of spaces is does not matter. */
  lemma SpacesDoNotMatter(f: Folding, a: string, gap: string, wider: string, b: string)
    requires Faithful(f) && AllSpaces(Letters(f, gap)) && AllSpaces(Letters(f, wider))
    ensures QuoteForm(f, a + gap + b) == QuoteForm(f, a + wider + b)
  {
    hide QuoteForm, Letters, Split, IsSpace;
    SameFormIff(f, a + gap + b, a + wider + b);
    forall g | g == gap || g == wider
      ensures Split(Letters(f, a + g + b)) == Split(Letters(f, a)) + Split(Letters(f, b)) {
      LettersJoin(f, a + g, b);
      LettersJoin(f, a, g);
      SplitSpaces(Letters(f, a), Letters(f, g), Letters(f, b));
    }
  }

  ghost predicate AllSpaces(s: string) {
    s != "" && forall i :: 0 <= i < |s| ==> IsSpace(s[i])
  }

  /** Combining characters do not matter. */
  lemma CombiningDoesNotMatter(f: Folding, a: string, marks: string, b: string)
    requires forall i :: 0 <= i < |marks| ==> f.combining(marks[i])
    ensures NormalForm(f, a + marks + b) == NormalForm(f, a + b)
  {
    hide Fold;
    FoldJoin(f, a + marks, b, NOTHING);
    FoldJoin(f, a, marks, NOTHING);
    FoldJoin(f, a, b, NOTHING);
    CombiningErased(f, marks, Fold(f, a, NOTHING));
  }

  // ---------------------------------------------------------------- a quote with the chunk's words is found

  lemma {:induction false} StripLeftInside(s: string, t: string, i: nat)
    requires OccursAt(t, s, i)
    ensures Contains(t, StripLeft(s))
  {
    hide IsSpace;
    if s != [] && IsSpace(s[0]) {
      assert t[i + 1..i + 1 + |s[1..]|] == t[i..i + |s|][1..];
      assert OccursAt(t, s[1..], i + 1);
      StripLeftInside(s[1..], t, i + 1);
    } else {
      assert OccursAt(t, StripLeft(s), i);
    }
  }

  lemma {:induction false} StripRightInside(s: string, t: string, i: nat)
    requires OccursAt(t, s, i)
    ensures Contains(t, StripRight(s))
  {
    hide IsSpace;
    if s != [] && IsSpace(s[|s| - 1]) {
      assert t[i..i + |s| - 1] == t[i..i + |s|][..|s| - 1];
      assert OccursAt(t, s[..|s| - 1], i);
      StripRightInside(s[..|s| - 1], t, i);
    } else {
      assert OccursAt(t, StripRight(s), i);
    }
  }

  lemma StripInside(s: string, t: string, i: nat)
    requires OccursAt(t, s, i)
    ensures Contains(t, Strip(s))
  {
    hide StripLeft, StripRight;
    StripLeftInside(s, t, i);
    var k :| OccursAt(t, StripLeft(s), k);
    StripRightInside(StripLeft(s), t, k);
  }

  /** The stripped form of a slice is in the form of the whole. */
  lemma SliceFormIsInside(f: Folding, text: string, start: nat, end: nat)
    requires Faithful(f) && start <= end <= |text|
    ensures Contains(NormalForm(f, text), QuoteForm(f, text[start..end]))
  {
    hide Fold, Strip, Lags, IsSpace;
    SplitNormalForm(f, text, start, end);
    SplitNormalForm(f, text, end, |text|);
    assert text[..|text|] == text;
    var pre, onward, post := NormalForm(f, text[..start]), Onward(f, text, start, end).text,
      Onward(f, text, end, |text|).text;
    var slice := text[start..end];
    var k := OnwardHolds(f, text, start, end);
    var q := QuoteForm(f, slice);
    var whole := NormalForm(f, text);
    assert whole == pre + onward + post;
    assert whole[|pre| + k..|pre| + k + |q|] == onward[k..k + |q|];
    assert OccursAt(whole, q, |pre| + k);
  }

  lemma OnwardHolds(f: Folding, text: string, start: nat, end: nat) returns (k: nat)
    requires Faithful(f) && start <= end <= |text|
    ensures OccursAt(Onward(f, text, start, end).text, QuoteForm(f, text[start..end]), k)
  {
    hide Strip, IsSpace;
    var slice := text[start..end];
    var later := Folded("", true);
    LagsText(f, slice, NOTHING, later);
    var own, after := NormalForm(f, slice), Fold(f, slice, later).text;
    if Fold(f, text[..start], NOTHING).spaced {
      if own == after {
        assert OccursAt(after, own, 0);
        StripInside(own, after, 0);
      } else {
        assert own == " " + after;
        StripAfterSpace(after);
        assert OccursAt(after, after, 0);
        StripInside(after, after, 0);
      }
    } else {
      assert OccursAt(own, own, 0);
      StripInside(own, own, 0);
    }
    k :| OccursAt(Onward(f, text, start, end).text, QuoteForm(f, slice), k);
  }

  lemma StripAfterSpace(s: string)
    ensures Strip(" " + s) == Strip(s)
  {
    assert IsSpace(' ');
    assert (" " + s)[1..] == s;
  }

  /** A slice with the words of the quote is a match, exact or in its normal form. */
  lemma SameWordsMatch(f: Folding, text: string, quote: string, start: nat, end: nat)
    requires Faithful(f) && start <= end <= |text| && Words(f, text[start..end]) == Words(f, quote) != []
    ensures ExactMatch(text, quote) || NormalMatch(f, text, quote)
  {
    hide Words, NormalForm, QuoteForm;
    SameFormIff(f, text[start..end], quote);
    SliceFormIsInside(f, text, start, end);
    QuoteFormIsWords(f, quote);
    WordsAreWords(f, quote);
    JoinEnds(Words(f, quote));
    NothingHasNoWords(f, text, start, end);
    NothingHasNoWords(f, quote, 0, |quote|);
    assert quote[0..|quote|] == quote;
  }

  /** A quote is aligned wherever some slice of the chunk has its words: whatever the case, the spaces and the
      combining characters, and whatever the fuzzy matcher says. */
  lemma SameWordsAreAligned(
      f: Folding, fuzzy: Fuzzy, text: string, quote: string, offset: nat, start: nat, end: nat, r: Option<Span>)
    requires Faithful(f) && start <= end <= |text| && Words(f, text[start..end]) == Words(f, quote) != []
    requires AlignedAt(f, fuzzy, text, quote, offset, r)
    ensures r.Some?
  {
    hide Words, NormalForm, MapsBack, QuoteForm;
    SameWordsMatch(f, text, quote, start, end);
  }

  lemma NothingHasNoWords(f: Folding, text: string, start: nat, end: nat)
    requires start <= end <= |text|
    ensures text == "" ==> Words(f, text[start..end]) == []
  {
    if text == "" {
      assert text[start..end] == "";
    }
  }
}
