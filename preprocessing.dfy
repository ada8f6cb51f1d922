/** `TextPreprocessor`: the cleaning pipeline, the emoji conversion, stop-word
    removal, the normaliser, the feature extractor and the batch cleaner. The
    preprocessor's tables never change after construction, so they are
    constants here. */
module Preprocessing {
  import opened Wrappers
  import opened Text
  import opened Patterns
  import opened Numeric

  /** `stop_words_es` */
  const StopWordsEs: set<string> := {
    "el", "la", "de", "que", "y", "a", "en", "un", "ser", "se",
    "no", "haber", "por", "con", "su", "para", "como", "estar",
    "tener", "le", "lo", "todo", "pero", "m\U{E1}s", "hacer", "o",
    "poder", "decir", "este", "ir", "otro", "ese", "si", "me",
    "ya", "ver", "porque", "dar", "cuando", "muy", "sin", "vez",
    "mucho", "saber", "qu\U{E9}", "sobre", "mi", "alguno", "mismo",
    "yo", "tambi\U{E9}n", "hasta", "a\U{F1}o", "dos", "querer", "entre"
  }

  /** `emoji_dict`, in its insertion order, which is the order the conversion
      visits it in. The red heart is two code points, U+2764 U+FE0F. */
  const EmojiTable: seq<(string, string)> := [
    ("\U{1F60A}", "feliz"),
    ("\U{1F603}", "feliz"),
    ("\U{1F604}", "muy feliz"),
    ("\U{1F601}", "muy feliz"),
    ("\U{1F60D}", "amor"),
    ("\U{2764}\U{FE0F}", "amor"),
    ("\U{1F614}", "triste"),
    ("\U{1F622}", "triste"),
    ("\U{1F62D}", "muy triste"),
    ("\U{1F621}", "enojado"),
    ("\U{1F620}", "enojado"),
    ("\U{1F624}", "frustrado"),
    ("\U{1F44D}", "bien"),
    ("\U{1F44E}", "mal"),
    ("\U{2B50}", "estrella"),
    ("\U{2728}", "excelente"),
    ("\U{1F494}", "decepcion"),
    ("\U{1F92E}", "asco"),
    ("\U{1F610}", "neutral"),
    ("\U{1F611}", "neutral"),
    ("\U{1F644}", "molesto")
  ]

  /** The accent table of `normalize_text`, in its insertion order. */
  const AccentTable: seq<(char, char)> := [
    ('\U{E1}', 'a'), ('\U{E9}', 'e'), ('\U{ED}', 'i'), ('\U{F3}', 'o'),
    ('\U{FA}', 'u'), ('\U{F1}', 'n'), ('\U{FC}', 'u')
  ]

  // ---------------------------------------------------------------------------
  // _convert_emojis

  /** `f' {word} '` */
  function Spaced(word: string): string {
    " " + word + " "
  }

  /** A conversion table whose glyphs are nonempty and share no character
      with any replacement, so a later replacement cannot bring back an
      earlier glyph. */
  predicate Separated(table: seq<(string, string)>) {
    && (forall k :: 0 <= k < |table| ==> table[k].0 != [])
    && (forall j, k, c :: 0 <= j < |table| && 0 <= k < |table| && c in table[j].0 ==> c !in Spaced(table[k].1))
  }

  /** Every glyph of the emoji table lies above U+2000, every replacement is
      ASCII. */
  lemma EmojiTableSeparated()
    ensures Separated(EmojiTable)
  {
    EmojiGlyphsHigh();
    EmojiWordsAscii();
    forall j, k, c | 0 <= j < |EmojiTable| && 0 <= k < |EmojiTable| && c in EmojiTable[j].0
      ensures c !in Spaced(EmojiTable[k].1)
    {
      SpacedAscii(EmojiTable[k].1);
    }
  }

  lemma SpacedAscii(word: string)
    requires forall i :: 0 <= i < |word| ==> word[i] < '\U{80}'
    ensures forall c :: c in Spaced(word) ==> c < '\U{80}'
  {
    var w := Spaced(word);
    assert forall i :: 0 <= i < |word| ==> w[i + 1] == word[i];
    forall c | c in w ensures c < '\U{80}' {
      var i :| 0 <= i < |w| && w[i] == c;
      if 0 < i < |w| - 1 {
        assert w[i] == word[i - 1];
      }
    }
  }

  lemma EmojiGlyphsHigh()
    ensures forall k :: 0 <= k < |EmojiTable| ==>
      EmojiTable[k].0 != [] && forall i :: 0 <= i < |EmojiTable[k].0| ==> EmojiTable[k].0[i] >= '\U{2000}'
  {
  }

  lemma EmojiWordsAscii()
    ensures forall k :: 0 <= k < |EmojiTable| ==>
      forall i :: 0 <= i < |EmojiTable[k].1| ==> EmojiTable[k].1[i] < '\U{80}'
  {
  }

  /** The loop of `_convert_emojis` as a fold: `text.replace(glyph, ' word ')`
      for each entry of `table` in turn. */
  function ReplaceAll(text: string, table: seq<(string, string)>): string
    requires forall k :: 0 <= k < |table| ==> table[k].0 != []
    decreases |table|
  {
    if table == [] then text
    else
      var last := table[|table| - 1];
      Replace(ReplaceAll(text, table[..|table| - 1]), last.0, Spaced(last.1))
  }

  /** One replacement removes its own glyph and brings back none of the
      earlier ones. */
  lemma GlyphStep(u: string, table: seq<(string, string)>, i: nat)
    requires Separated(table) && i < |table|
    requires forall k :: 0 <= k < i ==> !Contains(u, table[k].0)
    ensures forall k :: 0 <= k <= i ==> !Contains(Replace(u, table[i].0, Spaced(table[i].1)), table[k].0)
  {
    forall k | 0 <= k <= i
      ensures !Contains(Replace(u, table[i].0, Spaced(table[i].1)), table[k].0)
    {
      ReplaceNoOccurrence(u, table[i].0, Spaced(table[i].1), table[k].0);
    }
  }

  /** `_convert_emojis`: afterwards no glyph of the table is left. */
  method ConvertEmojis(text: string) returns (r: string)
    ensures r == ReplaceAll(text, EmojiTable)
    ensures forall k :: 0 <= k < |EmojiTable| ==> !Contains(r, EmojiTable[k].0)
  {
    EmojiTableSeparated();
    r := text;
    for i := 0 to |EmojiTable|
      invariant r == ReplaceAll(text, EmojiTable[..i])
      invariant forall k :: 0 <= k < i ==> !Contains(r, EmojiTable[k].0)
    {
      var glyph := EmojiTable[i].0;
      var word := EmojiTable[i].1;
      GlyphStep(r, EmojiTable, i);
      r := Replace(r, glyph, Spaced(word));
      assert EmojiTable[..i + 1][..i] == EmojiTable[..i];
    }
    assert EmojiTable[..|EmojiTable|] == EmojiTable;
  }

  /** The fold leaves no glyph of a separated table behind. */
  lemma {:induction false} ReplaceAllClears(text: string, table: seq<(string, string)>)
    requires Separated(table)
    ensures forall k :: 0 <= k < |table| ==> !Contains(ReplaceAll(text, table), table[k].0)
    decreases |table|
  {
    if table != [] {
      var front := table[..|table| - 1];
      assert Separated(front) by {
        forall j, k, c | 0 <= j < |front| && 0 <= k < |front| && c in front[j].0
          ensures c !in Spaced(front[k].1)
        {
          assert front[j] == table[j] && front[k] == table[k];
        }
      }
      ReplaceAllClears(text, front);
      assert forall k :: 0 <= k < |front| ==> front[k] == table[k];
      GlyphStep(ReplaceAll(text, front), table, |table| - 1);
    }
  }

  // ---------------------------------------------------------------------------
  // clean_text and batch_clean

  /** The text after the emoji conversion. */
  function Converted(text: string): string {
    EmojiTableSeparated();
    ReplaceAll(text, EmojiTable)
  }

  /** The text after each step of `clean_text` up to the tag removal. */
  function Rewritten(text: string): string {
    RemoveTags(UnwrapHashtags(RemoveMentions(RemoveUrls(Converted(text)))))
  }

  /** `clean_text`: an empty text is returned as is; any other goes through
      the emoji conversion, then URL, mention, hashtag and tag rewriting,
      then whitespace collapsing and trimming. The result is trimmed and
      single-spaced. */
  function CleanText(text: string): (r: string)
    ensures text == [] ==> r == []
    ensures SingleSpaced(r)
  {
    if text == [] then []
    else
      StripCollapsed(Rewritten(text));
      Strip(CollapseSpaces(Rewritten(text)))
  }

  /** The rewrites after the emoji conversion only delete characters: what
      reaches the whitespace step is the converted text with some characters
      left out and the others in their order. */
  lemma RewrittenDeletes(text: string)
    ensures Subsequence(Rewritten(text), Converted(text))
  {
    var converted := Converted(text);
    var noUrls := RemoveUrls(converted);
    var noMentions := RemoveMentions(noUrls);
    var unwrapped := UnwrapHashtags(noMentions);
    HashtagsDelete(noMentions);
    SubsequenceTrans(noMentions, noUrls, converted);
    SubsequenceTrans(unwrapped, noMentions, converted);
    SubsequenceTrans(RemoveTags(unwrapped), unwrapped, converted);
  }

  /** The whitespace step changes no word: the cleaned text splits into
      exactly the words of the rewritten one. */
  lemma CleanTextWords(text: string)
    requires text != []
    ensures Words(CleanText(text)) == Words(Rewritten(text))
  {
    WordsStrip(CollapseSpaces(Rewritten(text)));
    CollapseKeepsWords(Rewritten(text));
  }

  /** `batch_clean` */
  function BatchClean(texts: seq<string>): (r: seq<string>)
    ensures |r| == |texts|
    ensures forall i :: 0 <= i < |texts| ==> r[i] == CleanText(texts[i])
  {
    seq(|texts|, i requires 0 <= i < |texts| => CleanText(texts[i]))
  }

  /** Every cleaned text of a batch is trimmed and single-spaced. */
  lemma BatchCleanSpaced(texts: seq<string>)
    ensures forall i :: 0 <= i < |BatchClean(texts)| ==> SingleSpaced(BatchClean(texts)[i])
  {
    forall i | 0 <= i < |texts| ensures SingleSpaced(BatchClean(texts)[i]) {
      assert BatchClean(texts)[i] == CleanText(texts[i]);
    }
  }

  /** Later steps only delete characters or replace whitespace, so an emoji
      that is a single code point never survives cleaning. */
  lemma CleanRemovesSingleGlyphs(text: string, k: nat)
    requires k < |EmojiTable| && |EmojiTable[k].0| == 1
    ensures EmojiTable[k].0[0] !in CleanText(text)
  {
    if text != [] {
      var g := EmojiTable[k].0[0];
      EmojiTableSeparated();
      var converted := ReplaceAll(text, EmojiTable);
      ReplaceAllClears(text, EmojiTable);
      assert EmojiTable[k].0 == [g];
      ContainsChar(converted, g);
      var hashed := RemoveMentions(RemoveUrls(converted));
      UnwrapIsDrop(hashed);
      var rewritten := Rewritten(text);
      assert g !in rewritten;
      StripCollapsed(rewritten);
      assert g != ' ' by {
        assert g in EmojiTable[k].0;
        assert ' ' in Spaced(EmojiTable[k].1);
      }
    }
  }

  // ---------------------------------------------------------------------------
  // remove_stopwords

  /** The stop words for a language code: the Spanish list for "es", none
      otherwise. */
  function StopWordsFor(language: string): set<string> {
    if language == "es" then StopWordsEs else {}
  }

  /** `[w for w in ws if w not in stop]` */
  function Keep(ws: seq<string>, stop: set<string>): seq<string>
    decreases |ws|
  {
    if ws == [] then []
    else (if ws[0] in stop then [] else [ws[0]]) + Keep(ws[1..], stop)
  }

  /** `remove_stopwords` */
  function RemoveStopwords(text: string, language: string): (r: string)
    ensures Words(r) == Keep(Words(Lower(text)), StopWordsFor(language))
    ensures SingleSpaced(r)
  {
    var kept := Keep(Words(Lower(text)), StopWordsFor(language));
    KeepWords(Words(Lower(text)), StopWordsFor(language));
    WordsOfJoin(kept);
    AllWordsOf(kept);
    JoinSpaced(kept);
    Join(kept)
  }

  /** A word is kept exactly when it is a word of the input and not a stop
      word. */
  lemma {:induction false} KeepMembers(ws: seq<string>, stop: set<string>)
    ensures forall w :: w in Keep(ws, stop) <==> w in ws && w !in stop
    decreases |ws|
  {
    if ws != [] {
      KeepMembers(ws[1..], stop);
      assert ws == [ws[0]] + ws[1..];
    }
  }

  /** With no stop words every word is kept, in order. */
  lemma {:induction false} KeepNothingStopped(ws: seq<string>)
    ensures Keep(ws, {}) == ws
    decreases |ws|
  {
    if ws != [] {
      KeepNothingStopped(ws[1..]);
      assert ws == [ws[0]] + ws[1..];
    }
  }

  /** Filtering keeps words whole: every kept element is an element. */
  lemma {:induction false} KeepWords(ws: seq<string>, stop: set<string>)
    requires forall i :: 0 <= i < |ws| ==> IsWord(ws[i])
    ensures forall i :: 0 <= i < |Keep(ws, stop)| ==> IsWord(Keep(ws, stop)[i])
    decreases |ws|
  {
    if ws != [] {
      KeepWords(ws[1..], stop);
      var head := if ws[0] in stop then [] else [ws[0]];
      var r := Keep(ws, stop);
      assert r == head + Keep(ws[1..], stop);
      forall i | 0 <= i < |r| ensures IsWord(r[i]) {
        if i >= |head| {
          assert r[i] == Keep(ws[1..], stop)[i - |head|];
        }
      }
    }
  }

  /** No stop word is left, and every word left is a word of the
      lower-cased input. */
  lemma RemoveStopwordsFilters(text: string, language: string)
    ensures forall w :: w in Words(RemoveStopwords(text, language)) ==>
      w !in StopWordsFor(language) && w in Words(Lower(text))
  {
    KeepMembers(Words(Lower(text)), StopWordsFor(language));
  }

  /** For a language other than "es" only lower-casing and re-joining
      happen. */
  lemma RemoveStopwordsOtherLanguage(text: string, language: string)
    requires language != "es"
    ensures RemoveStopwords(text, language) == Join(Words(Lower(text)))
  {
    KeepNothingStopped(Words(Lower(text)));
  }

  /** The result is lower-case: it holds no upper-case character. */
  lemma RemoveStopwordsLowercase(text: string, language: string)
    ensures forall c :: c in RemoveStopwords(text, language) ==> !IsUpperChar(c)
  {
    var lowered := Lower(text);
    var notUpper := (c: char) => !IsUpperChar(c);
    WordsChars(lowered, notUpper);
    var kept := Keep(Words(lowered), StopWordsFor(language));
    KeepMembers(Words(lowered), StopWordsFor(language));
    forall i, c | 0 <= i < |kept| && c in kept[i] ensures notUpper(c) {
      assert kept[i] in Words(lowered);
    }
    JoinChars(kept, notUpper);
  }

  // ---------------------------------------------------------------------------
  // normalize_text

  /** The accent loop of `normalize_text` as a fold:
      `text.replace(old, new)` for each entry of `table` in turn. */
  function StripAccents(text: string, table: seq<(char, char)>): string
    decreases |table|
  {
    if table == [] then text
    else
      var last := table[|table| - 1];
      Replace(StripAccents(text, table[..|table| - 1]), [last.0], [last.1])
  }

  /** The text `normalize_text` returns: no digit, no punctuation of the
      class, no accented letter of the table, trimmed and single-spaced. */
  function Normalized(text: string): (r: string)
    ensures forall c :: c in r ==> Normal(c)
    ensures SingleSpaced(r)
  {
    var t := StripAccents(Lower(text), AccentTable);
    AccentsCleared(Lower(text), |AccentTable|);
    assert AccentTable[..|AccentTable|] == AccentTable;
    AccentTableLetters();
    AfterAccents(t);
    Strip(CollapseSpaces(DigitsToNum(PunctuationToSpace(t))))
  }

  /** After the first `i` passes of the accent loop none of their accented
      letters is left. */
  lemma {:induction false} AccentsCleared(t: string, i: nat)
    requires i <= |AccentTable|
    ensures forall k :: 0 <= k < i ==> AccentTable[k].0 !in StripAccents(t, AccentTable[..i])
    decreases i
  {
    if i > 0 {
      AccentsCleared(t, i - 1);
      var table := AccentTable[..i];
      assert table[..i - 1] == AccentTable[..i - 1];
      assert table[i - 1] == AccentTable[i - 1];
      AccentStep(StripAccents(t, AccentTable[..i - 1]), i - 1);
    }
  }

  /** No accented character of the table is an unaccented one. */
  lemma AccentTableSeparated()
    ensures forall j, k :: 0 <= j < |AccentTable| && 0 <= k < |AccentTable| ==> AccentTable[j].0 != AccentTable[k].1
    ensures forall k :: 0 <= k < |AccentTable| ==> AccentTable[k].0 != ' ' && AccentTable[k].0 !in "NUM"
  {
  }

  /** One pass of the accent loop removes its accented letter and brings back
      none of the earlier ones. */
  lemma AccentStep(t: string, i: nat)
    requires i < |AccentTable|
    requires forall k :: 0 <= k < i ==> AccentTable[k].0 !in t
    ensures forall k :: 0 <= k <= i ==> AccentTable[k].0 !in Replace(t, [AccentTable[i].0], [AccentTable[i].1])
  {
    AccentTableSeparated();
    var a, b := AccentTable[i].0, AccentTable[i].1;
    var u := Replace(t, [a], [b]);
    ReplaceChars(t, [a], [b]);
    ReplaceNoOccurrence(t, [a], [b], [a]);
    ContainsChar(u, a);
  }

  /** The accented letters of the table. */
  predicate IsAccent(c: char) {
    c == '\U{E1}' || c == '\U{E9}' || c == '\U{ED}' || c == '\U{F3}'
    || c == '\U{FA}' || c == '\U{F1}' || c == '\U{FC}'
  }

  /** `IsAccent` holds of exactly the letters the table replaces. */
  lemma AccentTableLetters()
    ensures forall k :: 0 <= k < |AccentTable| ==> IsAccent(AccentTable[k].0)
    ensures forall c :: IsAccent(c) ==> exists k :: 0 <= k < |AccentTable| && AccentTable[k].0 == c
  {
    forall c | IsAccent(c)
      ensures exists k :: 0 <= k < |AccentTable| && AccentTable[k].0 == c
    {
      if c == '\U{E1}' { assert AccentTable[0].0 == c; }
      else if c == '\U{E9}' { assert AccentTable[1].0 == c; }
      else if c == '\U{ED}' { assert AccentTable[2].0 == c; }
      else if c == '\U{F3}' { assert AccentTable[3].0 == c; }
      else if c == '\U{FA}' { assert AccentTable[4].0 == c; }
      else if c == '\U{F1}' { assert AccentTable[5].0 == c; }
      else { assert AccentTable[6].0 == c; }
    }
  }

  /** The characters none of the steps after the accent loop lets through. */
  predicate Normal(c: char) {
    !IsDigit(c) && !IsPunctuation(c) && !IsAccent(c)
  }

  lemma PunctuationStage(t: string)
    requires forall c :: c in t ==> !IsAccent(c)
    ensures forall c :: c in PunctuationToSpace(t) ==> !IsPunctuation(c) && !IsAccent(c)
  {
  }

  lemma DigitStage(u: string)
    requires forall c :: c in u ==> !IsPunctuation(c) && !IsAccent(c)
    ensures forall c :: c in DigitsToNum(u) ==> Normal(c)
  {
  }

  lemma SpaceStage(v: string)
    requires forall c :: c in v ==> Normal(c)
    ensures forall c :: c in Strip(CollapseSpaces(v)) ==> Normal(c)
  {
    assert forall k :: 0 <= k < |v| ==> Normal(v[k]);
    StripCollapsedKeeps(v, Normal);
  }

  /** What the steps after the accent loop guarantee. */
  lemma AfterAccents(t: string)
    requires forall c :: c in t ==> !IsAccent(c)
    ensures var r := Strip(CollapseSpaces(DigitsToNum(PunctuationToSpace(t))));
      && (forall c :: c in r ==> Normal(c))
      && SingleSpaced(r)
  {
    PunctuationStage(t);
    DigitStage(PunctuationToSpace(t));
    SpaceStage(DigitsToNum(PunctuationToSpace(t)));
    StripCollapsed(DigitsToNum(PunctuationToSpace(t)));
  }

  /** Not an upper-case character, unless one of the letters of `NUM`. */
  predicate LowerOrNum(c: char) {
    !IsUpperChar(c) || c == 'N' || c == 'U' || c == 'M'
  }

  /** A character that survives every step of `normalize_text`: no
      whitespace, no punctuation of the class, no digit. */
  predicate Survives(c: char) {
    !IsSpace(c) && !IsPunctuation(c) && !IsDigit(c)
  }

  /** A surviving character other than the letters `normalize_text` inserts. */
  predicate KeptByNormalize(c: char) {
    Survives(c) && c != 'N' && c != 'U' && c != 'M'
  }

  /** `lower()` leaves no upper-case character. */
  lemma LowerHasNoUpper(text: string)
    ensures forall c :: c in Lower(text) ==> !IsUpperChar(c)
  {
    forall c | c in Lower(text) ensures !IsUpperChar(c) {
      var i :| 0 <= i < |text| && Lower(text)[i] == c;
    }
  }

  /** The accent loop brings in only lower-case letters. */
  lemma {:induction false} AccentsLower(t: string, i: nat)
    requires i <= |AccentTable|
    requires forall c :: c in t ==> !IsUpperChar(c)
    ensures forall c :: c in StripAccents(t, AccentTable[..i]) ==> !IsUpperChar(c)
    decreases i
  {
    if i > 0 {
      AccentsLower(t, i - 1);
      var table := AccentTable[..i];
      assert table[..i - 1] == AccentTable[..i - 1];
      var a, b := AccentTable[i - 1].0, AccentTable[i - 1].1;
      assert table[i - 1] == (a, b);
      assert !IsUpperChar(b);
      ReplaceChars(StripAccents(t, AccentTable[..i - 1]), [a], [b]);
    }
  }

  /** The accent-stripped lower-cased text has no upper-case character. */
  lemma StrippedLower(text: string)
    ensures forall c :: c in StripAccents(Lower(text), AccentTable) ==> !IsUpperChar(c)
  {
    LowerHasNoUpper(text);
    AccentsLower(Lower(text), |AccentTable|);
    assert AccentTable[..|AccentTable|] == AccentTable;
  }

  /** `normalize_text` returns lower-case text: the only upper-case
      characters it can hold are those of the `NUM` it puts for numbers. */
  lemma NormalizedLowercase(text: string)
    ensures forall c :: c in Normalized(text) ==> LowerOrNum(c)
  {
    var t := StripAccents(Lower(text), AccentTable);
    StrippedLower(text);
    var u := DigitsToNum(PunctuationToSpace(t));
    assert forall c :: c in u ==> LowerOrNum(c);
    assert forall k :: 0 <= k < |u| ==> LowerOrNum(u[k]);
    StripCollapsedKeeps(u, LowerOrNum);
  }

  lemma KeptByNormalizeImplies()
    ensures forall c :: KeptByNormalize(c) ==> !IsSpace(c)
    ensures forall c :: KeptByNormalize(c) ==> KeptByDigits(c)
    ensures forall c :: KeptByNormalize(c) ==> KeptByPunctuation(c)
  {
  }

  lemma WhitespaceStepKeeps(d: string)
    ensures Filter(Strip(CollapseSpaces(d)), KeptByNormalize) == Filter(d, KeptByNormalize)
  {
    KeptByNormalizeImplies();
    FilterStrip(CollapseSpaces(d), KeptByNormalize);
    FilterCollapse(d, KeptByNormalize);
  }

  lemma DigitStepKeeps(u: string)
    ensures Filter(DigitsToNum(u), KeptByNormalize) == Filter(u, KeptByNormalize)
  {
    KeptByNormalizeImplies();
    DigitsKeep(u);
    FilterFilter(DigitsToNum(u), KeptByDigits, KeptByNormalize);
    FilterFilter(u, KeptByDigits, KeptByNormalize);
  }

  lemma PunctuationStepKeeps(t: string)
    ensures Filter(PunctuationToSpace(t), KeptByNormalize) == Filter(t, KeptByNormalize)
  {
    KeptByNormalizeImplies();
    PunctuationKeeps(t);
    FilterFilter(PunctuationToSpace(t), KeptByPunctuation, KeptByNormalize);
    FilterFilter(t, KeptByPunctuation, KeptByNormalize);
  }

  /** The rewrite and whitespace steps of `normalize_text` keep every
      character `KeptByNormalize` holds of, in its order. */
  lemma NormalizeStepsKeep(t: string)
    ensures Filter(Strip(CollapseSpaces(DigitsToNum(PunctuationToSpace(t)))), KeptByNormalize)
      == Filter(t, KeptByNormalize)
  {
    WhitespaceStepKeeps(DigitsToNum(PunctuationToSpace(t)));
    DigitStepKeeps(PunctuationToSpace(t));
    PunctuationStepKeeps(t);
  }

  /** On text without upper-case characters the two filters agree. */
  lemma KeptWithoutUpper(t: string)
    requires forall c :: c in t ==> !IsUpperChar(c)
    ensures Filter(t, KeptByNormalize) == Filter(t, Survives)
  {
    forall k | 0 <= k < |t| ensures KeptByNormalize(t[k]) == Survives(t[k]) {
      assert t[k] in t;
    }
    FilterAgree(t, KeptByNormalize, Survives);
  }

  /** `normalize_text` keeps every character of the lower-cased,
      accent-stripped text that is not whitespace, punctuation or a digit, in
      its order: apart from the `NUM` it inserts, it only drops or turns
      into single spaces what it rewrites. */
  lemma NormalizedKeeps(text: string)
    ensures Filter(Normalized(text), KeptByNormalize)
      == Filter(StripAccents(Lower(text), AccentTable), Survives)
  {
    var t := StripAccents(Lower(text), AccentTable);
    assert Normalized(text) == Strip(CollapseSpaces(DigitsToNum(PunctuationToSpace(t))));
    NormalizeStepsKeep(t);
    StrippedLower(text);
    KeptWithoutUpper(t);
  }

  /** `normalize_text`: the result holds no digit (each run of digits became
      `NUM`), no punctuation of the class (each run became a space, so only
      the backslash can remain), no accented letter of the table, and is
      trimmed and single-spaced. */
  method NormalizeText(text: string) returns (r: string)
    ensures r == Normalized(text)
    ensures forall c :: c in r ==> Normal(c)
    ensures SingleSpaced(r)
  {
    var lowered := Lower(text);
    var t := lowered;
    for i := 0 to |AccentTable|
      invariant t == StripAccents(lowered, AccentTable[..i])
      invariant forall k :: 0 <= k < i ==> AccentTable[k].0 !in t
    {
      var accented := AccentTable[i].0;
      var plain := AccentTable[i].1;
      AccentStep(t, i);
      t := Replace(t, [accented], [plain]);
      assert AccentTable[..i + 1][..i] == AccentTable[..i];
    }
    assert AccentTable[..|AccentTable|] == AccentTable;
    AccentTableLetters();
    AfterAccents(t);
    r := Strip(CollapseSpaces(DigitsToNum(PunctuationToSpace(t))));
  }

  // ---------------------------------------------------------------------------
  // extract_features

  /** The dict `extract_features` returns. */
  datatype Features = Features(
    length: nat, wordCount: nat, exclamationCount: nat, questionCount: nat,
    uppercaseRatio: real, hasEmoji: bool, repeatedChars: bool, allCaps: bool)

  /** `sum(1 for c in s if c.isupper())` */
  function CountUpper(s: string): (n: nat)
    ensures n <= |s|
  {
    if s == [] then 0 else CountUpper(s[..|s| - 1]) + (if IsUpperChar(s[|s| - 1]) then 1 else 0)
  }

  /** The count is the number of positions that hold an upper-case character. */
  lemma {:induction false} CountUpperIndices(s: string)
    ensures CountUpper(s) == |set i | 0 <= i < |s| && IsUpperChar(s[i])|
  {
    if s != [] {
      CountUpperIndices(s[..|s| - 1]);
      UpperIndicesStep(s);
    }
  }

  lemma UpperIndicesStep(s: string)
    requires s != []
    ensures var front := s[..|s| - 1];
      |set i | 0 <= i < |s| && IsUpperChar(s[i])|
        == |set i | 0 <= i < |front| && IsUpperChar(front[i])| + (if IsUpperChar(s[|s| - 1]) then 1 else 0)
  {
    var front := s[..|s| - 1];
    var before := set i | 0 <= i < |front| && IsUpperChar(front[i]);
    var all := set i | 0 <= i < |s| && IsUpperChar(s[i]);
    var n := |s| - 1;
    var last := if IsUpperChar(s[n]) then {n} else {};
    assert all == before + last by {
      forall i ensures i in all <==> i in before + last {
        if 0 <= i < n {
          assert front[i] == s[i];
        }
      }
    }
    assert before !! last by {
      assert n !in before;
    }
    assert |before + last| == |before| + |last|;
  }

  /** `any(glyph in text for glyph in table)` */
  function HasGlyph(text: string, table: seq<(string, string)>): (b: bool)
    ensures b <==> exists k :: 0 <= k < |table| && Contains(text, table[k].0)
    decreases |table|
  {
    if table == [] then false
    else
      var b := Contains(text, table[0].0) || HasGlyph(text, table[1..]);
      GlyphShift(text, table);
      b
  }

  /** The glyphs of `table[1..]` are those of `table` after the first. */
  lemma GlyphShift(text: string, table: seq<(string, string)>)
    requires table != []
    ensures (exists k :: 0 <= k < |table| && Contains(text, table[k].0))
      <==> Contains(text, table[0].0) || exists k :: 0 <= k < |table[1..]| && Contains(text, table[1..][k].0)
  {
    var tail := table[1..];
    if exists k :: 0 <= k < |tail| && Contains(text, tail[k].0) {
      var k :| 0 <= k < |tail| && Contains(text, tail[k].0);
      assert tail[k] == table[k + 1];
    }
    if exists k :: 0 <= k < |table| && Contains(text, table[k].0) {
      var k :| 0 <= k < |table| && Contains(text, table[k].0);
      if k > 0 {
        assert tail[k - 1] == table[k];
      }
    }
  }

  /** `re.search(r'(.)\1{2,}', s)`: some character other than a newline
      occurs three times in a row. */
  function HasTriple(s: string): (b: bool)
    ensures b <==> exists i :: TripleAt(s, i)
    decreases |s|
  {
    if |s| < 3 then false
    else
      var b := (s[0] != '\n' && s[1] == s[0] && s[2] == s[0]) || HasTriple(s[1..]);
      TripleShift(s);
      b
  }

  /** `sum(1 for c in text if c.isupper()) / max(len(text), 1)` */
  function UppercaseRatio(text: string): (q: real)
    ensures q == CountUpper(text) as real / (if |text| >= 1 then |text| else 1) as real
    ensures 0.0 <= q <= 1.0
    ensures q == 0.0 <==> forall i :: 0 <= i < |text| ==> !IsUpperChar(text[i])
  {
    var n := if |text| >= 1 then |text| else 1;
    CountUpperZero(text);
    QuotientBounds(CountUpper(text), n);
    CountUpper(text) as real / n as real
  }

  lemma {:induction false} CountUpperZero(s: string)
    ensures CountUpper(s) == 0 <==> forall i :: 0 <= i < |s| ==> !IsUpperChar(s[i])
  {
    if s != [] {
      CountUpperZero(s[..|s| - 1]);
      assert forall i :: 0 <= i < |s| - 1 ==> s[..|s| - 1][i] == s[i];
    }
  }

  /** `extract_features` */
  function ExtractFeatures(text: string): (f: Features)
    ensures f.length == |text|
    ensures f.wordCount == |Words(text)|
    ensures f.exclamationCount == multiset(text)['!']
    ensures f.questionCount == multiset(text)['?']
    ensures f.uppercaseRatio == CountUpper(text) as real / (if |text| >= 1 then |text| else 1) as real
    ensures 0.0 <= f.uppercaseRatio <= 1.0
    ensures f.uppercaseRatio == 0.0 <==> forall i :: 0 <= i < |text| ==> !IsUpperChar(text[i])
    ensures f.hasEmoji <==> exists k :: 0 <= k < |EmojiTable| && Contains(text, EmojiTable[k].0)
    ensures f.repeatedChars <==> exists i :: TripleAt(text, i)
    ensures f.allCaps <==> |text| > 3 && (exists i :: 0 <= i < |text| && IsUpperChar(text[i]))
                           && forall i :: 0 <= i < |text| ==> !IsLowerChar(text[i])
  {
    CountIsMultiplicity(text, '!');
    CountIsMultiplicity(text, '?');
    Features(|text|, |Words(text)|, Count(text, '!'), Count(text, '?'),
             UppercaseRatio(text), HasGlyph(text, EmojiTable),
             HasTriple(text), IsUpperText(text) && |text| > 3)
  }

  /** A run of three at some position. */
  predicate TripleAt(s: string, i: int) {
    0 <= i < |s| - 2 && s[i] != '\n' && s[i + 1] == s[i] && s[i + 2] == s[i]
  }

  /** The runs of `s[1..]` are those of `s` shifted one to the left. */
  lemma TripleShift(s: string)
    requires |s| >= 3
    ensures (exists i :: TripleAt(s, i)) <==> TripleAt(s, 0) || exists i :: TripleAt(s[1..], i)
  {
    var t := s[1..];
    if exists i :: TripleAt(t, i) {
      var i :| TripleAt(t, i);
      assert TripleAt(s, i + 1);
    }
    if exists i :: TripleAt(s, i) {
      var i :| TripleAt(s, i);
      if i > 0 {
        assert TripleAt(t, i - 1);
      }
    }
  }
}
