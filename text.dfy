/** The parts of Python's `str` and `re` behaviour that the preprocessor and the
    analyzer rely on, over `string` (a sequence of Unicode scalar values).

    Whitespace (`str.isspace`, `\s`, `str.split()`, `str.strip()`) is Python's
    exact list. The word class `\w`, the digit class `\d`, `isupper`/`islower`
    and the case mappings `lower()`/`upper()` are exact on U+0000..U+00FF and
    treat every character above U+00FF as uncased, non-word and non-digit. */
module Text {

  // ---------------------------------------------------------------------------
  // Character classes

  /** The characters for which Python's `str.isspace()` holds: U+0009..U+000D,
      U+001C..U+001F, U+0020, U+0085, U+00A0, U+1680, U+2000..U+200A, U+2028,
      U+2029, U+202F, U+205F and U+3000. */
  predicate IsSpace(c: char) {
    ('\t' <= c <= '\r') || ('\U{1C}' <= c <= ' ') || c == '\U{85}' || c == '\U{A0}'
    || c == '\U{1680}' || ('\U{2000}' <= c <= '\U{200A}') || c == '\U{2028}' || c == '\U{2029}'
    || c == '\U{202F}' || c == '\U{205F}' || c == '\U{3000}'
  }

  predicate IsAsciiLetter(c: char) {
    ('a' <= c <= 'z') || ('A' <= c <= 'Z')
  }

  /** `\d`: a decimal digit. */
  predicate IsDigit(c: char) {
    '0' <= c <= '9'
  }

  /** `\w`: an alphanumeric character or the underscore. */
  predicate IsWordChar(c: char) {
    IsAsciiLetter(c) || IsDigit(c) || c == '_'
    || c == '\U{AA}' || c == '\U{B2}' || c == '\U{B3}' || c == '\U{B5}'
    || c == '\U{B9}' || c == '\U{BA}' || ('\U{BC}' <= c <= '\U{BE}')
    || ('\U{C0}' <= c <= '\U{FF}' && c != '\U{D7}' && c != '\U{F7}')
  }

  /** `c.isupper()` */
  predicate IsUpperChar(c: char) {
    ('A' <= c <= 'Z') || ('\U{C0}' <= c <= '\U{DE}' && c != '\U{D7}')
  }

  /** `c.islower()` */
  predicate IsLowerChar(c: char) {
    ('a' <= c <= 'z') || c == '\U{AA}' || c == '\U{B5}' || c == '\U{BA}'
    || ('\U{DF}' <= c <= '\U{FF}' && c != '\U{F7}')
  }

  /** `s.isupper()`: at least one cased character and no lower-case one. */
  predicate IsUpperText(s: string) {
    (exists i :: 0 <= i < |s| && IsUpperChar(s[i]))
    && (forall i :: 0 <= i < |s| ==> !IsLowerChar(s[i]))
  }

  function LowerChar(c: char): (d: char)
    ensures IsUpperChar(c) ==> !IsUpperChar(d)
    ensures !IsUpperChar(c) ==> d == c
    ensures IsSpace(d) <==> IsSpace(c)
  {
    if IsUpperChar(c) then (c as int + 32) as char else c
  }

  /** `s.lower()`, character by character. */
  function Lower(s: string): (r: string)
    ensures |r| == |s|
    ensures forall i :: 0 <= i < |s| ==> r[i] == LowerChar(s[i])
  {
    seq(|s|, i requires 0 <= i < |s| => LowerChar(s[i]))
  }

  /** `c.upper()`; `'ß'.upper()` is the two characters "SS". */
  function UpperChar(c: char): string {
    if 'a' <= c <= 'z' then [(c as int - 32) as char]
    else if c == '\U{B5}' then ['\U{39C}']
    else if c == '\U{DF}' then "SS"
    else if '\U{E0}' <= c <= '\U{FE}' && c != '\U{F7}' then [(c as int - 32) as char]
    else if c == '\U{FF}' then ['\U{178}']
    else [c]
  }

  /** `s.upper()` */
  function Upper(s: string): string {
    if s == [] then [] else UpperChar(s[0]) + Upper(s[1..])
  }

  // ---------------------------------------------------------------------------
  // Substrings, counting and replacement

  /** `h in s` */
  predicate Contains(s: string, h: string)
    decreases |s|
  {
    |s| >= |h| && (s[..|h|] == h || Contains(s[1..], h))
  }

  /** `s.count(c)` for a one-character argument. */
  function Count(s: string, c: char): nat {
    if s == [] then 0 else (if s[0] == c then 1 else 0) + Count(s[1..], c)
  }

  /** `s.replace(g, w)`: the leftmost occurrence is replaced first and the scan
      resumes right after it, so occurrences never overlap. */
  function Replace(s: string, g: string, w: string): string
    requires g != []
    decreases |s|
  {
    if |s| < |g| then s
    else if s[..|g|] == g then w + Replace(s[|g|..], g, w)
    else [s[0]] + Replace(s[1..], g, w)
  }

  // ---------------------------------------------------------------------------
  // Whitespace

  /** The number of whitespace characters `s` starts with. */
  function LeadingSpaces(s: string): (n: nat)
    ensures n <= |s|
    ensures forall k :: 0 <= k < n ==> IsSpace(s[k])
    ensures n == |s| || !IsSpace(s[n])
  {
    if s != [] && IsSpace(s[0]) then 1 + LeadingSpaces(s[1..]) else 0
  }

  /** The number of whitespace characters `s` ends with. */
  function TrailingSpaces(s: string): (n: nat)
    ensures n <= |s|
    ensures forall k :: |s| - n <= k < |s| ==> IsSpace(s[k])
    ensures n == |s| || !IsSpace(s[|s| - n - 1])
  {
    if s != [] && IsSpace(s[|s| - 1]) then 1 + TrailingSpaces(s[..|s| - 1]) else 0
  }

  /** `s.lstrip()` */
  function TrimStart(s: string): (r: string)
    ensures |r| <= |s| && r == s[|s| - |r|..]
    ensures r == [] || !IsSpace(r[0])
    ensures forall k :: 0 <= k < |s| - |r| ==> IsSpace(s[k])
  {
    s[LeadingSpaces(s)..]
  }

  /** `s.rstrip()` */
  function TrimEnd(s: string): (r: string)
    ensures |r| <= |s| && r == s[..|r|]
    ensures r == [] || !IsSpace(r[|r| - 1])
    ensures forall k :: |r| <= k < |s| ==> IsSpace(s[k])
    ensures s != [] && !IsSpace(s[0]) ==> r != []
  {
    s[..|s| - TrailingSpaces(s)]
  }

  /** `s.strip()` */
  function Strip(s: string): string {
    TrimEnd(TrimStart(s))
  }

  /** No leading or trailing whitespace, no two whitespace characters in a row,
      and every whitespace character is the plain space. */
  predicate SingleSpaced(r: string) {
    (r == [] || (!IsSpace(r[0]) && !IsSpace(r[|r| - 1])))
    && (forall i :: 0 <= i < |r| && IsSpace(r[i]) ==> r[i] == ' ')
    && (forall i :: 0 <= i < |r| - 1 ==> !IsSpace(r[i]) || !IsSpace(r[i + 1]))
  }

  /** `re.sub(r'\s+', ' ', s)`: every maximal whitespace run becomes one space. */
  function CollapseSpaces(s: string): (r: string)
    ensures s == [] <==> r == []
    ensures r != [] ==> (IsSpace(r[0]) <==> IsSpace(s[0]))
    ensures forall i :: 0 <= i < |r| && IsSpace(r[i]) ==> r[i] == ' '
    ensures forall i :: 0 <= i < |r| - 1 ==> !IsSpace(r[i]) || !IsSpace(r[i + 1])
    ensures forall c :: c in r ==> c == ' ' || (c in s && !IsSpace(c))
    decreases |s|
  {
    if s == [] then []
    else if IsSpace(s[0]) then
      var rest := TrimStart(s);
      assert rest == [] || !IsSpace(rest[0]);
      " " + CollapseSpaces(rest)
    else [s[0]] + CollapseSpaces(s[1..])
  }

  /** The two inner conditions of `SingleSpaced`, which every substring keeps. */
  predicate SpacesCollapsed(r: string) {
    (forall i :: 0 <= i < |r| && IsSpace(r[i]) ==> r[i] == ' ')
    && (forall i :: 0 <= i < |r| - 1 ==> !IsSpace(r[i]) || !IsSpace(r[i + 1]))
  }

  lemma SubstringCollapsed(c: string, lo: nat, hi: nat)
    requires lo <= hi <= |c|
    requires SpacesCollapsed(c)
    ensures SpacesCollapsed(c[lo..hi])
  {
    var r := c[lo..hi];
    forall i | 0 <= i < |r| ensures r[i] == c[lo + i] { }
  }

  lemma {:induction false} StripKeepsCollapsed(c: string)
    requires SpacesCollapsed(c)
    ensures SingleSpaced(Strip(c))
    ensures forall x :: x in Strip(c) ==> x in c
  {
    StripTrims(c);
    var r, lo := Strip(c), LeadingSpaces(c);
    SubstringCollapsed(c, lo, lo + |r|);
    forall x | x in r ensures x in c {
      var i :| 0 <= i < |r| && r[i] == x;
      assert c[lo + i] == x;
    }
  }

  /** A sequence is single-spaced after its whitespace runs are collapsed and
      its ends are stripped, which is what `re.sub(r'\s+', ' ', s).strip()`
      computes. */
  lemma StripCollapsed(s: string)
    ensures SingleSpaced(Strip(CollapseSpaces(s)))
    ensures forall c :: c in Strip(CollapseSpaces(s)) ==> c == ' ' || (c in s && !IsSpace(c))
  {
    StripKeepsCollapsed(CollapseSpaces(s));
  }

  /** A property of the space and of every character of `s` holds of every
      character of `re.sub(r'\s+', ' ', s).strip()`. */
  lemma StripCollapsedKeeps(s: string, p: char -> bool)
    requires p(' ')
    requires forall k :: 0 <= k < |s| ==> p(s[k])
    ensures forall c :: c in Strip(CollapseSpaces(s)) ==> p(c)
  {
    StripCollapsed(s);
    forall c | c in Strip(CollapseSpaces(s)) ensures p(c) {
      if c != ' ' {
        var i :| 0 <= i < |s| && s[i] == c;
      }
    }
  }

  lemma StripUnchanged(s: string)
    requires s == [] || (!IsSpace(s[0]) && !IsSpace(s[|s| - 1]))
    ensures Strip(s) == s
  {
    assert TrimStart(s) == s;
  }

  /** Every character of `s` is whitespace. */
  predicate Blank(s: string) {
    forall i :: 0 <= i < |s| ==> IsSpace(s[i])
  }

  /** `s.strip() == ""` exactly when `s` is blank. */
  lemma {:induction false} StripEmpty(s: string)
    ensures Strip(s) == [] <==> Blank(s)
  {
    var t := TrimStart(s);
    if t != [] {
      assert s[|s| - |t|] == t[0];
    }
  }

  // ---------------------------------------------------------------------------
  // Splitting on whitespace and joining with single spaces

  /** The number of non-whitespace characters `s` starts with. */
  function TokenLength(s: string): (n: nat)
    ensures n <= |s|
    ensures forall k :: 0 <= k < n ==> !IsSpace(s[k])
    ensures n == |s| || IsSpace(s[n])
  {
    if s == [] || IsSpace(s[0]) then 0 else 1 + TokenLength(s[1..])
  }

  /** The maximal prefix of `s` that holds no whitespace. */
  function Token(s: string): (w: string)
    ensures |w| <= |s|
    ensures forall i :: 0 <= i < |w| ==> !IsSpace(w[i]) && w[i] == s[i]
    ensures |w| == |s| || IsSpace(s[|w|])
    ensures s != [] && !IsSpace(s[0]) ==> w != []
  {
    s[..TokenLength(s)]
  }

  /** A word produced by `split()`: nonempty and without whitespace. */
  predicate IsWord(w: string) {
    w != [] && forall i :: 0 <= i < |w| ==> !IsSpace(w[i])
  }

  /** `s.split()`: the maximal runs of non-whitespace characters, in order. */
  function Words(s: string): (ws: seq<string>)
    ensures forall i :: 0 <= i < |ws| ==> IsWord(ws[i])
    decreases |s|
  {
    var t := TrimStart(s);
    if t == [] then []
    else
      var w := Token(t);
      var rest := Words(t[|w|..]);
      ConsWords(w, rest);
      [w] + rest
  }

  lemma ConsWords(w: string, rest: seq<string>)
    requires w != [] && forall i :: 0 <= i < |w| ==> !IsSpace(w[i])
    requires forall i :: 0 <= i < |rest| ==> IsWord(rest[i])
    ensures forall i :: 0 <= i < |[w] + rest| ==> IsWord(([w] + rest)[i])
  {
    assert IsWord(w);
    forall i | 0 <= i < |[w] + rest|
      ensures IsWord(([w] + rest)[i])
    {
      if i > 0 {
        assert ([w] + rest)[i] == rest[i - 1];
      }
    }
  }

  /** `' '.join(ws)` */
  function Join(ws: seq<string>): string {
    if |ws| == 0 then ""
    else if |ws| == 1 then ws[0]
    else ws[0] + " " + Join(ws[1..])
  }

  lemma TokenOfWord(w: string, x: string)
    requires IsWord(w)
    requires x == [] || IsSpace(x[0])
    ensures Token(w + x) == w
  {
    TokenLengthOfWord(w, x);
    assert (w + x)[..|w|] == w;
  }

  lemma {:induction false} TokenLengthOfWord(w: string, x: string)
    requires forall k :: 0 <= k < |w| ==> !IsSpace(w[k])
    requires x == [] || IsSpace(x[0])
    ensures TokenLength(w + x) == |w|
    decreases |w|
  {
    if w != [] {
      assert (w + x)[1..] == w[1..] + x;
      TokenLengthOfWord(w[1..], x);
    } else {
      assert w + x == x;
    }
  }

  lemma JoinStartsWithWord(ws: seq<string>)
    requires AllWords(ws)
    ensures ws != [] ==> Join(ws) != [] && !IsSpace(Join(ws)[0])
  {
    if |ws| > 1 {
      JoinCons(ws);
      assert Join(ws)[0] == ws[0][0];
    }
  }

  /** Splitting a space-joined list of words gives the words back. */
  lemma WordsOfJoin(ws: seq<string>)
    requires forall i :: 0 <= i < |ws| ==> IsWord(ws[i])
    ensures Words(Join(ws)) == ws
  {
    AllWordsOf(ws);
    WordsOfJoinAll(ws);
  }

  /** Every element is a word, stated element by element from the front. */
  predicate AllWords(ws: seq<string>) {
    ws == [] || (IsWord(ws[0]) && AllWords(ws[1..]))
  }

  lemma {:induction false} AllWordsOf(ws: seq<string>)
    requires forall i :: 0 <= i < |ws| ==> IsWord(ws[i])
    ensures AllWords(ws)
  {
    if ws != [] {
      assert forall i :: 0 <= i < |ws[1..]| ==> ws[1..][i] == ws[i + 1];
      AllWordsOf(ws[1..]);
    }
  }

  lemma {:induction false} WordsOfJoinAll(ws: seq<string>)
    requires AllWords(ws)
    ensures Words(Join(ws)) == ws
    decreases |ws|
  {
    if |ws| == 1 {
      WordsOfWord(ws[0]);
      assert ws == [ws[0]];
    } else if |ws| > 1 {
      WordsOfJoinAll(ws[1..]);
      WordsOfJoinStep(ws);
    }
  }

  /** The step of `WordsOfJoinAll`: one more word in front. */
  lemma WordsOfJoinStep(ws: seq<string>)
    requires |ws| > 1 && AllWords(ws)
    requires Words(Join(ws[1..])) == ws[1..]
    ensures Words(Join(ws)) == ws
  {
    SplitFirst(ws);
    JoinCons(ws);
    JoinStartsWithWord(ws[1..]);
    WordsCons(ws[0], Join(ws[1..]));
  }

  lemma SplitFirst<T>(s: seq<T>)
    requires s != []
    ensures s == [s[0]] + s[1..]
  {
  }

  /** A single word splits into itself. */
  lemma WordsOfWord(w: string)
    requires IsWord(w)
    ensures Words(w) == [w]
  {
    assert LeadingSpaces(w) == 0;
    assert TrimStart(w) == w;
    TokenLengthWhole(w);
    assert Token(w) == w;
    assert w[|w|..] == [];
  }

  lemma {:induction false} TokenLengthWhole(w: string)
    requires forall k :: 0 <= k < |w| ==> !IsSpace(w[k])
    ensures TokenLength(w) == |w|
    decreases |w|
  {
    if w != [] {
      TokenLengthWhole(w[1..]);
    }
  }

  /** A word, a space and a nonempty single-spaced text are single-spaced. */
  lemma SpacedCons(w: string, j: string)
    requires IsWord(w)
    requires j != [] && SingleSpaced(j)
    ensures SingleSpaced(w + " " + j)
  {
    var r := w + " " + j;
    assert forall i :: 0 <= i < |w| ==> r[i] == w[i];
    assert r[|w|] == ' ';
    assert forall i :: |w| < i < |r| ==> r[i] == j[i - |w| - 1];
  }

  /** Joining words with one space gives single-spaced text. */
  lemma {:induction false} JoinSpaced(ws: seq<string>)
    requires AllWords(ws)
    ensures SingleSpaced(Join(ws))
    decreases |ws|
  {
    if |ws| == 1 {
      assert Join(ws) == ws[0];
    } else if |ws| > 1 {
      JoinCons(ws);
      JoinSpaced(ws[1..]);
      JoinStartsWithWord(ws[1..]);
      SpacedCons(ws[0], Join(ws[1..]));
    }
  }

  lemma JoinCons(ws: seq<string>)
    requires |ws| > 1
    ensures Join(ws) == ws[0] + " " + Join(ws[1..])
  {
  }

  /** A word, a space and text that starts with no whitespace split into the
      word followed by the words of the text. */
  lemma WordsCons(w: string, rest: string)
    requires IsWord(w)
    requires rest == [] || !IsSpace(rest[0])
    ensures Words(w + " " + rest) == [w] + Words(rest)
  {
    assert w + " " + rest == w + (" " + rest);
    WordsOfWordStart(w, " " + rest);
    WordsAfterSpace(rest);
  }

  /** A word followed by whitespace or nothing is the first word. */
  lemma WordsOfWordStart(w: string, tail: string)
    requires IsWord(w)
    requires tail == [] || IsSpace(tail[0])
    ensures Words(w + tail) == [w] + Words(tail)
  {
    var s := w + tail;
    assert LeadingSpaces(s) == 0 by {
      assert s[0] == w[0];
    }
    assert TrimStart(s) == s;
    TokenOfWord(w, tail);
    assert s[|w|..] == tail;
  }

  /** One space before text that starts with no whitespace does not change
      its words. */
  lemma WordsAfterSpace(rest: string)
    requires rest == [] || !IsSpace(rest[0])
    ensures Words(" " + rest) == Words(rest)
  {
    var tail := " " + rest;
    assert tail[1..] == rest;
    assert LeadingSpaces(rest) == 0;
    assert LeadingSpaces(tail) == 1;
    assert TrimStart(tail) == rest;
    assert TrimStart(rest) == rest;
  }

  // ---------------------------------------------------------------------------
  // Facts about substrings and replacement

  /** A one-character substring is a member. */
  lemma {:induction false} ContainsChar(s: string, c: char)
    ensures Contains(s, [c]) <==> c in s
    decreases |s|
  {
    if s != [] {
      ContainsChar(s[1..], c);
      assert s == [s[0]] + s[1..];
    }
  }

  /** A prefix `w` that shares no character with `h` cannot create an
      occurrence of `h`. */
  lemma {:induction false} NoOccurrenceAfterPrefix(w: string, r: string, h: string)
    requires h != []
    requires forall c :: c in h ==> c !in w
    requires !Contains(r, h)
    ensures !Contains(w + r, h)
    decreases |w|
  {
    if w != [] {
      var s := w + r;
      assert |s| < |h| || s[..|h|] != h by {
        assert h[0] in h && w[0] in w;
        assert s[0] == w[0];
      }
      assert s[1..] == w[1..] + r;
      NoOccurrenceAfterPrefix(w[1..], r, h);
    } else {
      assert w + r == r;
    }
  }

  lemma {:induction false} NoOccurrenceInSuffix(s: string, k: nat, h: string)
    requires k <= |s|
    requires !Contains(s, h)
    ensures !Contains(s[k..], h)
    decreases k
  {
    if k > 0 {
      assert s[k..] == s[1..][k - 1..];
      NoOccurrenceInSuffix(s[1..], k - 1, h);
    }
  }

  /** Up to the first replacement, `Replace` copies its input. */
  lemma {:induction false} ReplaceCopiesPrefix(u: string, g: string, w: string, m: nat)
    requires g != [] && w != []
    requires m <= |Replace(u, g, w)|
    requires forall j :: 0 <= j < m ==> Replace(u, g, w)[j] != w[0]
    ensures m <= |u| && Replace(u, g, w)[..m] == u[..m]
    decreases |u|
  {
    var r := Replace(u, g, w);
    if |u| < |g| {
    } else if u[..|g|] == g {
      assert r[0] == w[0];
    } else if m > 0 {
      var r' := Replace(u[1..], g, w);
      assert r == [u[0]] + r';
      forall j | 0 <= j < m - 1 ensures r'[j] != w[0] {
        assert r'[j] == r[j + 1];
      }
      ReplaceCopiesPrefix(u[1..], g, w, m - 1);
      assert r[..m] == [u[0]] + r'[..m - 1];
      assert u[..m] == [u[0]] + u[1..][..m - 1];
    }
  }

  /** If the output of `Replace` starts with `h`, which shares no character
      with `w`, and no replacement happens at the start, the input starts with
      `h` too. */
  lemma ReplaceStartsWith(u: string, g: string, w: string, h: string)
    requires g != [] && w != [] && h != []
    requires forall c :: c in h ==> c !in w
    requires |u| >= |g| && u[..|g|] != g
    requires |Replace(u, g, w)| >= |h| && Replace(u, g, w)[..|h|] == h
    ensures |u| >= |h| && u[..|h|] == h
  {
    var r, r' := Replace(u, g, w), Replace(u[1..], g, w);
    assert r == [u[0]] + r';
    var m := |h| - 1;
    forall j | 0 <= j < m ensures r'[j] != w[0] {
      assert r'[j] == r[j + 1] == h[j + 1];
      assert h[j + 1] in h && w[0] in w;
    }
    ReplaceCopiesPrefix(u[1..], g, w, m);
    assert h == [u[0]] + r'[..m];
    assert u[..|h|] == [u[0]] + u[1..][..m];
  }

  /** When `h` shares no character with a nonempty replacement text `w`,
      `Replace(u, g, w)` holds `h` only where `u` did, and never `g` itself
      when `g` shares no character with `w`. */
  lemma {:induction false} ReplaceNoOccurrence(u: string, g: string, w: string, h: string)
    requires g != [] && w != [] && h != []
    requires forall c :: c in h ==> c !in w
    requires h == g || !Contains(u, h)
    ensures !Contains(Replace(u, g, w), h)
    decreases |u|
  {
    var r := Replace(u, g, w);
    if |u| < |g| {
      assert r == u;
    } else if u[..|g|] == g {
      var r' := Replace(u[|g|..], g, w);
      assert r == w + r';
      if h != g {
        NoOccurrenceInSuffix(u, |g|, h);
      }
      ReplaceNoOccurrence(u[|g|..], g, w, h);
      NoOccurrenceAfterPrefix(w, r', h);
    } else {
      var r' := Replace(u[1..], g, w);
      assert r[1..] == r';
      if h != g {
        NoOccurrenceInSuffix(u, 1, h);
      }
      ReplaceNoOccurrence(u[1..], g, w, h);
      if |r| >= |h| && r[..|h|] == h {
        ReplaceStartsWith(u, g, w, h);
        assert false;
      }
    }
  }

  /** Every character that `Replace` outputs is copied from its input or from
      the replacement text. */
  lemma {:induction false} ReplaceChars(u: string, g: string, w: string)
    requires g != []
    ensures forall c :: c in Replace(u, g, w) ==> c in u || c in w
    decreases |u|
  {
    if |u| >= |g| {
      if u[..|g|] == g {
        ReplaceChars(u[|g|..], g, w);
        forall c | c in u[|g|..] ensures c in u {
          var i :| 0 <= i < |u[|g|..]| && u[|g|..][i] == c;
          assert u[|g| + i] == c;
        }
      } else {
        ReplaceChars(u[1..], g, w);
        assert u == [u[0]] + u[1..];
      }
    }
  }

  /** `s.count(c)` is the multiplicity of `c` in `s`. */
  lemma {:induction false} CountIsMultiplicity(s: string, c: char)
    ensures Count(s, c) == multiset(s)[c]
  {
    if s != [] {
      CountIsMultiplicity(s[1..], c);
      assert s == [s[0]] + s[1..];
      assert multiset(s) == multiset([s[0]]) + multiset(s[1..]);
    }
  }

  lemma {:induction false} CountBound(s: string, c: char)
    ensures Count(s, c) <= |s|
  {
    if s != [] {
      CountBound(s[1..], c);
    }
  }

  /** A property of every character of `s` holds of every character of the
      words of `s.split()`. */
  lemma {:induction false} WordsChars(s: string, p: char -> bool)
    requires forall k :: 0 <= k < |s| ==> p(s[k])
    ensures forall i, c :: 0 <= i < |Words(s)| && c in Words(s)[i] ==> p(c)
    decreases |s|
  {
    var t := TrimStart(s);
    if t != [] {
      var w := Token(t);
      var rest := t[|w|..];
      assert forall k :: 0 <= k < |t| ==> p(t[k]) by {
        forall k | 0 <= k < |t| ensures p(t[k]) {
          assert t[k] == s[|s| - |t| + k];
        }
      }
      assert forall k :: 0 <= k < |rest| ==> p(rest[k]) by {
        forall k | 0 <= k < |rest| ensures p(rest[k]) {
          assert rest[k] == t[|w| + k];
        }
      }
      WordsChars(rest, p);
      assert forall c :: c in w ==> p(c) by {
        forall c | c in w ensures p(c) {
          var j :| 0 <= j < |w| && w[j] == c;
          assert t[j] == c;
        }
      }
      ConsChars(w, Words(rest), p);
      assert Words(s) == [w] + Words(rest);
    }
  }

  lemma ConsChars(w: string, ws: seq<string>, p: char -> bool)
    requires forall c :: c in w ==> p(c)
    requires forall i, c :: 0 <= i < |ws| && c in ws[i] ==> p(c)
    ensures forall i, c :: 0 <= i < |[w] + ws| && c in ([w] + ws)[i] ==> p(c)
  {
    forall i, c | 0 <= i < |[w] + ws| && c in ([w] + ws)[i] ensures p(c) {
      if i > 0 {
        assert ([w] + ws)[i] == ws[i - 1];
      }
    }
  }

  /** Every character of `' '.join(ws)` is a space or a character of one of
      the words. */
  lemma {:induction false} JoinChars(ws: seq<string>, p: char -> bool)
    requires forall i, c :: 0 <= i < |ws| && c in ws[i] ==> p(c)
    ensures forall c :: c in Join(ws) ==> c == ' ' || p(c)
    decreases |ws|
  {
    if |ws| > 1 {
      JoinChars(ws[1..], p);
      assert forall c :: c in ws[0] ==> p(c);
      assert Join(ws) == ws[0] + " " + Join(ws[1..]);
    } else if |ws| == 1 {
      assert forall c :: c in ws[0] ==> p(c);
    }
  }
  // ---------------------------------------------------------------------------
  // What a rewrite keeps

  /** `r` is `s` with some characters deleted and the others kept in order. */
  predicate Subsequence(r: string, s: string)
    decreases |s|
  {
    r == [] || (s != [] && ((r[0] == s[0] && Subsequence(r[1..], s[1..])) || Subsequence(r, s[1..])))
  }

  /** Deleting a prefix keeps a subsequence a subsequence. */
  lemma {:induction false} SubsequenceDrop(r: string, s: string, k: nat)
    requires k <= |s|
    requires Subsequence(r, s[k..])
    ensures Subsequence(r, s)
    decreases k
  {
    if k > 0 {
      assert s[1..][k - 1..] == s[k..];
      SubsequenceDrop(r, s[1..], k - 1);
    }
  }

  /** A subsequence of a subsequence is a subsequence. */
  lemma {:induction false} SubsequenceTrans(a: string, b: string, c: string)
    requires Subsequence(a, b) && Subsequence(b, c)
    ensures Subsequence(a, c)
    decreases |c|
  {
    if a != [] {
      if Subsequence(b, c[1..]) {
        SubsequenceTrans(a, b, c[1..]);
      } else if a[0] == b[0] && Subsequence(a[1..], b[1..]) {
        SubsequenceTrans(a[1..], b[1..], c[1..]);
      } else {
        SubsequenceTrans(a, b[1..], c[1..]);
      }
    }
  }

  /** A character kept on both sides extends a subsequence. */
  lemma SubsequenceKeep(c: char, r: string, s: string)
    requires Subsequence(r, s)
    ensures Subsequence([c] + r, [c] + s)
  {
    assert ([c] + r)[1..] == r;
    assert ([c] + s)[1..] == s;
  }

  /** The characters of `s` for which `p` holds, in order. */
  function Filter(s: string, p: char -> bool): (r: string)
    ensures |r| <= |s|
    ensures forall i :: 0 <= i < |r| ==> p(r[i])
  {
    if s == [] then [] else (if p(s[0]) then [s[0]] else []) + Filter(s[1..], p)
  }

  /** A prefix in which `p` holds nowhere adds nothing to the filter. */
  lemma {:induction false} FilterSkip(s: string, p: char -> bool, n: nat)
    requires n <= |s|
    requires forall k :: 0 <= k < n ==> !p(s[k])
    ensures Filter(s, p) == Filter(s[n..], p)
    decreases n
  {
    if n > 0 {
      assert s[1..][n - 1..] == s[n..];
      FilterSkip(s[1..], p, n - 1);
    }
  }

  /** The filter of a character in front of a text. */
  lemma FilterCons(c: char, s: string, p: char -> bool)
    ensures Filter([c] + s, p) == (if p(c) then [c] else []) + Filter(s, p)
  {
    assert ([c] + s)[1..] == s;
  }

  /** Filtering distributes over concatenation. */
  lemma {:induction false} FilterAppend(a: string, b: string, p: char -> bool)
    ensures Filter(a + b, p) == Filter(a, p) + Filter(b, p)
    decreases |a|
  {
    if a != [] {
      var head := if p(a[0]) then [a[0]] else [];
      assert (a + b)[0] == a[0] && (a + b)[1..] == a[1..] + b;
      FilterAppend(a[1..], b, p);
      assert Filter(a + b, p) == head + (Filter(a[1..], p) + Filter(b, p));
    } else {
      assert a + b == b;
    }
  }

  /** A filter that only keeps what an earlier filter kept sees no
      difference between the text and that earlier filter's result. */
  lemma {:induction false} FilterFilter(s: string, q: char -> bool, p: char -> bool)
    requires forall c :: p(c) ==> q(c)
    ensures Filter(Filter(s, q), p) == Filter(s, p)
    decreases |s|
  {
    if s != [] {
      FilterFilter(s[1..], q, p);
      var head := if q(s[0]) then [s[0]] else [];
      FilterAppend(head, Filter(s[1..], q), p);
      if q(s[0]) {
        FilterCons(s[0], [], p);
        assert [s[0]] + [] == [s[0]];
      }
    }
  }

  /** Two filters that agree on every character of the text agree on it. */
  lemma {:induction false} FilterAgree(s: string, p: char -> bool, q: char -> bool)
    requires forall k :: 0 <= k < |s| ==> p(s[k]) == q(s[k])
    ensures Filter(s, p) == Filter(s, q)
    decreases |s|
  {
    if s != [] {
      assert forall k :: 0 <= k < |s[1..]| ==> s[1..][k] == s[k + 1];
      FilterAgree(s[1..], p, q);
    }
  }

  /** A blank text has nothing a filter of non-whitespace keeps. */
  lemma FilterBlank(x: string, p: char -> bool)
    requires forall c :: p(c) ==> !IsSpace(c)
    requires Blank(x)
    ensures Filter(x, p) == []
  {
    FilterSkip(x, p, |x|);
    assert x[|x|..] == [];
  }

  /** Collapsing whitespace keeps every non-whitespace character, in order. */
  lemma {:induction false} FilterCollapse(s: string, p: char -> bool)
    requires forall c :: p(c) ==> !IsSpace(c)
    ensures Filter(CollapseSpaces(s), p) == Filter(s, p)
    decreases |s|
  {
    if s != [] {
      if IsSpace(s[0]) {
        var rest := TrimStart(s);
        FilterCollapse(rest, p);
        FilterCons(' ', CollapseSpaces(rest), p);
        FilterSkip(s, p, LeadingSpaces(s));
      } else {
        FilterCollapse(s[1..], p);
        FilterCons(s[0], CollapseSpaces(s[1..]), p);
        FilterCons(s[0], s[1..], p);
        assert [s[0]] + s[1..] == s;
      }
    }
  }

  /** Blank ends add nothing to a filter of non-whitespace. */
  lemma FilterFramed(front: string, mid: string, back: string, p: char -> bool)
    requires forall c :: p(c) ==> !IsSpace(c)
    requires Blank(front) && Blank(back)
    ensures Filter(front + mid + back, p) == Filter(mid, p)
  {
    FilterAppend(front + mid, back, p);
    FilterAppend(front, mid, p);
    FilterBlank(front, p);
    FilterBlank(back, p);
  }

  /** Stripping keeps every non-whitespace character, in order. */
  lemma FilterStrip(s: string, p: char -> bool)
    requires forall c :: p(c) ==> !IsSpace(c)
    ensures Filter(Strip(s), p) == Filter(s, p)
  {
    StripTrims(s);
    var n, m := LeadingSpaces(s), |Strip(s)|;
    assert s == s[..n] + Strip(s) + s[n + m..];
    FilterFramed(s[..n], Strip(s), s[n + m..], p);
  }

  /** `CollapseSpaces` of a text that starts with a run of non-whitespace
      copies that run. */
  lemma {:induction false} CollapseWord(y: string, n: nat)
    requires n <= |y|
    requires forall k :: 0 <= k < n ==> !IsSpace(y[k])
    ensures CollapseSpaces(y) == y[..n] + CollapseSpaces(y[n..])
    decreases n
  {
    if n == 0 {
      assert y[..n] + CollapseSpaces(y[n..]) == CollapseSpaces(y);
    } else {
      var z := y[1..];
      assert z[n - 1..] == y[n..];
      CollapseWord(z, n - 1);
      CollapseFront(y);
      JoinPrefix(y, n, CollapseSpaces(y[n..]));
    }
  }

  lemma JoinPrefix(y: string, n: nat, x: string)
    requires 0 < n <= |y|
    ensures [y[0]] + (y[1..][..n - 1] + x) == y[..n] + x
  {
    assert y[..n] == [y[0]] + y[1..][..n - 1];
  }

  lemma CollapseFront(y: string)
    requires y != [] && !IsSpace(y[0])
    ensures CollapseSpaces(y) == [y[0]] + CollapseSpaces(y[1..])
  {
  }

  /** Collapsing whitespace runs does not change what `split()` returns. */
  lemma {:induction false} CollapseKeepsWords(s: string)
    ensures Words(CollapseSpaces(s)) == Words(s)
    decreases |s|
  {
    if s != [] {
      if IsSpace(s[0]) {
        CollapseKeepsWords(TrimStart(s));
        CollapseKeepsWordsSpace(s);
      } else {
        var w, x := WordSplit(s);
        CollapseKeepsWords(x);
        CollapseKeepsWordsWord(w, x);
      }
    }
  }

  /** Text that starts with a word is that word followed by text that is
      empty or starts with whitespace. */
  lemma WordSplit(s: string) returns (w: string, x: string)
    requires s != [] && !IsSpace(s[0])
    ensures IsWord(w) && (x == [] || IsSpace(x[0]))
    ensures s == w + x && |x| < |s|
  {
    var n := TokenLength(s);
    w, x := s[..n], s[n..];
    assert s == w + x;
  }

  /** The step of `CollapseKeepsWords` for text that starts with whitespace. */
  lemma {:induction false} CollapseKeepsWordsSpace(s: string)
    requires s != [] && IsSpace(s[0])
    requires Words(CollapseSpaces(TrimStart(s))) == Words(TrimStart(s))
    ensures Words(CollapseSpaces(s)) == Words(s)
  {
    var rest := TrimStart(s);
    WordsAfterSpace(CollapseSpaces(rest));
    assert LeadingSpaces(rest) == 0;
    assert TrimStart(rest) == rest;
  }

  /** The step of `CollapseKeepsWords` for text that starts with a word. */
  lemma {:induction false} CollapseKeepsWordsWord(w: string, x: string)
    requires IsWord(w) && (x == [] || IsSpace(x[0]))
    requires Words(CollapseSpaces(x)) == Words(x)
    ensures Words(CollapseSpaces(w + x)) == Words(w + x)
  {
    var cx := CollapseSpaces(x);
    assert cx == [] || IsSpace(cx[0]);
    CollapsedAfterWord(w, x);
    WordsOfWordStart(w, cx);
    WordsOfWordStart(w, x);
  }

  lemma CollapsedAfterWord(w: string, x: string)
    requires IsWord(w)
    ensures CollapseSpaces(w + x) == w + CollapseSpaces(x)
  {
    var s := w + x;
    assert s[..|w|] == w && s[|w|..] == x;
    CollapseWord(s, |w|);
  }

  /** Leading whitespace does not change what `split()` returns. */
  lemma WordsTrimStart(u: string)
    ensures Words(u) == Words(TrimStart(u))
  {
    var t := TrimStart(u);
    assert LeadingSpaces(t) == 0;
    assert TrimStart(t) == t;
  }

  /** A blank text has no words. */
  lemma BlankWords(x: string)
    requires Blank(x)
    ensures Words(x) == []
  {
  }

  /** Text in front of whitespace keeps its leading whitespace. */
  lemma {:induction false} LeadingOf(u: string, sp: string)
    requires LeadingSpaces(u) < |u|
    ensures LeadingSpaces(u + sp) == LeadingSpaces(u)
    decreases |u|
  {
    if IsSpace(u[0]) {
      assert (u + sp)[1..] == u[1..] + sp;
      LeadingOf(u[1..], sp);
    }
  }

  /** What follows the first word of `u`. */
  function AfterFirstWord(u: string): (x: string)
    requires LeadingSpaces(u) < |u|
    ensures |x| < |u|
  {
    var t := u[LeadingSpaces(u)..];
    assert t[0] == u[LeadingSpaces(u)];
    t[|Token(t)|..]
  }

  /** Trailing whitespace does not change what `split()` returns. */
  lemma {:induction false} WordsTrailing(u: string, sp: string)
    requires Blank(sp)
    ensures Words(u + sp) == Words(u)
    decreases |u|
  {
    if LeadingSpaces(u) == |u| {
      TrailingBlank(u, sp);
    } else {
      WordsTrailing(AfterFirstWord(u), sp);
      TrailingStep(u, sp);
    }
  }

  lemma TrailingBlank(u: string, sp: string)
    requires Blank(sp) && LeadingSpaces(u) == |u|
    ensures Words(u + sp) == Words(u)
  {
    assert Blank(u + sp) by {
      forall k | 0 <= k < |u + sp| ensures IsSpace((u + sp)[k]) {
        if k >= |u| {
          assert (u + sp)[k] == sp[k - |u|];
        }
      }
    }
    BlankWords(u + sp);
    BlankWords(u);
  }

  lemma TrailingStep(u: string, sp: string)
    requires Blank(sp) && LeadingSpaces(u) < |u|
    requires Words(AfterFirstWord(u) + sp) == Words(AfterFirstWord(u))
    ensures Words(u + sp) == Words(u)
  {
    TrimStartPadded(u, sp);
    WordsTrimStart(u);
    WordsTrimStart(u + sp);
    PaddedWords(TrimStart(u), sp);
  }

  lemma TrimStartPadded(u: string, sp: string)
    requires LeadingSpaces(u) < |u|
    ensures TrimStart(u + sp) == TrimStart(u) + sp
  {
    var n := LeadingSpaces(u);
    LeadingOf(u, sp);
    SliceOfPadded(u, sp, n);
  }

  lemma SliceOfPadded(u: string, sp: string, n: nat)
    requires n <= |u|
    ensures (u + sp)[n..] == u[n..] + sp
  {
  }

  lemma PaddedWords(t: string, sp: string)
    requires t != [] && !IsSpace(t[0]) && Blank(sp)
    requires Words(t[|Token(t)|..] + sp) == Words(t[|Token(t)|..])
    ensures Words(t + sp) == Words(t)
  {
    WordsFront(t, sp);
    WordsFrontAlone(t);
  }

  lemma WordsFrontAlone(t: string)
    requires t != [] && !IsSpace(t[0])
    ensures Words(t) == [Token(t)] + Words(t[|Token(t)|..])
  {
    var rest := t[|Token(t)|..];
    WordsFront(t, []);
    assert t + [] == t;
    assert rest + [] == rest;
  }

  lemma Associative(a: string, b: string, c: string)
    ensures (a + b) + c == a + (b + c)
  {
  }

  /** The first word of a text that starts with it, and what follows. */
  lemma WordsFront(t: string, y: string)
    requires t != [] && !IsSpace(t[0])
    requires y == [] || IsSpace(y[0])
    ensures Words(t + y) == [Token(t)] + Words(t[|Token(t)|..] + y)
  {
    FrontParts(t, y);
    WordsOfWordStart(Token(t), t[|Token(t)|..] + y);
  }

  lemma FrontParts(t: string, y: string)
    requires t != [] && !IsSpace(t[0])
    requires y == [] || IsSpace(y[0])
    ensures IsWord(Token(t))
    ensures t + y == Token(t) + (t[|Token(t)|..] + y)
    ensures t[|Token(t)|..] + y == [] || IsSpace((t[|Token(t)|..] + y)[0])
  {
    var w := Token(t);
    var x := t[|w|..];
    assert t == w + x;
    Associative(w, x, y);
    if x == [] {
      assert x + y == y;
    }
  }

  /** `s.strip()` has the words of `s`. */
  lemma WordsStrip(x: string)
    ensures Words(Strip(x)) == Words(x)
  {
    var t := TrimStart(x);
    var r := TrimEnd(t);
    assert t == r + t[|r|..];
    assert Blank(t[|r|..]) by {
      forall k | 0 <= k < |t[|r|..]| ensures IsSpace(t[|r|..][k]) {
        assert t[|r|..][k] == t[|r| + k];
      }
    }
    WordsTrailing(r, t[|r|..]);
    WordsTrimStart(x);
  }

  // ---------------------------------------------------------------------------
  // Reference definitions of the string primitives

  /** `h` occurs in `s` at position `i`. */
  predicate OccursAt(s: string, h: string, i: int) {
    0 <= i <= |s| - |h| && s[i..i + |h|] == h
  }

  /** `h in s` holds exactly when `h` occurs at some position of `s`. */
  lemma {:induction false} ContainsIff(s: string, h: string)
    ensures Contains(s, h) <==> exists i :: OccursAt(s, h, i)
    decreases |s|
  {
    if |s| >= |h| {
      assert s[0..0 + |h|] == s[..|h|];
      if s[..|h|] == h {
        assert OccursAt(s, h, 0);
      } else {
        ContainsIff(s[1..], h);
        if Contains(s[1..], h) {
          var j :| OccursAt(s[1..], h, j);
          assert s[j + 1..j + 1 + |h|] == s[1..][j..j + |h|];
          assert OccursAt(s, h, j + 1);
        }
        if exists i :: OccursAt(s, h, i) {
          var i :| OccursAt(s, h, i);
          assert s[1..][i - 1..i - 1 + |h|] == s[i..i + |h|];
          assert OccursAt(s[1..], h, i - 1);
        }
      }
    } else {
      assert forall i :: !OccursAt(s, h, i);
    }
  }

  /** `s.replace(g, w)` leaves a text without an occurrence of `g` as it is. */
  lemma {:induction false} ReplaceAbsent(s: string, g: string, w: string)
    requires g != []
    requires !Contains(s, g)
    ensures Replace(s, g, w) == s
    decreases |s|
  {
    if |s| >= |g| {
      ReplaceAbsent(s[1..], g, w);
      assert s == [s[0]] + s[1..];
    }
  }

  /** `s.strip()` is what lies between the leading and the trailing
      whitespace of `s`: only whitespace is cut off, on either side, and what
      remains starts and ends with no whitespace. */
  lemma {:induction false} StripTrims(s: string)
    ensures LeadingSpaces(s) + |Strip(s)| <= |s|
    ensures Strip(s) == s[LeadingSpaces(s)..LeadingSpaces(s) + |Strip(s)|]
    ensures Strip(s) == [] || (!IsSpace(Strip(s)[0]) && !IsSpace(Strip(s)[|Strip(s)| - 1]))
    ensures Blank(s[..LeadingSpaces(s)]) && Blank(s[LeadingSpaces(s) + |Strip(s)|..])
  {
    StripStart(s);
    StripEnd(s);
  }

  lemma {:induction false} StripStart(s: string)
    ensures LeadingSpaces(s) + |Strip(s)| <= |s|
    ensures Strip(s) == s[LeadingSpaces(s)..LeadingSpaces(s) + |Strip(s)|]
    ensures Blank(s[..LeadingSpaces(s)])
  {
    var n := LeadingSpaces(s);
    StripIs(s);
    SliceOfSuffix(s, n, |TrimEnd(s[n..])|);
    BlankPrefix(s, n);
  }

  /** `s.strip()` is `s.rstrip()` of what follows the leading whitespace. */
  lemma StripIs(s: string)
    ensures Strip(s) == TrimEnd(s[LeadingSpaces(s)..])
  {
  }

  lemma SliceOfSuffix(s: string, n: nat, m: nat)
    requires n + m <= |s|
    ensures s[n..][..m] == s[n..n + m]
  {
  }

  lemma BlankPrefix(s: string, n: nat)
    requires n <= |s| && forall k :: 0 <= k < n ==> IsSpace(s[k])
    ensures Blank(s[..n])
  {
    assert forall k :: 0 <= k < n ==> s[..n][k] == s[k];
  }

  lemma {:induction false} StripEnd(s: string)
    ensures Strip(s) == [] || (!IsSpace(Strip(s)[0]) && !IsSpace(Strip(s)[|Strip(s)| - 1]))
    ensures Blank(s[LeadingSpaces(s) + |Strip(s)|..])
  {
    var n := LeadingSpaces(s);
    StripIs(s);
    TrimmedEnds(s, n);
  }

  lemma {:induction false} TrimmedEnds(s: string, n: nat)
    requires n <= |s| && (n == |s| || !IsSpace(s[n]))
    ensures TrimEnd(s[n..]) == [] || (!IsSpace(TrimEnd(s[n..])[0]) && !IsSpace(TrimEnd(s[n..])[|TrimEnd(s[n..])| - 1]))
    ensures Blank(s[n + |TrimEnd(s[n..])|..])
  {
    var t := s[n..];
    TrimEndOf(t);
    SuffixOfSuffix(s, n, |TrimEnd(t)|);
  }

  lemma SuffixOfSuffix(s: string, n: nat, m: nat)
    requires n + m <= |s|
    ensures s[n + m..] == s[n..][m..]
  {
  }

  /** `s.rstrip()` cuts only whitespace off the end. */
  lemma {:induction false} TrimEndOf(t: string)
    ensures Blank(t[|TrimEnd(t)|..])
    ensures TrimEnd(t) != [] ==> TrimEnd(t)[0] == t[0]
  {
    var r := TrimEnd(t);
    var u := t[|r|..];
    assert forall k :: 0 <= k < |u| ==> u[k] == t[|r| + k];
  }

  /** On ASCII text `s.upper()` maps `a`..`z` to `A`..`Z` one for one and keeps
      every other character. */
  lemma {:induction false} UpperAscii(s: string)
    requires forall i :: 0 <= i < |s| ==> s[i] <= '\U{7F}'
    ensures |Upper(s)| == |s|
    ensures forall i :: 0 <= i < |s| ==>
      Upper(s)[i] == if 'a' <= s[i] <= 'z' then (s[i] as int - 32) as char else s[i]
    decreases |s|
  {
    if s != [] {
      UpperAscii(s[1..]);
      assert |UpperChar(s[0])| == 1;
      assert Upper(s) == UpperChar(s[0]) + Upper(s[1..]);
    }
  }
}
