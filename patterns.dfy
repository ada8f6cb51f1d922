/** The `re.sub` rewrites of the text preprocessor. Each is a scanner that, like
    `re.sub`, tries its pattern at the current position, replaces a match and
    continues after it, and otherwise copies one character and moves on. Every
    pattern here matches at least one character, so no empty match arises. */
module Patterns {
  import opened Wrappers
  import opened Text

  /** The length of the longest prefix of `s` whose characters all satisfy
      `p`: what a greedy `[...]+` or `\w+` consumes. */
  function Run(s: string, p: char -> bool): (n: nat)
    ensures n <= |s|
    ensures forall k :: 0 <= k < n ==> p(s[k])
    ensures n == |s| || !p(s[n])
  {
    if s != [] && p(s[0]) then 1 + Run(s[1..], p) else 0
  }

  predicate StartsWith(s: string, prefix: string) {
    |prefix| <= |s| && s[..|prefix|] == prefix
  }

  // ---------------------------------------------------------------------------
  // URLs: http[s]?://(?:[a-zA-Z]|[0-9]|[$-_@.&+]|[!*\\(\\),]|(?:%[0-9a-fA-F][0-9a-fA-F]))+

  /** A character the URL pattern accepts after the scheme. The range `$-_`
      (U+0024..U+005F) already holds the digits, the upper-case letters and
      `@ . & + * \ ( ) , %`, so the `%XX` alternative adds nothing and the
      class is that range, the lower-case letters and `!`. */
  predicate IsUrlChar(c: char) {
    ('$' <= c <= '_') || ('a' <= c <= 'z') || c == '!'
  }

  /** `https://` followed by a URL character. */
  predicate HasSecureUrl(s: string) {
    StartsWith(s, "https://") && |s| > 8 && IsUrlChar(s[8])
  }

  /** `http://` followed by a URL character. */
  predicate HasPlainUrl(s: string) {
    StartsWith(s, "http://") && |s| > 7 && IsUrlChar(s[7])
  }

  /** The URL pattern matches at the start of `s`. With `[s]?` tried first,
      `https://` is taken when a URL character follows it; otherwise only
      `http://` can match, since `s` is not `:`. */
  predicate HasUrl(s: string) {
    HasSecureUrl(s) || HasPlainUrl(s)
  }

  /** The length of the URL match at the start of `s`: the scheme and the
      greedy run of URL characters after it. */
  function UrlLength(s: string): (n: nat)
    requires HasUrl(s)
    ensures 8 <= n <= |s|
    ensures n == |s| || !IsUrlChar(s[n])
  {
    if HasSecureUrl(s) then 8 + Run(s[8..], IsUrlChar) else 7 + Run(s[7..], IsUrlChar)
  }

  /** `re.sub(url_pattern, '', s)` */
  function RemoveUrls(s: string): (r: string)
    ensures |r| <= |s|
    ensures forall c :: c in r ==> c in s
    ensures Subsequence(r, s)
    decreases |s|
  {
    if s == [] then []
    else if HasUrl(s) then
      var n := UrlLength(s);
      SubsequenceDrop(RemoveUrls(s[n..]), s, n);
      RemoveUrls(s[n..])
    else
      SubsequenceKeep(s[0], RemoveUrls(s[1..]), s[1..]);
      assert [s[0]] + s[1..] == s;
      [s[0]] + RemoveUrls(s[1..])
  }

  /** Every character of a URL's first eight belongs to the URL class. */
  lemma UrlHead(s: string)
    requires HasUrl(s)
    ensures |s| >= 8 && forall k :: 0 <= k < 8 ==> IsUrlChar(s[k])
  {
    if HasSecureUrl(s) {
      assert s[..8] == "https://";
      assert forall k :: 0 <= k < 8 ==> s[k] == "https://"[k];
    } else {
      assert s[..7] == "http://";
      assert forall k :: 0 <= k < 7 ==> s[k] == "http://"[k];
    }
  }

  /** Whether a URL starts at the head of `s` depends on its first nine
      characters only (eight for the plain scheme). */
  lemma UrlDependsOnHead(x: string, y: string, m: nat)
    requires 8 <= m <= 9 && m <= |x| && m <= |y| && x[..m] == y[..m]
    ensures HasPlainUrl(x) == HasPlainUrl(y)
    ensures m == 9 ==> HasSecureUrl(x) == HasSecureUrl(y)
  {
    assert x[..7] == x[..m][..7] && y[..7] == y[..m][..7];
    assert x[7] == x[..m][7] && y[7] == y[..m][7];
    if m == 9 {
      assert x[..8] == x[..m][..8] && y[..8] == y[..m][..8];
      assert x[8] == x[..m][8] && y[8] == y[..m][8];
    }
  }

  /** A URL cannot run across a character outside the URL class: if `a + c`
      holds no URL at its head, neither does `a + b` when `b` starts with
      such a character. */
  lemma NoUrlAcross(a: string, b: string, c: string)
    requires !HasUrl(a + c)
    requires b == [] || !IsUrlChar(b[0])
    ensures !HasUrl(a + b)
  {
    var x := a + b;
    if |a| >= 9 {
      assert x[..9] == a[..9] == (a + c)[..9];
      UrlDependsOnHead(x, a + c, 9);
    } else if |a| == 8 {
      assert x[..8] == a[..8] == (a + c)[..8];
      UrlDependsOnHead(x, a + c, 8);
      assert !HasSecureUrl(x);
    } else if b != [] {
      assert x[|a|] == b[0];
      NotUrl(x, |a|);
    }
  }

  /** A character outside the URL class among the first eight rules out a
      URL at the head. */
  lemma NotUrl(s: string, k: nat)
    requires k < 8 && k < |s| && !IsUrlChar(s[k])
    ensures !HasUrl(s)
  {
    assert |s| >= 8 ==> s[k] == s[..8][k];
    assert |s| >= 7 && k < 7 ==> s[k] == s[..7][k];
  }

  /** Text that does not start with a URL character keeps its first
      character. */
  lemma UrlsKeepHead(t: string)
    requires t == [] || !IsUrlChar(t[0])
    ensures RemoveUrls(t) == [] || !IsUrlChar(RemoveUrls(t)[0])
  {
    if t != [] {
      assert !HasUrl(t) by {
        if HasUrl(t) {
          UrlHead(t);
        }
      }
    }
  }

  /** Removing URLs from what follows `a` cannot make a URL start at the head
      of `a`. */
  lemma {:induction false} UrlBlocked(a: string, s: string)
    requires !HasUrl(a + s)
    ensures !HasUrl(a + RemoveUrls(s))
    decreases |s|
  {
    if s != [] {
      if HasUrl(s) {
        UrlBlockedAtUrl(a, s);
      } else {
        var a' := a + [s[0]];
        assert a' + s[1..] == a + s;
        UrlBlocked(a', s[1..]);
        UrlBlockedStep(a, s);
      }
    }
  }

  lemma UrlBlockedAtUrl(a: string, s: string)
    requires !HasUrl(a + s) && HasUrl(s)
    ensures !HasUrl(a + RemoveUrls(s))
  {
    var n := UrlLength(s);
    var rest := RemoveUrls(s[n..]);
    assert RemoveUrls(s) == rest;
    UrlsKeepHead(s[n..]);
    NoUrlAcross(a, rest, s);
  }

  lemma UrlBlockedStep(a: string, s: string)
    requires s != [] && !HasUrl(s)
    requires !HasUrl(a + [s[0]] + RemoveUrls(s[1..]))
    ensures !HasUrl(a + RemoveUrls(s))
  {
    assert RemoveUrls(s) == [s[0]] + RemoveUrls(s[1..]);
    assert a + [s[0]] + RemoveUrls(s[1..]) == a + RemoveUrls(s);
  }

  /** No URL is left anywhere in the result. */
  lemma {:induction false} NoUrlLeft(s: string)
    ensures forall p :: 0 <= p < |RemoveUrls(s)| ==> !HasUrl(RemoveUrls(s)[p..])
    decreases |s|
  {
    if s == [] {
    } else if HasUrl(s) {
      NoUrlLeft(s[UrlLength(s)..]);
    } else {
      var r := RemoveUrls(s);
      var rest := RemoveUrls(s[1..]);
      NoUrlLeft(s[1..]);
      assert r == [s[0]] + rest;
      forall p | 0 <= p < |r| ensures !HasUrl(r[p..]) {
        if p == 0 {
          assert [s[0]] + s[1..] == s;
          UrlBlocked([s[0]], s[1..]);
        } else {
          assert r[p..] == rest[p - 1..];
        }
      }
    }
  }

  /** The URL rewrite changes a text exactly when a URL occurs in it. */
  lemma {:induction false} UrlsUnchanged(s: string)
    ensures RemoveUrls(s) == s <==> forall p :: 0 <= p < |s| ==> !HasUrl(s[p..])
    decreases |s|
  {
    if s != [] {
      if HasUrl(s) {
        UrlChanges(s);
      } else {
        UrlsUnchanged(s[1..]);
        UrlsUnchangedStep(s);
      }
    }
  }

  /** A URL at the head is removed, so the text changes. */
  lemma UrlChanges(s: string)
    requires HasUrl(s)
    ensures RemoveUrls(s) != s && (exists p :: 0 <= p < |s| && HasUrl(s[p..]))
  {
    assert s[0..] == s;
    assert |RemoveUrls(s)| < |s|;
  }

  lemma UrlsUnchangedStep(s: string)
    requires s != [] && !HasUrl(s)
    requires RemoveUrls(s[1..]) == s[1..] <==> forall p :: 0 <= p < |s[1..]| ==> !HasUrl(s[1..][p..])
    ensures RemoveUrls(s) == s <==> forall p :: 0 <= p < |s| ==> !HasUrl(s[p..])
  {
    forall p | 1 <= p < |s| ensures s[p..] == s[1..][p - 1..] { }
    assert s[0..] == s;
    assert RemoveUrls(s) == [s[0]] + RemoveUrls(s[1..]);
    assert s == [s[0]] + s[1..];
  }

  // ---------------------------------------------------------------------------
  // Mentions: @\w+

  /** `@` followed by a word character: the mention pattern matches here. */
  predicate HasMention(s: string) {
    |s| > 1 && s[0] == '@' && IsWordChar(s[1])
  }

  /** `re.sub(r'@\w+', '', s)` */
  function RemoveMentions(s: string): (r: string)
    ensures |r| <= |s|
    ensures forall c :: c in r ==> c in s
    ensures Subsequence(r, s)
    decreases |s|
  {
    if s == [] then []
    else if HasMention(s) then
      var n := 1 + Run(s[1..], IsWordChar);
      SubsequenceDrop(RemoveMentions(s[n..]), s, n);
      RemoveMentions(s[n..])
    else
      SubsequenceKeep(s[0], RemoveMentions(s[1..]), s[1..]);
      assert [s[0]] + s[1..] == s;
      [s[0]] + RemoveMentions(s[1..])
  }

  /** Text that does not start with a word character still does not after
      the mentions are removed. */
  lemma {:induction false} MentionsKeepHead(t: string)
    requires t == [] || !IsWordChar(t[0])
    ensures RemoveMentions(t) == [] || !IsWordChar(RemoveMentions(t)[0])
    decreases |t|
  {
    if t != [] && HasMention(t) {
      MentionsKeepHead(t[1 + Run(t[1..], IsWordChar)..]);
    }
  }

  /** No `@` followed by a word character is left in the result. */
  lemma {:induction false} NoMentionLeft(s: string)
    ensures forall p :: 0 <= p < |RemoveMentions(s)| ==> !HasMention(RemoveMentions(s)[p..])
    decreases |s|
  {
    if s == [] {
    } else if HasMention(s) {
      NoMentionLeft(s[1 + Run(s[1..], IsWordChar)..]);
    } else {
      var r := RemoveMentions(s);
      var rest := RemoveMentions(s[1..]);
      NoMentionLeft(s[1..]);
      assert r == [s[0]] + rest;
      if s[0] == '@' {
        MentionsKeepHead(s[1..]);
      }
      forall p | 0 <= p < |r| ensures !HasMention(r[p..]) {
        if p > 0 {
          assert r[p..] == rest[p - 1..];
        }
      }
    }
  }

  /** The mention rewrite changes a text exactly when a mention occurs in it. */
  lemma {:induction false} MentionsUnchanged(s: string)
    ensures RemoveMentions(s) == s <==> forall p :: 0 <= p < |s| ==> !HasMention(s[p..])
    decreases |s|
  {
    if s == [] {
    } else if HasMention(s) {
      assert s[0..] == s;
    } else {
      MentionsUnchanged(s[1..]);
      forall p | 1 <= p < |s| ensures s[p..] == s[1..][p - 1..] { }
      assert s[0..] == s;
      assert s == [s[0]] + s[1..];
    }
  }

  // ---------------------------------------------------------------------------
  // Hashtags: #(\w+) replaced by \1

  /** `#` followed by a word character: the hashtag pattern matches here. */
  predicate HasHashtag(s: string) {
    |s| > 1 && s[0] == '#' && IsWordChar(s[1])
  }

  /** `re.sub(r'#(\w+)', r'\1', s)`: a match is replaced by its word. */
  function UnwrapHashtags(s: string): string
    decreases |s|
  {
    if s == [] then []
    else if HasHashtag(s) then
      var n := Run(s[1..], IsWordChar);
      s[1..1 + n] + UnwrapHashtags(s[1 + n..])
    else [s[0]] + UnwrapHashtags(s[1..])
  }

  /** The same rewrite read character by character: delete every `#` that is
      followed by a word character and keep everything else. */
  function DropHashMarks(s: string): (r: string)
    ensures |r| <= |s|
    ensures forall c :: c in r ==> c in s
    ensures Subsequence(r, s)
    decreases |s|
  {
    if s == [] then []
    else if HasHashtag(s) then
      SubsequenceDrop(DropHashMarks(s[1..]), s, 1);
      DropHashMarks(s[1..])
    else
      SubsequenceKeep(s[0], DropHashMarks(s[1..]), s[1..]);
      assert [s[0]] + s[1..] == s;
      [s[0]] + DropHashMarks(s[1..])
  }

  lemma {:induction false} DropHashMarksCopies(w: string, t: string)
    requires '#' !in w
    ensures DropHashMarks(w + t) == w + DropHashMarks(t)
    decreases |w|
  {
    if w != [] {
      assert (w + t)[1..] == w[1..] + t;
      DropHashMarksCopies(w[1..], t);
      assert w == [w[0]] + w[1..];
    } else {
      assert w + t == t;
    }
  }

  /** The hashtag rewrite deletes exactly the `#` marks that precede a word
      character; so `#word` becomes `word`, and of `##word` only the second
      mark goes. */
  lemma {:induction false} UnwrapIsDrop(s: string)
    ensures UnwrapHashtags(s) == DropHashMarks(s)
    decreases |s|
  {
    if s == [] {
    } else if HasHashtag(s) {
      var n := Run(s[1..], IsWordChar);
      var w := s[1..1 + n];
      assert forall k :: 0 <= k < |w| ==> IsWordChar(w[k]) by {
        forall k | 0 <= k < |w| ensures IsWordChar(w[k]) {
          assert w[k] == s[1..][k];
        }
      }
      assert '#' !in w;
      assert s[1..] == w + s[1 + n..];
      DropHashMarksCopies(w, s[1 + n..]);
      UnwrapIsDrop(s[1 + n..]);
    } else {
      UnwrapIsDrop(s[1..]);
    }
  }

  /** `#word` becomes `word`. */
  lemma HashtagOfWord(w: string)
    requires w != [] && forall k :: 0 <= k < |w| ==> IsWordChar(w[k])
    ensures UnwrapHashtags("#" + w) == w
  {
    var s := "#" + w;
    assert s[1..] == w && s[1] == w[0];
    assert HasHashtag(s);
    assert DropHashMarks(s) == DropHashMarks(w);
    assert '#' !in w by {
      assert !IsWordChar('#');
    }
    assert DropHashMarks(w) == w by {
      DropHashMarksCopies(w, []);
      assert w + [] == w;
    }
    UnwrapIsDrop(s);
  }

  /** Apart from the deleted marks nothing changes: text without a hashtag
      is left as it is. */
  lemma {:induction false} HashtagsUnchanged(s: string)
    requires forall p :: 0 <= p < |s| ==> !HasHashtag(s[p..])
    ensures UnwrapHashtags(s) == s
    decreases |s|
  {
    if s != [] {
      assert s[0..] == s;
      forall p | 0 <= p < |s| - 1 ensures !HasHashtag(s[1..][p..]) {
        assert s[1..][p..] == s[p + 1..];
      }
      HashtagsUnchanged(s[1..]);
      assert s == [s[0]] + s[1..];
    }
  }

  /** The hashtag rewrite only deletes characters: what it returns is the
      text with some characters left out and the others in their order. */
  lemma HashtagsDelete(s: string)
    ensures Subsequence(UnwrapHashtags(s), s)
    ensures |UnwrapHashtags(s)| <= |s|
  {
    UnwrapIsDrop(s);
  }

  // ---------------------------------------------------------------------------
  // Tags: <.*?>

  /** The index of the first newline of `t`, or its length. */
  function LineEnd(t: string): (n: nat)
    ensures n <= |t|
    ensures forall k :: 0 <= k < n ==> t[k] != '\n'
    ensures n == |t| || t[n] == '\n'
  {
    if t == [] || t[0] == '\n' then 0 else 1 + LineEnd(t[1..])
  }

  /** No `>` before the first newline: a `<` in front of `t` opens no tag. */
  predicate Unclosed(t: string) {
    forall k :: 0 <= k < LineEnd(t) ==> t[k] != '>'
  }

  /** Where the lazy `.*?>` after a `<` stops: the first `>` of `t`, provided
      no newline (which `.` does not match) comes before it. */
  function CloseAt(t: string): (r: Option<nat>)
    ensures r.Some? ==> r.value < LineEnd(t) && t[r.value] == '>'
    ensures r.Some? ==> forall k :: 0 <= k < r.value ==> t[k] != '>'
    ensures r.None? ==> Unclosed(t)
  {
    if t == [] || t[0] == '\n' then None
    else if t[0] == '>' then Some(0)
    else match CloseAt(t[1..])
      case None => None
      case Some(k) => Some(k + 1)
  }

  /** The tag pattern matches at the start of `s`. */
  predicate HasTag(s: string) {
    s != [] && s[0] == '<' && CloseAt(s[1..]).Some?
  }

  /** `re.sub(r'<.*?>', '', s)` */
  function RemoveTags(s: string): (r: string)
    ensures |r| <= |s|
    ensures forall c :: c in r ==> c in s
    ensures Subsequence(r, s)
    decreases |s|
  {
    if s == [] then []
    else if HasTag(s) then
      var n := CloseAt(s[1..]).value + 2;
      SubsequenceDrop(RemoveTags(s[n..]), s, n);
      RemoveTags(s[n..])
    else
      SubsequenceKeep(s[0], RemoveTags(s[1..]), s[1..]);
      assert [s[0]] + s[1..] == s;
      [s[0]] + RemoveTags(s[1..])
  }

  /** Removing tags never brings a `>` forward past a newline. */
  lemma {:induction false} UnclosedKept(t: string)
    requires Unclosed(t)
    ensures Unclosed(RemoveTags(t))
    decreases |t|
  {
    if t == [] {
    } else if t[0] == '\n' {
      assert RemoveTags(t) == ['\n'] + RemoveTags(t[1..]);
    } else {
      assert LineEnd(t) == 1 + LineEnd(t[1..]);
      assert t[0] != '>';
      assert !HasTag(t);
      assert Unclosed(t[1..]) by {
        forall k | 0 <= k < LineEnd(t[1..]) ensures t[1..][k] != '>' {
          assert t[1..][k] == t[k + 1];
        }
      }
      UnclosedKept(t[1..]);
      var rest := RemoveTags(t[1..]);
      var r := [t[0]] + rest;
      assert RemoveTags(t) == r;
      assert LineEnd(r) == 1 + LineEnd(rest) by {
        assert r[1..] == rest;
      }
      forall k | 0 <= k < LineEnd(r) ensures r[k] != '>' {
        if k > 0 {
          assert r[k] == rest[k - 1];
        }
      }
    }
  }

  /** No `<...>` without a newline inside is left in the result. */
  lemma {:induction false} NoTagLeft(s: string)
    ensures forall p :: 0 <= p < |RemoveTags(s)| ==> !HasTag(RemoveTags(s)[p..])
    decreases |s|
  {
    if s == [] {
    } else if HasTag(s) {
      NoTagLeft(s[CloseAt(s[1..]).value + 2..]);
    } else {
      var r := RemoveTags(s);
      var rest := RemoveTags(s[1..]);
      NoTagLeft(s[1..]);
      assert r == [s[0]] + rest;
      if s[0] == '<' {
        UnclosedKept(s[1..]);
        assert r[1..] == rest;
        assert CloseAt(rest).None?;
      }
      forall p | 0 <= p < |r| ensures !HasTag(r[p..]) {
        if p > 0 {
          assert r[p..] == rest[p - 1..];
        } else {
          assert r[0..] == r;
        }
      }
    }
  }

  /** The tag rewrite changes a text exactly when a tag occurs in it. */
  lemma {:induction false} TagsUnchanged(s: string)
    ensures RemoveTags(s) == s <==> forall p :: 0 <= p < |s| ==> !HasTag(s[p..])
    decreases |s|
  {
    if s == [] {
    } else if HasTag(s) {
      assert s[0..] == s;
    } else {
      TagsUnchanged(s[1..]);
      forall p | 1 <= p < |s| ensures s[p..] == s[1..][p - 1..] { }
      assert s[0..] == s;
      assert s == [s[0]] + s[1..];
    }
  }

  // ---------------------------------------------------------------------------
  // Punctuation: [!"#$%&'()*+,-./:;<=>?@[\]^_`{|}~]+ replaced by one space

  /** The class built from `string.punctuation`. Inside the brackets `\]` is
      an escaped `]`, so the backslash itself is not in the class: it holds
      the 31 other ASCII punctuation characters. */
  const PunctuationChars: string := "!\"#$%&'()*+,-./:;<=>?@[]^_`{|}~"

  /** Membership in the class, as the four ASCII ranges it covers. */
  predicate IsPunctuation(c: char) {
    ('!' <= c <= '/') || (':' <= c <= '@') || ('[' <= c <= '`' && c != '\\') || ('{' <= c <= '~')
  }

  /** The ranges are exactly the characters of the class. */
  lemma PunctuationClass()
    ensures forall c :: IsPunctuation(c) <==> c in PunctuationChars
  {
  }

  /** `re.sub('[' + string.punctuation + ']+', ' ', s)` */
  function PunctuationToSpace(s: string): (r: string)
    ensures forall c :: c in r ==> !IsPunctuation(c)
    ensures forall c :: c in r ==> c == ' ' || c in s
    decreases |s|
  {
    if s == [] then []
    else if IsPunctuation(s[0]) then " " + PunctuationToSpace(s[Run(s, IsPunctuation)..])
    else [s[0]] + PunctuationToSpace(s[1..])
  }

  /** A character the punctuation rewrite neither deletes nor inserts. */
  predicate KeptByPunctuation(c: char) {
    c != ' ' && !IsPunctuation(c)
  }

  /** Every character outside the class and other than the space survives
      the punctuation rewrite, in its order: the rewrite only turns runs of
      punctuation into spaces. */
  lemma {:induction false} PunctuationKeeps(s: string)
    ensures Filter(PunctuationToSpace(s), KeptByPunctuation) == Filter(s, KeptByPunctuation)
    decreases |s|
  {
    if s != [] {
      if IsPunctuation(s[0]) {
        var n := Run(s, IsPunctuation);
        PunctuationKeeps(s[n..]);
        FilterCons(' ', PunctuationToSpace(s[n..]), KeptByPunctuation);
        FilterSkip(s, KeptByPunctuation, n);
      } else {
        PunctuationKeeps(s[1..]);
        FilterCons(s[0], PunctuationToSpace(s[1..]), KeptByPunctuation);
      }
    }
  }

  // ---------------------------------------------------------------------------
  // Numbers: \d+ replaced by NUM

  /** `re.sub(r'\d+', 'NUM', s)` */
  function DigitsToNum(s: string): (r: string)
    ensures forall c :: c in r ==> !IsDigit(c)
    ensures forall c :: c in r ==> c in "NUM" || c in s
    decreases |s|
  {
    if s == [] then []
    else if IsDigit(s[0]) then "NUM" + DigitsToNum(s[Run(s, IsDigit)..])
    else [s[0]] + DigitsToNum(s[1..])
  }

  /** A character the digit rewrite neither deletes nor inserts. */
  predicate KeptByDigits(c: char) {
    !IsDigit(c) && c != 'N' && c != 'U' && c != 'M'
  }

  /** Every non-digit other than the letters of `NUM` survives the digit
      rewrite, in its order: the rewrite only turns runs of digits into
      `NUM`. */
  lemma {:induction false} DigitsKeep(s: string)
    ensures Filter(DigitsToNum(s), KeptByDigits) == Filter(s, KeptByDigits)
    decreases |s|
  {
    if s != [] {
      if IsDigit(s[0]) {
        var n := Run(s, IsDigit);
        var rest := DigitsToNum(s[n..]);
        DigitsKeep(s[n..]);
        assert "NUM" + rest == ['N'] + (['U'] + (['M'] + rest));
        FilterCons('M', rest, KeptByDigits);
        FilterCons('U', ['M'] + rest, KeptByDigits);
        FilterCons('N', ['U'] + (['M'] + rest), KeptByDigits);
        FilterSkip(s, KeptByDigits, n);
      } else {
        DigitsKeep(s[1..]);
        FilterCons(s[0], DigitsToNum(s[1..]), KeptByDigits);
      }
    }
  }

  /** Each maximal run of digits becomes one `NUM`: a number followed by a
      non-digit keeps that character right after its `NUM`. */
  lemma NumberToken(digits: string, rest: string)
    requires digits != [] && forall k :: 0 <= k < |digits| ==> IsDigit(digits[k])
    requires rest == [] || !IsDigit(rest[0])
    ensures DigitsToNum(digits + rest) == "NUM" + DigitsToNum(rest)
  {
    var s := digits + rest;
    RunOfPrefix(digits, rest, IsDigit);
    assert s[|digits|..] == rest;
  }

  lemma {:induction false} RunOfPrefix(w: string, rest: string, p: char -> bool)
    requires forall k :: 0 <= k < |w| ==> p(w[k])
    requires rest == [] || !p(rest[0])
    ensures Run(w + rest, p) == |w|
    decreases |w|
  {
    if w != [] {
      assert (w + rest)[1..] == w[1..] + rest;
      RunOfPrefix(w[1..], rest, p);
    } else {
      assert w + rest == rest;
    }
  }
}
