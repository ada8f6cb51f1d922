/** The sentiment analyzer: how a classifier's raw `(label, score)` output
    becomes a stored record (`SentimentAnalyzer._process_result`), how one text
    is analyzed (`analyze`) and how a batch is (`analyze_batch`).

    The pretrained classifier is the parameter `classify`: it returns the
    classifier's first prediction, or `Failure(message)` when the call raises.
    The duration of a call, `time.time() - start_time`, is the parameter
    `elapsed`. */
module Analyzer {
  import opened Wrappers
  import opened Text
  import opened Numeric

  datatype Sentiment = Positive | Negative | Neutral

  /** The display emoji of each sentiment: 😊, 😔 and 😐. */
  function EmojiOf(s: Sentiment): string {
    match s
    case Positive => "\U{1F60A}"
    case Negative => "\U{1F614}"
    case Neutral => "\U{1F610}"
  }

  /** `x` with the sign that `sentiment_score` carries for each sentiment:
      kept when positive, negated when negative, zero when neutral. */
  function Signed(s: Sentiment, x: real): real {
    match s
    case Positive => x
    case Negative => -x
    case Neutral => 0.0
  }

  /** A stored analysis. Python keeps it as a dict and tells the two kinds
      apart by whether the key 'sentiment' is present; `Valid` is the dict
      with it, `Error` the one without. `timestamp` is set by the history
      store and `index` by the batch analysis. */
  datatype Record =
    | Valid(sentiment: Sentiment, confidence: real, stars: Option<int>, emoji: string,
            sentimentScore: real, rawLabel: string,
            textOriginal: string, textAnalyzed: string, textTruncated: bool, textLength: nat,
            processingTime: Option<real>, timestamp: Option<string>, index: Option<nat>)
    | Error(error: string, textOriginal: string,
            processingTime: Option<real>, timestamp: Option<string>, index: Option<nat>)

  /** The classifier's first prediction, `self.model(text)[0]`. */
  datatype Prediction = Prediction(labelText: string, score: real)

  /** The part of `_process_result` that decides, before any rounding. */
  datatype Verdict = Verdict(sentiment: Sentiment, stars: int, signedScore: real)

  /** The dict that `_process_result` returns. */
  datatype Normalized = Normalized(sentiment: Sentiment, confidence: real, stars: int,
                                   emoji: string, sentimentScore: real, rawLabel: string)

  const MaxAnalyzedLength := 500
  const BatchErrorTextLength := 100
  const EmptyTextMessage := "El texto no puede estar vac\U{ED}o"
  const IndexErrorMessage := "list index out of range"

  /** The message of `int(token)`'s `ValueError`. */
  function InvalidLiteralMessage(token: string): string {
    "invalid literal for int() with base 10: '" + token + "'"
  }

  // ---------------------------------------------------------------------------
  // _process_result

  /** Labels of the five-star scheme ("1 star" ... "5 stars"). */
  predicate IsStarLabel(labelText: string) {
    Contains(Lower(labelText), "star")
  }

  /** The binary labels that count as positive. */
  predicate IsPositiveLabel(labelText: string) {
    Upper(labelText) == "POSITIVE" || labelText == "LABEL_1"
  }

  /** The verdict of the star scheme for a parsed star count. */
  function StarVerdict(stars: int, score: real): (v: Verdict)
    ensures v.stars == stars && Coherent(v, score)
  {
    if stars <= 2 then Verdict(Negative, stars, -score)
    else if stars == 3 then Verdict(Neutral, stars, 0.0)
    else Verdict(Positive, stars, score)
  }

  /** The verdict of the binary scheme: positive exactly for a positive
      label, never neutral, and a confident score (above 0.9) gets the
      milder rating, 4 stars when positive and 2 when negative, a less
      confident one 5 and 1. */
  function BinaryVerdict(labelText: string, score: real): (v: Verdict)
    ensures Coherent(v, score)
    ensures v.sentiment == Positive <==> IsPositiveLabel(labelText)
    ensures v.sentiment != Neutral
    ensures v.sentiment == Positive ==> v.stars == (if score > 0.9 then 4 else 5)
    ensures v.sentiment == Negative ==> v.stars == (if score > 0.9 then 2 else 1)
  {
    if IsPositiveLabel(labelText) then Verdict(Positive, if score > 0.9 then 4 else 5, score)
    else Verdict(Negative, if score > 0.9 then 2 else 1, -score)
  }

  /** The branch structure of `_process_result`: a star label is read through
      the integer in its first whitespace-separated token, any other labelText
      through the binary scheme. */
  function Interpret(labelText: string, score: real): (r: Result<Verdict>)
    ensures r.Success? ==> Coherent(r.value, score)
    ensures r.Failure? ==> IsStarLabel(labelText)
  {
    if IsStarLabel(labelText) then StarScheme(Words(labelText), score)
    else Success(BinaryVerdict(labelText, score))
  }

  /** The star branch, given the label's whitespace-separated tokens: it
      succeeds exactly when there is a first token and `int()` reads it, and
      then the verdict carries that many stars; a missing token is the
      `IndexError` and an unreadable one the `ValueError`. */
  function StarScheme(tokens: seq<string>, score: real): (r: Result<Verdict>)
    ensures r.Success? <==> tokens != [] && ParseInt(tokens[0]).Some?
    ensures r.Success? ==> r.value.stars == ParseInt(tokens[0]).value && Coherent(r.value, score)
    ensures tokens == [] ==> r == Failure(IndexErrorMessage)
    ensures tokens != [] && ParseInt(tokens[0]).None? ==> r == Failure(InvalidLiteralMessage(tokens[0]))
  {
    if tokens == [] then Failure(IndexErrorMessage)
    else match ParseInt(tokens[0])
      case None => Failure(InvalidLiteralMessage(tokens[0]))
      case Some(stars) => Success(StarVerdict(stars, score))
  }

  /** `_process_result`: the verdict with the score rounded to four places.
      A success keeps the raw label, has the rounded score as its
      confidence, the emoji of its sentiment, the confidence with the
      sentiment's sign as its sentiment score, and a star rating that agrees
      with the sentiment; only a star label can fail. */
  function ProcessResult(p: Prediction): (r: Result<Normalized>)
    ensures r.Success? <==> Interpret(p.labelText, p.score).Success?
    ensures r.Failure? ==> IsStarLabel(p.labelText)
    ensures r.Success? ==>
      var n := r.value;
      && n.rawLabel == p.labelText && n.confidence == Round(p.score, 4)
      && n.emoji == EmojiOf(n.sentiment)
      && n.sentimentScore == Signed(n.sentiment, n.confidence)
      && n.stars == Interpret(p.labelText, p.score).value.stars
      && (n.sentiment == Negative ==> n.stars <= 2)
      && (n.sentiment == Neutral ==> n.stars == 3)
      && (n.sentiment == Positive ==> n.stars >= 4)
  {
    match Interpret(p.labelText, p.score)
    case Failure(e) => Failure(e)
    case Success(v) => Success(Normalize(v, p))
  }

  /** The verdict with the score and the signed score rounded to four
      places; rounding keeps the sign, so a coherent verdict's sentiment
      score is the rounded confidence with the sentiment's sign. */
  function Normalize(v: Verdict, p: Prediction): (n: Normalized)
    ensures n.sentiment == v.sentiment && n.stars == v.stars && n.rawLabel == p.labelText
    ensures n.confidence == Round(p.score, 4) && n.emoji == EmojiOf(v.sentiment)
    ensures v.signedScore == Signed(v.sentiment, p.score) ==>
      n.sentimentScore == Signed(v.sentiment, n.confidence)
  {
    RoundSigned(v.sentiment, p.score, 4);
    Normalized(v.sentiment, Round(p.score, 4), v.stars, EmojiOf(v.sentiment),
               Round(v.signedScore, 4), p.labelText)
  }

  // ---------------------------------------------------------------------------
  // analyze and analyze_batch

  /** `text[:500]`, the part of the text that is classified. */
  function Truncated(text: string): (t: string)
    ensures t == text[..if |text| > MaxAnalyzedLength then MaxAnalyzedLength else |text|]
  {
    if |text| > MaxAnalyzedLength then text[..MaxAnalyzedLength] else text
  }

  /** `analyze`: `Failure` is the `ValueError` it raises for an empty or
      blank text (`not text or not text.strip()`, see `StripEmpty`); every other outcome, a classifier failure included, is a
      returned record. */
  function Analyze(text: string, classify: string -> Result<Prediction>, elapsed: real): (r: Result<Record>)
    ensures r.Failure? <==> Blank(text)
    ensures r.Failure? ==> r.error == EmptyTextMessage
    ensures r.Success? ==>
      r.value.textOriginal == text && r.value.processingTime == Some(Round(elapsed, 3))
      && r.value.timestamp.None? && r.value.index.None?
  {
    if Blank(text) then Failure(EmptyTextMessage)
    else
      var analyzed := Truncated(text);
      var time := Some(Round(elapsed, 3));
      var outcome := match classify(analyzed)
        case Failure(e) => Failure(e)
        case Success(p) => ProcessResult(p);
      match outcome
      case Failure(e) => Success(Error(e, text, time, None, None))
      case Success(n) =>
        Success(Valid(n.sentiment, n.confidence, Some(n.stars), n.emoji, n.sentimentScore, n.rawLabel,
                      text, analyzed, |text| > MaxAnalyzedLength, |text|, time, None, None))
  }

  /** `text[:100] + '...' if len(text) > 100 else text` */
  function Abbreviated(text: string): (t: string)
    ensures |t| <= BatchErrorTextLength + 3
    ensures |text| <= BatchErrorTextLength ==> t == text
    ensures |text| > BatchErrorTextLength ==> t == text[..BatchErrorTextLength] + "..."
  {
    if |text| > BatchErrorTextLength then text[..BatchErrorTextLength] + "..." else text
  }

  /** Item `i` of `analyze_batch`: the record of `analyze` tagged with its
      index, or an error record when `analyze` raises. */
  function BatchItem(text: string, i: nat, classify: string -> Result<Prediction>, elapsed: real): (r: Record)
    ensures r.index == Some(i)
    ensures Blank(text) ==> r == Error(EmptyTextMessage, Abbreviated(text), None, None, Some(i))
    ensures !Blank(text) ==> r == WithIndex(Analyze(text, classify, elapsed).value, i)
  {
    BatchEntry(text, i, Analyze(text, classify, elapsed))
  }

  function BatchEntry(text: string, i: nat, outcome: Result<Record>): Record {
    match outcome
    case Success(r) => WithIndex(r, i)
    case Failure(e) => Error(e, Abbreviated(text), None, None, Some(i))
  }

  /** `result['index'] = i` */
  function WithIndex(r: Record, i: nat): Record {
    r.(index := Some(i))
  }

  /** `analyze_batch`: one record per text, in order, each tagged with its
      position; a failing item does not stop the ones after it. */
  method AnalyzeBatch(texts: seq<string>, classify: string -> Result<Prediction>, elapsed: nat -> real)
    returns (results: seq<Record>)
    ensures |results| == |texts|
    ensures forall i :: 0 <= i < |texts| ==> results[i] == BatchItem(texts[i], i, classify, elapsed(i))
  {
    results := [];
    for i := 0 to |texts|
      invariant |results| == i
      invariant forall j :: 0 <= j < i ==> results[j] == BatchItem(texts[j], j, classify, elapsed(j))
    {
      var item := BatchItem(texts[i], i, classify, elapsed(i));
      results := results + [item];
    }
  }

  // ---------------------------------------------------------------------------
  // Properties of _process_result

  lemma ContainsHasFirst(s: string, h: string)
    requires h != [] && Contains(s, h)
    ensures h[0] in s
    decreases |s|
  {
    if s[..|h|] == h {
      assert s[0] == h[0];
    } else {
      ContainsHasFirst(s[1..], h);
    }
  }

  lemma {:induction false} WordsEmpty(s: string)
    requires Words(s) == []
    ensures forall i :: 0 <= i < |s| ==> IsSpace(s[i])
  {
    assert TrimStart(s) == [];
  }

  /** A star label always has a first token, so `label.split()[0]` never
      raises. */
  lemma StarLabelHasToken(labelText: string)
    requires IsStarLabel(labelText)
    ensures Words(labelText) != []
  {
    ContainsHasFirst(Lower(labelText), "star");
    var k :| 0 <= k < |labelText| && Lower(labelText)[k] == 's';
    assert !IsSpace(LowerChar(labelText[k]));
    if Words(labelText) == [] {
      WordsEmpty(labelText);
      assert false;
    }
  }

  lemma InterpretCases(labelText: string, score: real)
    ensures IsStarLabel(labelText) ==> Interpret(labelText, score) == StarScheme(Words(labelText), score)
    ensures !IsStarLabel(labelText) ==> Interpret(labelText, score) == Success(BinaryVerdict(labelText, score))
  {
  }

  lemma StarSchemeParsed(tokens: seq<string>, score: real, n: int)
    requires tokens != [] && ParseInt(tokens[0]) == Some(n)
    ensures StarScheme(tokens, score) == Success(StarVerdict(n, score))
  {
  }

  /** Star scheme: at most two stars is negative with the score negated,
      three is neutral with score 0, four or more is positive with the score
      kept; `stars` is the integer the label starts with. */
  lemma StarLabel(labelText: string, score: real, n: int)
    requires IsStarLabel(labelText)
    requires Words(labelText) != [] && ParseInt(Words(labelText)[0]) == Some(n)
    ensures Interpret(labelText, score).Success?
    ensures Interpret(labelText, score).value.stars == n
    ensures n <= 2 ==> Interpret(labelText, score).value == Verdict(Negative, n, -score)
    ensures n == 3 ==> Interpret(labelText, score).value == Verdict(Neutral, n, 0.0)
    ensures n >= 4 ==> Interpret(labelText, score).value == Verdict(Positive, n, score)
  {
    InterpretCases(labelText, score);
    StarSchemeParsed(Words(labelText), score, n);
  }

  /** A star label whose first token is not an integer is the `ValueError`
      of `int()`. */
  lemma StarLabelUnparsable(labelText: string, score: real)
    requires IsStarLabel(labelText)
    requires Words(labelText) != [] && ParseInt(Words(labelText)[0]).None?
    ensures Interpret(labelText, score) == Failure(InvalidLiteralMessage(Words(labelText)[0]))
  {
    InterpretCases(labelText, score);
  }

  /** Binary scheme: positive exactly for "POSITIVE" in any case or the
      exact "LABEL_1"; a confident positive (score > 0.9) gets 4 stars and a
      less confident one 5, a confident negative 2 and a less confident one 1. */
  lemma BinaryLabel(labelText: string, score: real)
    requires !IsStarLabel(labelText)
    ensures Interpret(labelText, score).Success?
    ensures Interpret(labelText, score).value.sentiment == Positive <==> IsPositiveLabel(labelText)
    ensures Interpret(labelText, score).value.sentiment != Neutral
    ensures IsPositiveLabel(labelText) ==> Interpret(labelText, score).value.stars == (if score > 0.9 then 4 else 5)
    ensures !IsPositiveLabel(labelText) ==> Interpret(labelText, score).value.stars == (if score > 0.9 then 2 else 1)
  {
    InterpretCases(labelText, score);
  }

  /** A verdict is coherent when its signed score is the score carrying the
      sign of the sentiment and its star rating agrees with the sentiment:
      at most two stars when negative, three when neutral, at least four
      when positive. */
  predicate Coherent(v: Verdict, score: real) {
    && v.signedScore == Signed(v.sentiment, score)
    && (v.sentiment == Negative ==> v.stars <= 2)
    && (v.sentiment == Neutral ==> v.stars == 3)
    && (v.sentiment == Positive ==> v.stars >= 4)
  }

  /** The labels of the five-star classifier, "n star" and "n stars", read
      back as n stars. */
  lemma FiveStarLabel(n: nat, score: real, plural: bool)
    ensures var labelText := Show(n) + (if plural then " stars" else " star");
      Interpret(labelText, score).Success? && Interpret(labelText, score).value.stars == n
  {
    var suffix := if plural then " stars" else " star";
    var digits := Show(n);
    var labelText := digits + suffix;
    DigitsThenStar(digits, suffix);
    FirstWord(digits, suffix);
    ParseShow(n);
    StarLabel(labelText, score, n);
  }

  lemma DigitsThenStar(digits: string, suffix: string)
    requires forall i :: 0 <= i < |digits| ==> IsDigit(digits[i])
    requires suffix == " stars" || suffix == " star"
    ensures IsStarLabel(digits + suffix)
  {
    var labelText := digits + suffix;
    assert Lower(labelText) == digits + suffix by {
      forall i | 0 <= i < |labelText| ensures Lower(labelText)[i] == labelText[i] {
        if i < |digits| {
          assert labelText[i] == digits[i];
        } else {
          assert labelText[i] == suffix[i - |digits|];
        }
      }
    }
    assert labelText[|digits| + 1..] == suffix[1..];
    assert suffix[1..][..4] == "star";
    ContainsLater(labelText, |digits| + 1, "star");
  }

  /** The first word of a word followed by whitespace is that word. */
  lemma FirstWord(w: string, x: string)
    requires IsWord(w) && x != [] && IsSpace(x[0])
    ensures Words(w + x) != [] && Words(w + x)[0] == w
  {
    assert (w + x)[0] == w[0];
    assert TrimStart(w + x) == w + x;
    TokenOfWord(w, x);
  }

  lemma ContainsLater(s: string, k: nat, h: string)
    requires k <= |s| && Contains(s[k..], h)
    ensures Contains(s, h)
    decreases k
  {
    if k > 0 {
      assert s[k..] == s[1..][k - 1..];
      ContainsLater(s[1..], k - 1, h);
    }
  }

  /** Rounding keeps the sign a sentiment gives a score. */
  lemma RoundSigned(sentiment: Sentiment, x: real, n: nat)
    ensures Round(Signed(sentiment, x), n) == Signed(sentiment, Round(x, n))
  {
    match sentiment {
      case Positive =>
      case Negative => RoundNegate(x, n);
      case Neutral => RoundZero(n);
    }
  }

  // ---------------------------------------------------------------------------
  // Properties of analyze and analyze_batch

  /** `analyze` raises exactly for an empty or all-whitespace text. */
  lemma AnalyzeRejectsBlank(text: string, classify: string -> Result<Prediction>, elapsed: real)
    ensures Analyze(text, classify, elapsed).Failure? <==> Strip(text) == []
    ensures Analyze(text, classify, elapsed).Failure? ==> Analyze(text, classify, elapsed).error == EmptyTextMessage
  {
    StripEmpty(text);
  }

  /** The classifier sees only `text[:500]`: two classifiers that agree there
      give the same analysis. A blank text is rejected before the classifier
      is consulted, so there any two classifiers agree. */
  lemma AnalyzeConsultsTruncated(text: string, c1: string -> Result<Prediction>,
                                 c2: string -> Result<Prediction>, elapsed: real)
    requires Strip(text) == [] || c1(Truncated(text)) == c2(Truncated(text))
    ensures Analyze(text, c1, elapsed) == Analyze(text, c2, elapsed)
  {
    StripEmpty(text);
  }

  /** A returned success record is a sentiment record exactly when the
      classifier and `_process_result` both succeed on `text[:500]`; it then
      describes the full text and what of it was analyzed, and its verdict is
      `_process_result` of the classifier's prediction. */
  lemma AnalyzeSuccess(text: string, classify: string -> Result<Prediction>, elapsed: real)
    requires Analyze(text, classify, elapsed).Success?
    ensures Analyze(text, classify, elapsed).value.Valid? <==>
      classify(Truncated(text)).Success? && ProcessResult(classify(Truncated(text)).value).Success?
    ensures var r := Analyze(text, classify, elapsed).value;
      r.Valid? ==>
        && r.textAnalyzed == Truncated(text)
        && (r.textTruncated <==> |text| > 500)
        && r.textLength == |text|
        && classify(Truncated(text)).Success?
        && var n := ProcessResult(classify(Truncated(text)).value);
           n.Success? && r.sentiment == n.value.sentiment && r.confidence == n.value.confidence
           && r.stars == Some(n.value.stars) && r.sentimentScore == n.value.sentimentScore
           && r.rawLabel == n.value.rawLabel && r.emoji == n.value.emoji
  {
  }

  /** A classifier exception, or a star label without an integer first
      token, is returned as an error record (no sentiment) carrying the
      exception message, not raised. */
  lemma AnalyzeFailureIsRecord(text: string, classify: string -> Result<Prediction>, elapsed: real)
    requires Strip(text) != []
    requires classify(Truncated(text)).Failure? || ProcessResult(classify(Truncated(text)).value).Failure?
    ensures Analyze(text, classify, elapsed).Success?
    ensures var r := Analyze(text, classify, elapsed).value;
      r.Error? && r.textOriginal == text && r.processingTime == Some(Round(elapsed, 3))
      && r.error == (if classify(Truncated(text)).Failure? then classify(Truncated(text)).error
                     else ProcessResult(classify(Truncated(text)).value).error)
  {
    StripEmpty(text);
  }

  /** A blank batch item becomes an error record that keeps at most 100
      characters of the text (followed by "...") and no processing time. */
  lemma BatchItemBlank(text: string, i: nat, classify: string -> Result<Prediction>, elapsed: real)
    requires Strip(text) == []
    ensures BatchItem(text, i, classify, elapsed)
         == Error(EmptyTextMessage, Abbreviated(text), None, None, Some(i))
  {
    AnalyzeRejectsBlank(text, classify, elapsed);
  }

  /** Any other batch item is the record `analyze` returns, with its index. */
  lemma BatchItemAnalyzed(text: string, i: nat, classify: string -> Result<Prediction>, elapsed: real)
    requires Strip(text) != []
    ensures Analyze(text, classify, elapsed).Success?
    ensures BatchItem(text, i, classify, elapsed) == WithIndex(Analyze(text, classify, elapsed).value, i)
  {
    AnalyzeRejectsBlank(text, classify, elapsed);
  }
}
