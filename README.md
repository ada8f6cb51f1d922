# Sentiment analysis app: a Dafny model of its core

This project models the core of a Spanish-language sentiment analysis web
application and proves properties of that model. The core has four parts:

* **The analyzer** (`SentimentAnalyzer` in `model.py`).
  * `_process_result` turns the classifier's raw prediction into a
    normalised record. A label is either a five-star label such as
    "4 stars" or a binary label such as `POSITIVE` / `LABEL_1`.
    The record holds the sentiment, the confidence rounded to four places,
    a star rating, an emoji and a signed sentiment score.
  * `analyze` rejects empty or blank texts, classifies the first 500
    characters, and turns classifier exceptions into error records.
  * `analyze_batch` analyzes a list of texts and tags each result with its
    position.
* **The history store** (`DataManager` in `data_loader.py`).
  * An in-memory list of stored analyses: saving stamps a record and keeps
    only the last 1000.
  * Reading the most recent records follows Python's negative slicing.
  * Clearing empties the history.
  * The statistics summary has three shapes: no data, no valid results, or
    the full summary. The full summary holds counts, percentages, averages
    and the timestamp of the last valid analysis.
* **The batch summary** (`calculate_batch_stats` in `main.py`).
* **The text preprocessor** (`TextPreprocessor` in `preprocessing.py`).
  * The cleaning pipeline runs emoji-to-word conversion, URL, mention,
    hashtag and HTML-tag rewriting, whitespace collapsing and trimming.
  * Stop-word removal, the accent-stripping normaliser, the feature
    extractor and batch cleaning.

## How the model is built

Modules follow the program's structure:

| file | contents |
|---|---|
| `wrappers.dfy` | two helper datatypes, `Option` and `Result` |
| `text.dfy` | Python's string primitives the core relies on: `str.strip`, `str.split`, `' '.join`, `str.replace`, `str.lower` / `str.upper`, `str.count`, `re.sub(r'\s+', ' ', …)`, and the character classes `\s`, `\w`, `\d` |
| `numeric.dfy` | `round(x, n)` as round-half-to-even on exact reals, `int()` on a token, `str()` of a natural number, sums and means |
| `patterns.dfy` | the regular-expression rewrites of the preprocessor, each written out as a scanning function |
| `analyzer.dfy` | `_process_result`, `analyze` and `analyze_batch` |
| `preprocessing.dfy` | the methods of `TextPreprocessor` |
| `statistics.dfy` | the two statistics reducers |
| `history.dfy` | `DataManager` as a class whose `history` field the methods reassign |

How the source's code maps onto Dafny:

* **Loops.**
  * `_convert_emojis` and the accent loop of `normalize_text` are methods
    with loops, proved against folds (`ReplaceAll`, `StripAccents`).
  * `analyze_batch` is a method whose loop is proved against `BatchItem`.
* **The classifier.** It is a function parameter `classify` that returns
  either the first prediction or the exception message.
* **Clocks.** `time.time()` differences and `datetime.now().isoformat()`
  are parameters.
* **Files.** The history and statistics files are ghost fields holding what
  was last written. Whether a write succeeds is a parameter.

## Model

| member | source | states |
|---|---|---|
| Text.LowerChar | sentiment-analysis-app/src/utils/preprocessing.py:110 | lower-casing a character leaves no upper-case character, changes nothing else, and keeps whitespace as whitespace |
| Text.Lower | sentiment-analysis-app/src/utils/preprocessing.py:110 | `text.lower()` keeps the length and lower-cases character by character |
| Text.UpperAscii | sentiment-analysis-app/src/utils/preprocessing.py:165 | on ASCII text `upper()` keeps the length, maps `a`..`z` to `A`..`Z` and keeps every other character |
| Text.CollapseSpaces | sentiment-analysis-app/src/utils/preprocessing.py:81 | the result is empty only for the empty text; it starts with whitespace exactly when the input does; its only whitespace is single plain spaces; every other character comes from the input and is not whitespace |
| Text.FilterCollapse | sentiment-analysis-app/src/utils/preprocessing.py:143 | collapsing whitespace keeps every non-whitespace character, all of them and in order |
| Text.FilterStrip | sentiment-analysis-app/src/utils/preprocessing.py:145 | stripping keeps every non-whitespace character, all of them and in order |
| Text.JoinSpaced | sentiment-analysis-app/src/utils/preprocessing.py:113 | words joined by one space give a trimmed text whose only whitespace is single plain spaces |
| Text.CollapseKeepsWords | sentiment-analysis-app/src/utils/preprocessing.py:81 | collapsing whitespace does not change the words of a text: `split()` gives the same list before and after |
| Text.StripKeepsCollapsed | sentiment-analysis-app/src/utils/preprocessing.py:81-84 | stripping a collapsed text leaves it single-spaced, with no leading or trailing space, and adds no character |
| Text.StripCollapsed | sentiment-analysis-app/src/utils/preprocessing.py:81-84 | collapse-then-strip always yields a single-spaced text whose characters are spaces or non-whitespace characters of the input |
| Text.StripCollapsedKeeps | sentiment-analysis-app/src/utils/preprocessing.py:143-145 | any character property that holds of the input and of the space holds of the collapsed and stripped text |
| Text.StripTrims | sentiment-analysis-app/src/utils/preprocessing.py:84 | `strip()` is the slice of the text that starts after its leading whitespace; what is cut off at either end is whitespace, and the result neither starts nor ends with whitespace |
| Text.StripUnchanged | sentiment-analysis-app/src/utils/preprocessing.py:84 | `strip()` leaves a text without leading or trailing whitespace unchanged |
| Text.StripEmpty | sentiment-analysis-app/src/models/model.py:51 | `text.strip()` is empty exactly when every character of the text is whitespace |
| Text.WordsStrip | sentiment-analysis-app/src/utils/preprocessing.py:84 | stripping a text does not change its words |
| Text.Words | sentiment-analysis-app/src/utils/preprocessing.py:110 | every element of `split()` is a nonempty run without whitespace |
| Text.WordsOfJoin | sentiment-analysis-app/src/utils/preprocessing.py:110-113 | splitting the space-join of a list of words gives back the same list |
| Text.JoinChars | sentiment-analysis-app/src/utils/preprocessing.py:113 | every character of a space-join is a space or a character of one of the joined words |
| Text.WordsChars | sentiment-analysis-app/src/utils/preprocessing.py:110 | every character of a word of `split()` is a character of the text |
| Text.WordsOfWordStart | sentiment-analysis-app/src/utils/preprocessing.py:110 | a word followed by whitespace (or nothing) is the first element of `split()`, and the rest is the split of what follows |
| Text.ContainsIff | sentiment-analysis-app/src/utils/preprocessing.py:163 | `h in s` holds exactly when `h` occurs in `s` at some position |
| Text.ContainsChar | sentiment-analysis-app/src/utils/preprocessing.py:163 | a one-character string is contained exactly when the character occurs |
| Text.ReplaceAbsent | sentiment-analysis-app/src/utils/preprocessing.py:91 | `replace(g, w)` leaves a text that does not contain `g` unchanged |
| Text.ReplaceNoOccurrence | sentiment-analysis-app/src/utils/preprocessing.py:91 | for a pattern `h` sharing no character with `w`, `replace(g, w)` leaves no occurrence of `h` when `h` is `g` or did not occur before |
| Text.ReplaceChars | sentiment-analysis-app/src/utils/preprocessing.py:91 | every character after `replace` comes from the text or from the replacement |
| Text.CountIsMultiplicity | sentiment-analysis-app/src/utils/preprocessing.py:160-161 | `text.count(c)` is the number of occurrences of `c` in the text |
| Text.CountBound | sentiment-analysis-app/src/utils/preprocessing.py:160-161 | `text.count(c)` is at most the length of the text |
| Numeric.Round | sentiment-analysis-app/src/models/model.py:143 | `round(x, n)` scaled by 10^n is the integer nearest to x·10^n, ties going to the even one, so it lies within half a unit of the n-th decimal place of `x` |
| Numeric.RoundNegate | sentiment-analysis-app/src/models/model.py:146 | rounding commutes with negation, so `round(-score, 4) == -round(score, 4)` |
| Numeric.RoundUnit | sentiment-analysis-app/src/models/model.py:143 | a score in [0, 1] stays in [0, 1] after rounding |
| Numeric.Show | sentiment-analysis-app/src/models/model.py:126 | `str(n)` of a natural number is a nonempty string of decimal digits |
| Numeric.ShowValue | sentiment-analysis-app/src/models/model.py:126 | the digits of `str(n)` denote n |
| Numeric.ParseShow | sentiment-analysis-app/src/models/model.py:126 | `int()` reads back the decimal digits of every natural number |
| Numeric.ParseSigned | sentiment-analysis-app/src/models/model.py:126 | `int()` reads a leading `-` as negation and a leading `+` as no change |
| Numeric.ParseBlank | sentiment-analysis-app/src/models/model.py:126 | `int()` of a blank string fails |
| Numeric.SumBounds | sentiment-analysis-app/src/data/data_loader.py:104 | the sum of n values in [lo, hi] lies in [n·lo, n·hi] |
| Numeric.Mean | sentiment-analysis-app/src/data/data_loader.py:104 | `sum(xs) / len(xs)` times the length is the sum |
| Numeric.MeanBounds | sentiment-analysis-app/src/data/data_loader.py:104 | the mean of values in [lo, hi] lies in [lo, hi] |
| Analyzer.Truncated | sentiment-analysis-app/src/models/model.py:55 | the analyzed text is the first 500 characters, or the whole text when shorter |
| Analyzer.Abbreviated | sentiment-analysis-app/src/models/model.py:106 | a batch error keeps the text when it has at most 100 characters, otherwise its first 100 followed by "..." |
| Analyzer.StarLabelHasToken | sentiment-analysis-app/src/models/model.py:125-126 | a label containing "star" always has a first token, so `split()[0]` cannot fail |
| Analyzer.StarVerdict | sentiment-analysis-app/src/models/model.py:128-139 | a star verdict keeps the star count and is coherent: the signed score agrees with the sentiment, and at most 2 stars is negative, 3 neutral, at least 4 positive |
| Analyzer.StarScheme | sentiment-analysis-app/src/models/model.py:125-139 | the star scheme succeeds exactly when the first token parses; then the stars are the parsed value and the verdict is coherent; no token fails with the index-error message and an unparsable token with `int()`'s invalid-literal message |
| Analyzer.StarSchemeParsed | sentiment-analysis-app/src/models/model.py:126-139 | a first token parsing to n gives the star verdict for n |
| Analyzer.StarLabel | sentiment-analysis-app/src/models/model.py:125-140 | with first token parsing to n: n ≤ 2 is negative with negated score, n = 3 neutral with score 0, n ≥ 4 positive with the score kept; stars is n |
| Analyzer.StarLabelUnparsable | sentiment-analysis-app/src/models/model.py:126 | a star label whose first token is not an integer fails with `int()`'s invalid-literal message |
| Analyzer.BinaryVerdict | sentiment-analysis-app/src/models/model.py:151-161 | a binary verdict is coherent, positive exactly for POSITIVE in any case or LABEL_1, never neutral; positive gets 4 stars above 0.9 and 5 otherwise, negative 2 above 0.9 and 1 otherwise |
| Analyzer.BinaryLabel | sentiment-analysis-app/src/models/model.py:151-161 | a label without "star" takes the binary verdict |
| Analyzer.Interpret | sentiment-analysis-app/src/models/model.py:124-161 | a successful verdict of either scheme is coherent; only a star label can fail |
| Analyzer.FiveStarLabel | sentiment-analysis-app/src/models/model.py:125-126 | the labels "n star" and "n stars" are read as n stars |
| Analyzer.RoundSigned | sentiment-analysis-app/src/models/model.py:131-146 | rounding the signed score equals signing the rounded score, so `round(-score, 4)`, `round(0, 4)` and `round(score, 4)` agree with the signed confidence |
| Analyzer.ProcessResult | sentiment-analysis-app/src/models/model.py:121-170 | `_process_result` succeeds exactly when the label is interpreted; the record keeps the raw label, its confidence is the score rounded to 4 places, its emoji is its sentiment's, its signed score is the confidence signed by the sentiment, and its stars are the verdict's; only a star label can fail |
| Analyzer.Normalize | sentiment-analysis-app/src/models/model.py:141-148 | the normalised record carries the verdict's sentiment and stars, the raw label, the rounded confidence, the sentiment's emoji and the rounded signed score, which is the signed rounded confidence |
| Analyzer.Analyze | sentiment-analysis-app/src/models/model.py:51-83 | `analyze` raises exactly for a blank text, with the empty-text message; a returned record holds the full text and the processing time rounded to 3 places, and no timestamp or index |
| Analyzer.AnalyzeRejectsBlank | sentiment-analysis-app/src/models/model.py:51-52 | `analyze` raises exactly when `text.strip()` is empty, with the message "El texto no puede estar vacío" |
| Analyzer.AnalyzeConsultsTruncated | sentiment-analysis-app/src/models/model.py:55-62 | two classifiers that agree on the first 500 characters give the same analysis |
| Analyzer.AnalyzeSuccess | sentiment-analysis-app/src/models/model.py:55-83 | a returned record is a sentiment record exactly when the classifier and `_process_result` both succeed on `text[:500]`; such a record carries the analyzed prefix, the truncation flag, the length and the fields of `_process_result` of the prediction |
| Analyzer.AnalyzeFailureIsRecord | sentiment-analysis-app/src/models/model.py:78-83 | a classifier exception, or an unparsable star label, is returned as an error record carrying the message, the text and the time |
| Analyzer.BatchItem | sentiment-analysis-app/src/models/model.py:97-107 | item i carries index i; a blank text becomes an error record with the empty-text message and the abbreviated text; any other text is the record `analyze` returns with the index added |
| Analyzer.AnalyzeBatch | sentiment-analysis-app/src/models/model.py:95-109 | one result per text, in order, each being item i of the batch |
| Analyzer.BatchItemBlank | sentiment-analysis-app/src/models/model.py:102-107 | a blank text becomes an error record with the empty-text message, the abbreviated text and its index |
| Analyzer.BatchItemAnalyzed | sentiment-analysis-app/src/models/model.py:98-101 | any other text is the record `analyze` returns, with its index added |
| Patterns.UrlLength | sentiment-analysis-app/src/utils/preprocessing.py:69 | a URL match spans the scheme and the longest run of URL characters after it |
| Patterns.RemoveUrls | sentiment-analysis-app/src/utils/preprocessing.py:69 | URL removal only deletes characters: the result is a subsequence of the text |
| Patterns.NoUrlLeft | sentiment-analysis-app/src/utils/preprocessing.py:69 | no URL match starts anywhere in the result |
| Patterns.UrlsUnchanged | sentiment-analysis-app/src/utils/preprocessing.py:69 | URL removal changes the text exactly when a URL match starts somewhere in it |
| Patterns.RemoveMentions | sentiment-analysis-app/src/utils/preprocessing.py:72 | mention removal only deletes characters: the result is a subsequence of the text |
| Patterns.NoMentionLeft | sentiment-analysis-app/src/utils/preprocessing.py:72 | no `@` followed by a word character is left |
| Patterns.MentionsUnchanged | sentiment-analysis-app/src/utils/preprocessing.py:72 | mention removal changes the text exactly when it holds a mention |
| Patterns.UnwrapIsDrop | sentiment-analysis-app/src/utils/preprocessing.py:75 | replacing `#word` by `word` is the same as deleting every `#` that is followed by a word character |
| Patterns.DropHashMarks | sentiment-analysis-app/src/utils/preprocessing.py:75 | deleting hash marks yields a subsequence of the text |
| Patterns.HashtagsDelete | sentiment-analysis-app/src/utils/preprocessing.py:75 | unwrapping hashtags only deletes characters: the result is a subsequence of the text |
| Patterns.HashtagOfWord | sentiment-analysis-app/src/utils/preprocessing.py:75 | a hashtag of one word becomes that word |
| Patterns.HashtagsUnchanged | sentiment-analysis-app/src/utils/preprocessing.py:75 | a text without hashtags is unchanged |
| Patterns.CloseAt | sentiment-analysis-app/src/utils/preprocessing.py:78 | the lazy match of a tag ends at the first `>` before any newline, and there is none when the line has no `>` |
| Patterns.RemoveTags | sentiment-analysis-app/src/utils/preprocessing.py:78 | tag removal only deletes characters: the result is a subsequence of the text |
| Patterns.NoTagLeft | sentiment-analysis-app/src/utils/preprocessing.py:78 | no `<` closed by a `>` on its line is left |
| Patterns.TagsUnchanged | sentiment-analysis-app/src/utils/preprocessing.py:78 | tag removal leaves the text unchanged exactly when no tag starts anywhere in it |
| Patterns.PunctuationClass | sentiment-analysis-app/src/utils/preprocessing.py:137 | the punctuation ranges are exactly the 31 characters the class `[` + `string.punctuation` + `]` matches: all of `string.punctuation` except the backslash, which escapes the `]` after it |
| Patterns.PunctuationToSpace | sentiment-analysis-app/src/utils/preprocessing.py:137 | no punctuation is left, and every other character is a space or comes from the input |
| Patterns.PunctuationKeeps | sentiment-analysis-app/src/utils/preprocessing.py:137 | the characters that are neither punctuation nor spaces are kept, all of them and in order |
| Patterns.DigitsToNum | sentiment-analysis-app/src/utils/preprocessing.py:140 | no digit is left, and every other character comes from "NUM" or from the input |
| Patterns.DigitsKeep | sentiment-analysis-app/src/utils/preprocessing.py:140 | the characters that are neither digits nor letters of "NUM" are kept, all of them and in order |
| Patterns.NumberToken | sentiment-analysis-app/src/utils/preprocessing.py:140 | a maximal run of digits becomes exactly one "NUM" |
| Preprocessing.EmojiTableSeparated | sentiment-analysis-app/src/utils/preprocessing.py:25-47 | every emoji is nonempty and shares no character with any spaced replacement word |
| Preprocessing.ConvertEmojis | sentiment-analysis-app/src/utils/preprocessing.py:88-92 | the loop computes the in-order fold of `replace` over the table and leaves no emoji of the table in the text |
| Preprocessing.ReplaceAllClears | sentiment-analysis-app/src/utils/preprocessing.py:88-92 | the fold over any separated table leaves none of its glyphs |
| Preprocessing.CleanText | sentiment-analysis-app/src/utils/preprocessing.py:59-86 | the empty text stays empty; every result is trimmed and single-spaced |
| Preprocessing.RewrittenDeletes | sentiment-analysis-app/src/utils/preprocessing.py:68-78 | the URL, mention, hashtag and tag rewrites together only delete characters of the emoji-converted text |
| Preprocessing.CleanTextWords | sentiment-analysis-app/src/utils/preprocessing.py:80-86 | the cleaned text has the same words as the rewritten text: whitespace normalising and trimming change only whitespace |
| Preprocessing.CleanRemovesSingleGlyphs | sentiment-analysis-app/src/utils/preprocessing.py:63-86 | an emoji of one code point never survives cleaning |
| Preprocessing.BatchClean | sentiment-analysis-app/src/utils/preprocessing.py:170-180 | one cleaned text per input, in order |
| Preprocessing.BatchCleanSpaced | sentiment-analysis-app/src/utils/preprocessing.py:170-180 | every cleaned text of a batch is trimmed and single-spaced |
| Preprocessing.KeepMembers | sentiment-analysis-app/src/utils/preprocessing.py:111 | a word is kept exactly when it is in the list and not a stop word |
| Preprocessing.KeepNothingStopped | sentiment-analysis-app/src/utils/preprocessing.py:108-111 | with the empty stop set every word is kept, in order |
| Preprocessing.KeepWords | sentiment-analysis-app/src/utils/preprocessing.py:111 | the kept words are still words |
| Preprocessing.RemoveStopwords | sentiment-analysis-app/src/utils/preprocessing.py:94-113 | splitting the result gives exactly the lower-cased words that are not stop words of the language, in order, and the result is those words joined by single spaces: trimmed, with no whitespace but single plain spaces |
| Preprocessing.RemoveStopwordsFilters | sentiment-analysis-app/src/utils/preprocessing.py:94-113 | no word of the result is a stop word and each is a word of the lower-cased text |
| Preprocessing.RemoveStopwordsOtherLanguage | sentiment-analysis-app/src/utils/preprocessing.py:105-113 | for any language other than "es" the result is the lower-cased words rejoined |
| Preprocessing.RemoveStopwordsLowercase | sentiment-analysis-app/src/utils/preprocessing.py:110-113 | the result holds no upper-case character |
| Preprocessing.AccentTableSeparated | sentiment-analysis-app/src/utils/preprocessing.py:129-134 | no accented letter of the table is a replacement, a space or a letter of "NUM" |
| Preprocessing.AccentTableLetters | sentiment-analysis-app/src/utils/preprocessing.py:129-132 | the table replaces exactly á é í ó ú ñ ü |
| Preprocessing.AccentsCleared | sentiment-analysis-app/src/utils/preprocessing.py:133-134 | after the first i replacements none of the first i accented letters is left |
| Preprocessing.AfterAccents | sentiment-analysis-app/src/utils/preprocessing.py:136-145 | after the accent loop the remaining steps leave a single-spaced text with no digit, punctuation or accented letter |
| Preprocessing.Normalized | sentiment-analysis-app/src/utils/preprocessing.py:115-145 | the normal form holds no digit, punctuation or table accent and is trimmed and single-spaced |
| Preprocessing.AccentsLower | sentiment-analysis-app/src/utils/preprocessing.py:129-134 | the accent replacements bring in no upper-case character |
| Preprocessing.StrippedLower | sentiment-analysis-app/src/utils/preprocessing.py:126-134 | after lower-casing and the accent loop no character is upper case |
| Preprocessing.NormalizedLowercase | sentiment-analysis-app/src/utils/preprocessing.py:115-145 | the normal form holds no upper-case character other than the letters of the `NUM` put for numbers |
| Preprocessing.NormalizeStepsKeep | sentiment-analysis-app/src/utils/preprocessing.py:136-145 | the punctuation, digit and whitespace steps keep every character that is not whitespace, punctuation, a digit or a letter of `NUM`, all of them and in order |
| Preprocessing.NormalizedKeeps | sentiment-analysis-app/src/utils/preprocessing.py:115-145 | every character of the lower-cased, accent-stripped text that is not whitespace, punctuation or a digit appears in the normal form, unchanged and in order, and apart from the inserted `NUM` letters nothing else does |
| Preprocessing.NormalizeText | sentiment-analysis-app/src/utils/preprocessing.py:115-145 | the method computes the normal form |
| Preprocessing.CountUpperIndices | sentiment-analysis-app/src/utils/preprocessing.py:162 | the upper-case count is the number of positions holding an upper-case character |
| Preprocessing.CountUpperZero | sentiment-analysis-app/src/utils/preprocessing.py:162 | the upper-case count is 0 exactly when no character is upper case |
| Preprocessing.UppercaseRatio | sentiment-analysis-app/src/utils/preprocessing.py:162 | the ratio is the upper-case count over max(len, 1), lies in [0, 1] and is 0 exactly when no character is upper case |
| Preprocessing.HasGlyph | sentiment-analysis-app/src/utils/preprocessing.py:163 | the scan finds a glyph exactly when some glyph of the table occurs in the text |
| Preprocessing.HasTriple | sentiment-analysis-app/src/utils/preprocessing.py:164 | the scan finds a run exactly when some non-newline character occurs three times in a row |
| Preprocessing.ExtractFeatures | sentiment-analysis-app/src/utils/preprocessing.py:147-168 | length and word count; the `!` and `?` counts are their multiplicities; the ratio as above; `has_emoji` exactly when some emoji of the table occurs; `repeated_chars` exactly when some non-newline character occurs three times in a row; `all_caps` exactly when the text is longer than 3, has an upper-case and no lower-case character |
| Statistics.LastValid | sentiment-analysis-app/src/data/data_loader.py:108 | the record found is a valid one |
| Statistics.CountValidPositive | sentiment-analysis-app/src/data/data_loader.py:75-77 | there are valid results exactly when some record carries a sentiment |
| Statistics.LastValidExists | sentiment-analysis-app/src/data/data_loader.py:108 | a last valid record exists exactly when the valid count is positive |
| Statistics.LastValidIsLatest | sentiment-analysis-app/src/data/data_loader.py:108 | the last valid record is at a position after which no record is valid |
| Statistics.SentimentsPartition | sentiment-analysis-app/src/data/data_loader.py:94-98 | the three sentiment counts add up to the valid count |
| Statistics.ValidIndices | sentiment-analysis-app/src/data/data_loader.py:75 | the valid count is the number of positions holding a valid record |
| Statistics.SentimentCount | sentiment-analysis-app/src/data/data_loader.py:85-97 | each sentiment count is the number of valid records with that sentiment |
| Statistics.CountWhereIndices | sentiment-analysis-app/src/data/data_loader.py:75 | a filtered count is the number of positions satisfying the filter |
| Statistics.ValuesCount | sentiment-analysis-app/src/data/data_loader.py:86-88 | a collected list has one value per record carrying one |
| Statistics.ValuesMembers | sentiment-analysis-app/src/data/data_loader.py:86-88 | a value is collected exactly when some record carries it |
| Statistics.ValuesBounded | sentiment-analysis-app/src/data/data_loader.py:104 | values of records within bounds are collected within those bounds |
| Statistics.StatisticsOf | sentiment-analysis-app/src/data/data_loader.py:61-114 | an empty history gives the no-data summary with total 0 and only it does; a no-valid summary counts every record as an error; a failure is the missing-timestamp error; a full summary comes from a history with valid records and is the full summary for the latest valid record's timestamp |
| Statistics.FullStatistics | sentiment-analysis-app/src/data/data_loader.py:90-109 | the full summary totals the history, counts its valid records and its errors so they add up, counts the sentiments so they add up to the valid count, and carries the given timestamp |
| Statistics.StatisticsNoValid | sentiment-analysis-app/src/data/data_loader.py:74-82 | the no-valid summary is given exactly for a nonempty history of error records, all counted as errors |
| Statistics.StatisticsTotals | sentiment-analysis-app/src/data/data_loader.py:90-98 | in the full summary: total is the history length, valid plus errors is the total, valid is the number of valid positions, the sentiment counts add up to valid |
| Statistics.LastAnalysis | sentiment-analysis-app/src/data/data_loader.py:108 | the summary fails (the `KeyError`) exactly when the latest valid record has no timestamp; otherwise `last_analysis` is that record's timestamp |
| Statistics.SharesSum | sentiment-analysis-app/src/data/data_loader.py:99-103 | before rounding the three percentages add up to 100 |
| Statistics.FullStatisticsFigures | sentiment-analysis-app/src/data/data_loader.py:99-103 | each percentage is its count's share of the valid records rounded to 2 places, and the unrounded shares add up to 100 |
| Statistics.StatisticsPercentages | sentiment-analysis-app/src/data/data_loader.py:99-103 | the same for the summary `get_statistics` returns |
| Statistics.AverageConfidence | sentiment-analysis-app/src/data/data_loader.py:86-104 | the confidences averaged are those of exactly the valid records, one per valid record, and the average is their mean rounded to 4 places |
| Statistics.AverageConfidenceBounded | sentiment-analysis-app/src/data/data_loader.py:104 | with confidences in [0, 1] the average confidence lies in [0, 1] |
| Statistics.AverageStars | sentiment-analysis-app/src/data/data_loader.py:87-105 | the stars averaged are exactly those of the valid records that carry stars, and the average is their mean rounded to 2 places, or 0 when there are none |
| Statistics.AverageProcessingTime | sentiment-analysis-app/src/data/data_loader.py:88-107 | the times averaged are exactly those of valid records that carry one, and the average is their mean rounded to 3 places, or 0 |
| Statistics.BatchStatisticsOf | src/main.py:229-254 | the batch summary is empty exactly when no result is valid; otherwise total, valid and errors agree and the sentiment counts add up to valid |
| Statistics.BatchStatisticsShape | src/main.py:229-254 | valid is the number of valid positions; each percentage is its count's share rounded to 2 places, the shares adding up to 100; the average confidence is the mean of one confidence per valid result rounded to 4 places |
| Statistics.BatchAgreesWithHistory | src/main.py:229-254 | for any timestamp, the batch summary and the full history summary of the same records agree on total, valid, errors, counts, percentages and average confidence |
| History.Retained | sentiment-analysis-app/src/data/data_loader.py:50-52 | the kept records are the last min(1000, n) of the history |
| History.Stamped | sentiment-analysis-app/src/data/data_loader.py:45 | a saved record carries the given timestamp and keeps its kind |
| History.SliceFrom | sentiment-analysis-app/src/data/data_loader.py:180 | Python's `s[k:]` is a suffix of `s`; for k ≥ 0 it has max(n − k, 0) elements, for k < 0 min(−k, n) |
| History.DataManager.constructor | sentiment-analysis-app/src/data/data_loader.py:13-35 | the history and the history file start as what was loaded; no statistics file is written yet |
| History.DataManager.SaveAnalysis | sentiment-analysis-app/src/data/data_loader.py:37-59 | the history becomes the last 1000 of the old history plus the stamped record; the file holds it only if the write succeeds |
| History.DataManager.Recent | sentiment-analysis-app/src/data/data_loader.py:170-180 | `history[-limit:]`: for a positive limit the last min(limit, n) records; for 0 the whole history; for a negative limit all but the first -limit; always a suffix |
| History.DataManager.ClearHistory | sentiment-analysis-app/src/data/data_loader.py:182-187 | the history and its file become empty |
| History.DataManager.GetStatistics | sentiment-analysis-app/src/data/data_loader.py:61-122 | the result is the summary of the history, which is unchanged; only a full summary is written, and only if the write succeeds |
| History.SavedLast | sentiment-analysis-app/src/data/data_loader.py:45-52 | after a save the history holds at most 1000 records and its last is the stamped record |
| History.SaveEvictsOldest | sentiment-analysis-app/src/data/data_loader.py:48-52 | below 1000 a save only appends; at 1000 it also drops exactly the oldest record |
| History.SaveKeepsOrder | sentiment-analysis-app/src/data/data_loader.py:48-52 | the saved history is a suffix of the old one followed by the new record |
| History.StampedKeepsFields | sentiment-analysis-app/src/data/data_loader.py:45 | the timestamp is the only field a save changes |

## Left out

- Floating point: scores, confidences, times and averages are exact reals, and `round` is round-half-to-even on those reals. Binary-float effects such as `round(2.675, 2) == 2.67` are not modelled.
- Character classes beyond U+00FF: `\w`, `str.isupper`/`islower` and `lower()`/`upper()` are exact up to U+00FF. Beyond it letters count as uncased non-word characters. Whitespace (`\s`, `str.split`, `str.strip`) is exact for all of Unicode.
- Analyzer.InvalidLiteralMessage: the token is quoted with plain single quotes. Python's `repr` would choose a different quote or escape characters for tokens containing quotes or non-printable characters.
- The classifier: loading the pretrained pipeline, `get_model_info` and the model's internals are outside the model. The classifier is a parameter. A raw result without `label` or `score` keys is not modelled.
- The clock: `time.time()` and `datetime.now().isoformat()` are not modelled. The elapsed time and the timestamp string are parameters.
- Files and printing:
  - the history and statistics files are ghost fields;
  - whether a write succeeds is a parameter;
  - the directory creation and the printed messages are left out.
- `_load_history`: the JSON parsing is left out. The constructor takes the records that were read, with `[]` for a missing or unreadable file.
- `load_csv_data` and `export_results`: pandas and file output are left out.
- The web routes of `main.py`: everything except `calculate_batch_stats` is request handling and is left out.
- Stored records: they are limited to the two shapes the analyzer produces (`Record`). A hand-edited history with records missing `confidence` or holding other sentiments is not modelled.
- `clean_text`'s `str(text)` conversion and `analyze`'s `not text` test on `None`: inputs are always strings here.
- History.DataManager.SaveAnalysis: the record passed in is not modified. In Python, `result['timestamp'] = …` also changes the caller's dict (aliasing).
- History.DataManager.Recent: the default `limit=10` is not modelled. The limit is always given.
- Preprocessing.CleanText: its own contract states the shape of the result only (trimmed, single-spaced). `RewrittenDeletes` and `CleanTextWords` relate it to its input: the rewrites only delete characters of the emoji-converted text, and the whitespace steps keep the words. The absence of URLs, mentions, hashtags and tags is stated for each step on its own (`NoUrlLeft`, `NoMentionLeft`, `UnwrapIsDrop`, `NoTagLeft`), because a later step can create a new match of an earlier pattern: removing the tag in `@<b>ana` leaves the mention `@ana`.
- Digits: `\d` in `re.sub(r'\d+', 'NUM', …)` and the digits `int()` accepts are the ASCII digits `0`..`9` here. Python also accepts the other Unicode decimal digits (such as Arabic-Indic digits); they are treated as ordinary characters.
- Preprocessing.RemoveStopwords: the default `language='es'` is not modelled. The language is always given.
- History.DataManager.ClearHistory: a failing `os.remove` (the exception it would raise) is not modelled. The file always ends up empty, and "the file is missing" and "the file is empty" are the same state here.
- Patterns.PunctuationKeeps: the kept characters are those that are neither punctuation nor spaces. Where the inserted spaces fall among the original spaces is stated by `PunctuationToSpace` only.
- History.DataManager.constructor: an unreadable history file is modelled by the records the caller passes in, `[]` as `_load_history` returns (data_loader.py:33-34). A file left partly written by a `json.dump` that fails after truncating it (data_loader.py:55-59) is modelled as still holding the last value that was read or written.
- Patterns.DigitsKeep: the kept characters exclude the letters `N`, `U` and `M` as well as the digits, because the rewrite inserts those letters. `normalize_text` lower-cases first, so no upper-case `N`, `U` or `M` reaches this step from the input.
