/** The two statistics reducers over stored records: the history summary of
    `DataManager.get_statistics` and the batch summary of
    `calculate_batch_stats`. A record counts as valid when it carries a
    sentiment, which is the `Valid` variant. */
module Statistics {
  import opened Wrappers
  import opened Numeric
  import opened Analyzer

  const NoDataMessage := "No hay datos hist\U{F3}ricos a\U{FA}n"

  /** The message of the `KeyError` raised by `valid_results[-1]['timestamp']`
      when the latest valid record has no timestamp. */
  const MissingTimestampMessage := "'timestamp'"

  datatype Counts = Counts(positive: nat, negative: nat, neutral: nat)

  datatype Percentages = Percentages(positive: real, negative: real, neutral: real)

  /** The dict `get_statistics` returns, in each of its three shapes. */
  datatype Statistics =
    | NoData(totalAnalyzed: nat, message: string)
    | NoValid(totalAnalyzed: nat, validResults: nat, errors: nat)
    | Full(totalAnalyzed: nat, validResults: nat, errors: nat, sentiments: Counts,
           percentages: Percentages, averageConfidence: real, averageStars: real,
           averageProcessingTime: real, lastAnalysis: string)

  /** The dict `calculate_batch_stats` returns: empty, or the summary. */
  datatype BatchStatistics =
    | NoResults
    | Summary(total: nat, valid: nat, errors: nat, sentiments: Counts,
              averageConfidence: real, percentages: Percentages)

  // ---------------------------------------------------------------------------
  // Counting and collecting

  /** The number of records satisfying `p`. */
  function CountWhere(rs: seq<Record>, p: Record -> bool): (n: nat)
    ensures n <= |rs|
  {
    if rs == [] then 0
    else CountWhere(rs[..|rs| - 1], p) + (if p(rs[|rs| - 1]) then 1 else 0)
  }

  predicate IsValid(r: Record) {
    r.Valid?
  }

  /** `len([h for h in rs if 'sentiment' in h])` */
  function CountValid(rs: seq<Record>): nat {
    CountWhere(rs, IsValid)
  }

  /** `sentiments.count(label)` over the valid records. */
  function CountSentiment(rs: seq<Record>, s: Sentiment): nat {
    CountWhere(rs, HasSentiment(s))
  }

  /** The test `r.get('sentiment') == s`. */
  function HasSentiment(s: Sentiment): Record -> bool {
    (r: Record) => r.Valid? && r.sentiment == s
  }

  function CountsOf(rs: seq<Record>): Counts {
    Counts(CountSentiment(rs, Positive), CountSentiment(rs, Negative), CountSentiment(rs, Neutral))
  }

  /** `[f(r) for r in rs if f(r) is present]`, in order. */
  function Values(rs: seq<Record>, f: Record -> Option<real>): seq<real> {
    if rs == [] then []
    else Values(rs[..|rs| - 1], f) + (if f(rs[|rs| - 1]).Some? then [f(rs[|rs| - 1]).value] else [])
  }

  /** The test that `f` has a value for a record. */
  function Present(f: Record -> Option<real>): Record -> bool {
    (r: Record) => f(r).Some?
  }

  /** The confidence of a valid record. */
  function ConfidenceOf(r: Record): Option<real> {
    if r.Valid? then Some(r.confidence) else None
  }

  /** The stars of a valid record that carries them. */
  function StarsOf(r: Record): Option<real> {
    if r.Valid? && r.stars.Some? then Some(r.stars.value as real) else None
  }

  /** The processing time of a valid record that carries one. */
  function ProcessingTimeOf(r: Record): Option<real> {
    if r.Valid? && r.processingTime.Some? then Some(r.processingTime.value) else None
  }

  /** `round(sum(xs) / len(xs), n) if xs else 0` */
  function MeanOrZero(xs: seq<real>, n: nat): real {
    if xs == [] then 0.0 else Round(Mean(xs), n)
  }

  /** The share of a count in a total, in percent, before rounding. */
  function Share(count: nat, total: nat): real
    requires total > 0
  {
    count as real / total as real * 100.0
  }

  /** `round(count / total * 100, 2)` for each sentiment. */
  function PercentagesOf(c: Counts, total: nat): Percentages
    requires total > 0
  {
    Percentages(Round(Share(c.positive, total), 2), Round(Share(c.negative, total), 2),
                Round(Share(c.neutral, total), 2))
  }

  /** The latest valid record, `valid_results[-1]`. */
  function LastValid(rs: seq<Record>): (r: Option<Record>)
    ensures r.Some? ==> r.value.Valid?
  {
    if rs == [] then None
    else if rs[|rs| - 1].Valid? then Some(rs[|rs| - 1])
    else LastValid(rs[..|rs| - 1])
  }

  // ---------------------------------------------------------------------------
  // The reducers

  /** `get_statistics` over a history. A `Failure` is the `KeyError` raised
      when the latest valid record has no timestamp. */
  function StatisticsOf(history: seq<Record>): (r: Result<Statistics>)
    ensures history == [] ==> r == Success(NoData(0, NoDataMessage))
    ensures r.Success? && r.value.NoData? ==> history == []
    ensures r.Success? && r.value.NoValid? ==> r.value == NoValid(|history|, 0, |history|)
    ensures r.Failure? ==> r.error == MissingTimestampMessage
    ensures r.Success? && r.value.Full? ==>
      && CountValid(history) > 0 && LastValid(history).Some?
      && LastValid(history).value.timestamp == Some(r.value.lastAnalysis)
      && r.value == FullStatistics(history, r.value.lastAnalysis)
  {
    var valid := CountValid(history);
    if history == [] then Success(NoData(0, NoDataMessage))
    else if valid == 0 then Success(NoValid(|history|, 0, |history|))
    else
      LastValidExists(history);
      match LastValid(history).value.timestamp
      case None => Failure(MissingTimestampMessage)
      case Some(t) => Success(FullStatistics(history, t))
  }

  /** The full summary of a history with valid records, whose latest valid
      record has timestamp `t`. */
  function FullStatistics(history: seq<Record>, t: string): (s: Statistics)
    requires CountValid(history) > 0
    ensures s.Full? && s.totalAnalyzed == |history| && s.validResults == CountValid(history)
    ensures s.validResults + s.errors == s.totalAnalyzed
    ensures s.sentiments == CountsOf(history)
    ensures s.sentiments.positive + s.sentiments.negative + s.sentiments.neutral == s.validResults
    ensures s.lastAnalysis == t
  {
    var valid := CountValid(history);
    var counts := CountsOf(history);
    SentimentsPartition(history);
    Full(|history|, valid, |history| - valid, counts,
         PercentagesOf(counts, valid),
         MeanOrZero(Values(history, ConfidenceOf), 4),
         MeanOrZero(Values(history, StarsOf), 2),
         MeanOrZero(Values(history, ProcessingTimeOf), 3),
         t)
  }

  /** `calculate_batch_stats` over the records of a batch. */
  function BatchStatisticsOf(results: seq<Record>): (b: BatchStatistics)
    ensures b.NoResults? <==> CountValid(results) == 0
    ensures b.Summary? ==>
      && b.total == |results| && b.valid == CountValid(results) && b.valid + b.errors == b.total
      && b.sentiments == CountsOf(results)
      && b.sentiments.positive + b.sentiments.negative + b.sentiments.neutral == b.valid
  {
    var valid := CountValid(results);
    if valid == 0 then NoResults
    else
      var counts := CountsOf(results);
      SentimentsPartition(results);
      Summary(|results|, valid, |results| - valid, counts,
              MeanOrZero(Values(results, ConfidenceOf), 4),
              PercentagesOf(counts, valid))
  }

  // ---------------------------------------------------------------------------
  // Facts about counting

  /** A count is the number of positions whose record satisfies `p`. */
  lemma {:induction false} CountWhereIndices(rs: seq<Record>, p: Record -> bool)
    ensures CountWhere(rs, p) == |set i | 0 <= i < |rs| && p(rs[i])|
  {
    if rs != [] {
      CountWhereIndices(rs[..|rs| - 1], p);
      IndicesStep(rs, p);
    }
  }

  /** The positions of `rs` that satisfy `p` are those of its front, plus the
      last position when the last record satisfies `p`. */
  lemma IndicesStep(rs: seq<Record>, p: Record -> bool)
    requires rs != []
    ensures var front := rs[..|rs| - 1];
      |set i | 0 <= i < |rs| && p(rs[i])|
        == |set i | 0 <= i < |front| && p(front[i])| + (if p(rs[|rs| - 1]) then 1 else 0)
  {
    var front := rs[..|rs| - 1];
    var before := set i | 0 <= i < |front| && p(front[i]);
    var all := set i | 0 <= i < |rs| && p(rs[i]);
    var n := |rs| - 1;
    var last := if p(rs[n]) then {n} else {};
    assert all == before + last by {
      forall i ensures i in all <==> i in before + last {
        if 0 <= i < n {
          assert front[i] == rs[i];
        }
      }
    }
    assert before !! last by {
      assert n !in before;
    }
    assert |before + last| == |before| + |last|;
  }

  /** Some record is valid exactly when the valid count is positive. */
  lemma {:induction false} CountValidPositive(rs: seq<Record>)
    ensures CountValid(rs) > 0 <==> exists i :: 0 <= i < |rs| && rs[i].Valid?
  {
    if rs != [] {
      var front := rs[..|rs| - 1];
      CountValidPositive(front);
      if exists i :: 0 <= i < |front| && front[i].Valid? {
        var i :| 0 <= i < |front| && front[i].Valid?;
        assert rs[i].Valid?;
      }
      if exists i :: 0 <= i < |rs| && rs[i].Valid? {
        var i :| 0 <= i < |rs| && rs[i].Valid?;
        if i < |front| {
          assert front[i].Valid?;
        }
      }
    }
  }

  lemma {:induction false} LastValidExists(rs: seq<Record>)
    ensures LastValid(rs).Some? <==> CountValid(rs) > 0
  {
    if rs != [] {
      LastValidExists(rs[..|rs| - 1]);
    }
  }

  /** `valid_results[-1]` is the valid record with no valid record after it. */
  lemma {:induction false} LastValidIsLatest(rs: seq<Record>)
    requires LastValid(rs).Some?
    ensures exists i :: 0 <= i < |rs| && rs[i] == LastValid(rs).value
                        && forall j :: i < j < |rs| ==> !rs[j].Valid?
  {
    var n := |rs| - 1;
    if rs[n].Valid? {
      assert rs[n] == LastValid(rs).value;
    } else {
      var front := rs[..n];
      assert LastValid(rs) == LastValid(front);
      LastValidIsLatest(front);
      var i :| 0 <= i < |front| && front[i] == LastValid(front).value
               && forall j :: i < j < |front| ==> !front[j].Valid?;
      assert rs[i] == LastValid(rs).value;
      assert forall j :: i < j < |rs| ==> !rs[j].Valid? by {
        forall j | i < j < |rs| ensures !rs[j].Valid? {
          if j < n { assert rs[j] == front[j]; }
        }
      }
    }
  }

  /** Every valid record has exactly one of the three sentiments. */
  lemma {:induction false} SentimentsPartition(rs: seq<Record>)
    ensures CountSentiment(rs, Positive) + CountSentiment(rs, Negative) + CountSentiment(rs, Neutral)
         == CountValid(rs)
  {
    if rs != [] {
      SentimentsPartition(rs[..|rs| - 1]);
    }
  }

  /** The collected values are those of the records that have one, in order:
      one per such record. */
  lemma {:induction false} ValuesCount(rs: seq<Record>, f: Record -> Option<real>)
    ensures |Values(rs, f)| == CountWhere(rs, Present(f))
  {
    if rs != [] {
      ValuesCount(rs[..|rs| - 1], f);
    }
  }

  /** One value is collected per position whose record has one. */
  lemma PresentIndices(rs: seq<Record>, f: Record -> Option<real>)
    ensures |Values(rs, f)| == |set i | 0 <= i < |rs| && f(rs[i]).Some?|
  {
    ValuesCount(rs, f);
    CountWhereIndices(rs, Present(f));
    assert (set i | 0 <= i < |rs| && Present(f)(rs[i])) == (set i | 0 <= i < |rs| && f(rs[i]).Some?);
  }

  /** A value is collected exactly when some record has it. */
  lemma {:induction false} ValuesMembers(rs: seq<Record>, f: Record -> Option<real>)
    ensures forall x :: x in Values(rs, f) <==> exists i :: 0 <= i < |rs| && f(rs[i]) == Some(x)
  {
    if rs != [] {
      var front := rs[..|rs| - 1];
      ValuesMembers(front, f);
      forall x ensures x in Values(rs, f) <==> exists i :: 0 <= i < |rs| && f(rs[i]) == Some(x) {
        if exists i :: 0 <= i < |front| && f(front[i]) == Some(x) {
          var i :| 0 <= i < |front| && f(front[i]) == Some(x);
          assert f(rs[i]) == Some(x);
        }
        if exists i :: 0 <= i < |rs| && f(rs[i]) == Some(x) {
          var i :| 0 <= i < |rs| && f(rs[i]) == Some(x);
          if i < |front| {
            assert f(front[i]) == Some(x);
          }
        }
      }
    }
  }

  /** Every collected value satisfies what every record's value satisfies. */
  lemma {:induction false} ValuesBounded(rs: seq<Record>, f: Record -> Option<real>, lo: real, hi: real)
    requires forall i :: 0 <= i < |rs| && f(rs[i]).Some? ==> lo <= f(rs[i]).value <= hi
    ensures forall k :: 0 <= k < |Values(rs, f)| ==> lo <= Values(rs, f)[k] <= hi
  {
    if rs != [] {
      var front := rs[..|rs| - 1];
      assert forall i :: 0 <= i < |front| ==> front[i] == rs[i];
      ValuesBounded(front, f, lo, hi);
    }
  }

  // ---------------------------------------------------------------------------
  // Facts about the reducers

  /** A nonempty history without valid records is reported as all errors. */
  lemma StatisticsNoValid(history: seq<Record>)
    ensures StatisticsOf(history).Success? && StatisticsOf(history).value.NoValid? <==>
              history != [] && forall i :: 0 <= i < |history| ==> !history[i].Valid?
    ensures StatisticsOf(history).Success? && StatisticsOf(history).value.NoValid? ==>
              StatisticsOf(history) == Success(NoValid(|history|, 0, |history|))
  {
    CountValidPositive(history);
  }

  /** In a full summary, valid and error records add up to the total, the
      valid ones are those carrying a sentiment, and the sentiment counts add
      up to the valid ones. */
  lemma StatisticsTotals(history: seq<Record>)
    requires StatisticsOf(history).Success? && StatisticsOf(history).value.Full?
    ensures var s := StatisticsOf(history).value;
      && s.totalAnalyzed == |history|
      && s.validResults + s.errors == s.totalAnalyzed
      && s.validResults == |set i | 0 <= i < |history| && history[i].Valid?|
      && s.sentiments.positive + s.sentiments.negative + s.sentiments.neutral == s.validResults
  {
    SentimentsPartition(history);
    ValidIndices(history);
  }

  /** The valid count is the number of positions holding a valid record. */
  lemma ValidIndices(rs: seq<Record>)
    ensures CountValid(rs) == |set i | 0 <= i < |rs| && rs[i].Valid?|
  {
    var p: Record -> bool := IsValid;
    CountWhereIndices(rs, p);
    assert (set i | 0 <= i < |rs| && p(rs[i])) == (set i | 0 <= i < |rs| && rs[i].Valid?);
  }

  /** Each sentiment count is the number of valid records with that
      sentiment. */
  lemma SentimentCount(rs: seq<Record>, s: Sentiment)
    ensures CountSentiment(rs, s) == |set i | 0 <= i < |rs| && rs[i].Valid? && rs[i].sentiment == s|
  {
    CountWhereIndices(rs, HasSentiment(s));
    assert (set i | 0 <= i < |rs| && HasSentiment(s)(rs[i]))
        == (set i | 0 <= i < |rs| && rs[i].Valid? && rs[i].sentiment == s);
  }

  /** `get_statistics` fails exactly when the latest valid record has no
      timestamp; otherwise `last_analysis` is that record's timestamp. */
  lemma LastAnalysis(history: seq<Record>)
    ensures StatisticsOf(history).Failure? <==>
              LastValid(history).Some? && LastValid(history).value.timestamp.None?
    ensures StatisticsOf(history).Success? && StatisticsOf(history).value.Full? ==>
              exists i :: 0 <= i < |history| && history[i].Valid?
                && history[i].timestamp == Some(StatisticsOf(history).value.lastAnalysis)
                && forall j :: i < j < |history| ==> !history[j].Valid?
  {
    LastValidExists(history);
    if LastValid(history).Some? {
      LastValidIsLatest(history);
    }
  }

  /** Before rounding, the three percentages add up to 100. */
  lemma SharesSum(c: Counts, total: nat)
    requires total > 0 && c.positive + c.negative + c.neutral == total
    ensures Share(c.positive, total) + Share(c.negative, total) + Share(c.neutral, total) == 100.0
  {
    var t := total as real;
    var a, b, d := c.positive as real, c.negative as real, c.neutral as real;
    assert a + b + d == t;
    QuotientSum(a, b, d, t);
  }

  lemma QuotientSum(a: real, b: real, d: real, t: real)
    requires t > 0.0 && a + b + d == t
    ensures a / t * 100.0 + b / t * 100.0 + d / t * 100.0 == 100.0
  {
    assert a / t + b / t + d / t == (a + b + d) / t;
  }

  /** The percentages of a full summary are its counts' shares of the valid
      records, which add up to 100 before rounding. */
  lemma StatisticsPercentages(history: seq<Record>)
    requires StatisticsOf(history).Success? && StatisticsOf(history).value.Full?
    ensures var s := StatisticsOf(history).value;
      && s.percentages.positive == Round(Share(s.sentiments.positive, s.validResults), 2)
      && s.percentages.negative == Round(Share(s.sentiments.negative, s.validResults), 2)
      && s.percentages.neutral == Round(Share(s.sentiments.neutral, s.validResults), 2)
      && Share(s.sentiments.positive, s.validResults) + Share(s.sentiments.negative, s.validResults)
         + Share(s.sentiments.neutral, s.validResults) == 100.0
  {
    SentimentsPartition(history);
    SharesSum(CountsOf(history), CountValid(history));
  }

  /** When every valid record's confidence is in [0, 1], so is the average. */
  lemma AverageConfidenceBounded(history: seq<Record>)
    requires forall i :: 0 <= i < |history| && history[i].Valid? ==> 0.0 <= history[i].confidence <= 1.0
    requires StatisticsOf(history).Success? && StatisticsOf(history).value.Full?
    ensures 0.0 <= StatisticsOf(history).value.averageConfidence <= 1.0
  {
    var xs := Values(history, ConfidenceOf);
    ValuesBounded(history, ConfidenceOf, 0.0, 1.0);
    if xs != [] {
      MeanBounds(xs, 0.0, 1.0);
      RoundUnit(Mean(xs), 4);
    }
  }

  /** `average_stars` is the rounded mean of the stars of exactly the valid
      records that carry them, one value per such record, or 0 when none
      does. */
  lemma AverageStars(history: seq<Record>)
    requires StatisticsOf(history).Success? && StatisticsOf(history).value.Full?
    ensures var xs := Values(history, StarsOf);
      && |xs| == |set i | 0 <= i < |history| && history[i].Valid? && history[i].stars.Some?|
      && (forall x :: x in xs <==>
            (exists i :: 0 <= i < |history| && history[i].Valid? && history[i].stars.Some?
                         && history[i].stars.value as real == x))
      && StatisticsOf(history).value.averageStars == (if xs == [] then 0.0 else Round(Mean(xs), 2))
  {
    StarsCounted(history);
    StarsCollected(history);
  }

  lemma StarsCounted(history: seq<Record>)
    ensures |Values(history, StarsOf)|
         == |set i | 0 <= i < |history| && history[i].Valid? && history[i].stars.Some?|
  {
    var f: Record -> Option<real> := StarsOf;
    PresentIndices(history, f);
    assert (set i | 0 <= i < |history| && f(history[i]).Some?)
        == (set i | 0 <= i < |history| && history[i].Valid? && history[i].stars.Some?);
  }

  lemma StarsCollected(history: seq<Record>)
    ensures forall x :: x in Values(history, StarsOf) <==>
              (exists i :: 0 <= i < |history| && history[i].Valid? && history[i].stars.Some?
                           && history[i].stars.value as real == x)
  {
    var f: Record -> Option<real> := StarsOf;
    ValuesMembers(history, f);
    assert forall i :: 0 <= i < |history| ==>
      (f(history[i]).Some? <==> history[i].Valid? && history[i].stars.Some?);
  }

  /** `average_processing_time` is the rounded mean over exactly the valid
      records that carry a processing time, or 0 when none does. */
  lemma AverageProcessingTime(history: seq<Record>)
    requires StatisticsOf(history).Success? && StatisticsOf(history).value.Full?
    ensures var xs := Values(history, ProcessingTimeOf);
      && |xs| == |set i | 0 <= i < |history| && history[i].Valid? && history[i].processingTime.Some?|
      && (forall x :: x in xs <==>
            (exists i :: 0 <= i < |history| && history[i].Valid? && history[i].processingTime == Some(x)))
      && StatisticsOf(history).value.averageProcessingTime == (if xs == [] then 0.0 else Round(Mean(xs), 3))
  {
    TimesCounted(history);
    TimesCollected(history);
  }

  lemma TimesCounted(history: seq<Record>)
    ensures |Values(history, ProcessingTimeOf)|
         == |set i | 0 <= i < |history| && history[i].Valid? && history[i].processingTime.Some?|
  {
    var f: Record -> Option<real> := ProcessingTimeOf;
    PresentIndices(history, f);
    assert (set i | 0 <= i < |history| && f(history[i]).Some?)
        == (set i | 0 <= i < |history| && history[i].Valid? && history[i].processingTime.Some?);
  }

  lemma TimesCollected(history: seq<Record>)
    ensures forall x :: x in Values(history, ProcessingTimeOf) <==>
              (exists i :: 0 <= i < |history| && history[i].Valid? && history[i].processingTime == Some(x))
  {
    var f: Record -> Option<real> := ProcessingTimeOf;
    ValuesMembers(history, f);
    assert forall i :: 0 <= i < |history| ==>
      (f(history[i]).Some? <==> history[i].Valid? && history[i].processingTime.Some?);
  }

  /** The percentages of a full summary are the counts' shares of the valid
      records rounded to two places; before rounding they add up to 100. */
  lemma FullStatisticsFigures(history: seq<Record>, t: string)
    requires CountValid(history) > 0
    ensures var s := FullStatistics(history, t);
      && s.percentages.positive == Round(Share(s.sentiments.positive, s.validResults), 2)
      && s.percentages.negative == Round(Share(s.sentiments.negative, s.validResults), 2)
      && s.percentages.neutral == Round(Share(s.sentiments.neutral, s.validResults), 2)
      && Share(s.sentiments.positive, s.validResults) + Share(s.sentiments.negative, s.validResults)
         + Share(s.sentiments.neutral, s.validResults) == 100.0
  {
    SentimentsPartition(history);
    SharesSum(CountsOf(history), CountValid(history));
  }

  /** `average_confidence` is the mean of the confidences of exactly the
      valid records, one value per valid record, rounded to four places. */
  lemma AverageConfidence(history: seq<Record>, t: string)
    requires CountValid(history) > 0
    ensures var xs := Values(history, ConfidenceOf);
      && |xs| == CountValid(history) && xs != []
      && (forall x :: x in xs <==>
            (exists i :: 0 <= i < |history| && history[i].Valid? && history[i].confidence == x))
      && FullStatistics(history, t).averageConfidence == Round(Mean(xs), 4)
  {
    ConfidencesCounted(history);
    ConfidencesCollected(history);
  }

  lemma ConfidencesCounted(history: seq<Record>)
    ensures |Values(history, ConfidenceOf)| == CountValid(history)
  {
    var f: Record -> Option<real> := ConfidenceOf;
    PresentIndices(history, f);
    ValidIndices(history);
    assert (set i | 0 <= i < |history| && f(history[i]).Some?)
        == (set i | 0 <= i < |history| && history[i].Valid?);
  }

  lemma ConfidencesCollected(history: seq<Record>)
    ensures forall x :: x in Values(history, ConfidenceOf) <==>
              (exists i :: 0 <= i < |history| && history[i].Valid? && history[i].confidence == x)
  {
    var f: Record -> Option<real> := ConfidenceOf;
    ValuesMembers(history, f);
    assert forall i :: 0 <= i < |history| ==> (f(history[i]).Some? <==> history[i].Valid?);
  }

  /** `calculate_batch_stats` is empty exactly when no result is valid;
      otherwise valid and error results add up to the total, the sentiment
      counts add up to the valid ones, the percentages are their shares of
      the valid results rounded to two places (adding up to 100 before
      rounding), and the average confidence is the rounded mean of the valid
      results' confidences, one per valid result. */
  lemma BatchStatisticsShape(results: seq<Record>)
    ensures BatchStatisticsOf(results).NoResults? <==> forall i :: 0 <= i < |results| ==> !results[i].Valid?
    ensures BatchStatisticsOf(results).Summary? ==>
              var b := BatchStatisticsOf(results);
              && b.valid == |set i | 0 <= i < |results| && results[i].Valid?|
              && b.percentages.positive == Round(Share(b.sentiments.positive, b.valid), 2)
              && b.percentages.negative == Round(Share(b.sentiments.negative, b.valid), 2)
              && b.percentages.neutral == Round(Share(b.sentiments.neutral, b.valid), 2)
              && Share(b.sentiments.positive, b.valid) + Share(b.sentiments.negative, b.valid)
                 + Share(b.sentiments.neutral, b.valid) == 100.0
              && |Values(results, ConfidenceOf)| == b.valid
              && b.averageConfidence == Round(Mean(Values(results, ConfidenceOf)), 4)
  {
    CountValidPositive(results);
    ValidIndices(results);
    if CountValid(results) > 0 {
      SentimentsPartition(results);
      SharesSum(CountsOf(results), CountValid(results));
      ConfidencesCounted(results);
    }
  }

  /** The batch summary of some records is the history summary those
      records would get, whatever the latest timestamp: the two agree on
      every figure they share. */
  lemma BatchAgreesWithHistory(rs: seq<Record>, t: string)
    requires BatchStatisticsOf(rs).Summary?
    ensures CountValid(rs) > 0
    ensures var b, s := BatchStatisticsOf(rs), FullStatistics(rs, t);
      && b.total == s.totalAnalyzed && b.valid == s.validResults && b.errors == s.errors
      && b.sentiments == s.sentiments && b.percentages == s.percentages
      && b.averageConfidence == s.averageConfidence
  {
  }
}
