/** `DataManager`: the in-memory analysis history and its operations. The
    history file and the statistics file are ghost copies of what was last
    written; whether a write succeeds, and the clock, are parameters. */
module History {
  import opened Wrappers
  import opened Analyzer
  import opened Statistics

  /** The number of records `save_analysis` keeps. */
  const MaxHistory := 1000

  /** `history[-1000:]` once the history has grown past 1000 records. */
  function Retained(h: seq<Record>): (r: seq<Record>)
    ensures |r| == if |h| > MaxHistory then MaxHistory else |h|
    ensures r == h[|h| - |r|..]
  {
    if |h| > MaxHistory then h[|h| - MaxHistory..] else h
  }

  /** `result['timestamp'] = now` */
  function Stamped(r: Record, now: string): (s: Record)
    ensures s.timestamp == Some(now)
    ensures s.Valid? == r.Valid?
  {
    r.(timestamp := Some(now))
  }

  /** `s[k:]` with Python's reading of a start index: a negative one counts
      from the end, and both kinds are clamped to the sequence. */
  function SliceFrom<T>(s: seq<T>, k: int): (r: seq<T>)
    ensures |r| <= |s| && r == s[|s| - |r|..]
    ensures 0 <= k ==> |r| == if k >= |s| then 0 else |s| - k
    ensures k < 0 ==> |r| == if -k >= |s| then |s| else -k
  {
    var start := if k < 0 then (if -k > |s| then 0 else |s| + k) else (if k > |s| then |s| else k);
    s[start..]
  }

  class DataManager {
    /** `self.history`, oldest first. */
    var history: seq<Record>
    /** What the history file holds. */
    ghost var historyFile: seq<Record>
    /** What the statistics file holds, once written. */
    ghost var statisticsFile: Option<Statistics>

    /** `DataManager()`: the history starts as what `_load_history` read,
        which is `[]` when there is no file or it cannot be read. */
    constructor(loaded: seq<Record>)
      ensures history == loaded
      ensures historyFile == loaded
      ensures statisticsFile == None
    {
      history := loaded;
      historyFile := loaded;
      statisticsFile := None;
    }

    /** `save_analysis`: stamp the record, append it, keep the last 1000, and
        write the history out; a failed write is reported and swallowed, so
        the in-memory history is updated either way. */
    method SaveAnalysis(result: Record, now: string, writeSucceeds: bool)
      modifies this
      ensures history == Retained(old(history) + [Stamped(result, now)])
      ensures historyFile == if writeSucceeds then history else old(historyFile)
      ensures statisticsFile == old(statisticsFile)
    {
      var stamped := result.(timestamp := Some(now));
      history := history + [stamped];
      if |history| > MaxHistory {
        history := history[|history| - MaxHistory..];
      }
      if writeSucceeds {
        historyFile := history;
      }
    }

    /** `get_recent_analyses(limit)`: `history[-limit:]`, or `[]` for an empty
        history. For `limit >= 1` that is the last `min(limit, len)` records
        in order; `-0` is `0`, so `limit == 0` gives the whole history; and
        a negative limit drops the first `-limit` records. */
    function Recent(limit: int): (r: seq<Record>)
      reads this
      ensures limit >= 1 ==> |r| == (if limit < |history| then limit else |history|)
      ensures limit == 0 ==> r == history
      ensures limit < 0 ==> |r| == (if -limit < |history| then |history| + limit else 0)
      ensures r == history[|history| - |r|..]
    {
      if history == [] then [] else SliceFrom(history, -limit)
    }

    /** `clear_history`: the history is emptied and its file removed. */
    method ClearHistory()
      modifies this
      ensures history == []
      ensures historyFile == []
      ensures statisticsFile == old(statisticsFile)
    {
      history := [];
      historyFile := [];
    }

    /** `get_statistics`: the summary of the history, which stays unchanged;
        only a full summary is written to the statistics file, and only when
        that write succeeds. */
    method GetStatistics(writeSucceeds: bool) returns (stats: Result<Statistics>)
      modifies this
      ensures stats == StatisticsOf(history)
      ensures history == old(history) && historyFile == old(historyFile)
      ensures statisticsFile ==
        if writeSucceeds && stats.Success? && stats.value.Full? then Some(stats.value)
        else old(statisticsFile)
    {
      stats := StatisticsOf(history);
      if writeSucceeds && stats.Success? && stats.value.Full? {
        statisticsFile := Some(stats.value);
      }
    }
  }

  // ---------------------------------------------------------------------------
  // Facts about saving

  /** After a save the history holds at most 1000 records and ends with the
      stamped record. */
  lemma SavedLast(h: seq<Record>, r: Record, now: string)
    ensures |Retained(h + [Stamped(r, now)])| <= MaxHistory
    ensures Retained(h + [Stamped(r, now)])[|Retained(h + [Stamped(r, now)])| - 1] == Stamped(r, now)
  {
  }

  /** Below the bound a save only appends; at the bound it also evicts the
      single oldest record, keeping the rest in order. */
  lemma SaveEvictsOldest(h: seq<Record>, r: Record, now: string)
    requires |h| <= MaxHistory
    ensures |h| < MaxHistory ==> Retained(h + [Stamped(r, now)]) == h + [Stamped(r, now)]
    ensures |h| == MaxHistory ==> Retained(h + [Stamped(r, now)]) == h[1..] + [Stamped(r, now)]
  {
    var s := h + [Stamped(r, now)];
    if |h| == MaxHistory {
      assert s[1..] == h[1..] + [Stamped(r, now)];
    }
  }

  /** Saving keeps every record that survives in its place relative to the
      others: the result is a suffix of the old history plus the new record. */
  lemma SaveKeepsOrder(h: seq<Record>, r: Record, now: string)
    ensures var n := |Retained(h + [Stamped(r, now)])| - 1;
      Retained(h + [Stamped(r, now)]) == h[|h| - n..] + [Stamped(r, now)]
  {
    var s := h + [Stamped(r, now)];
    var t := Retained(s);
    var n := |t| - 1;
    assert t == s[|s| - |t|..];
    assert s[|s| - |t|..] == h[|h| - n..] + [Stamped(r, now)];
  }

  /** A saved error record stays an error record: the timestamp is the only
      field a save changes. */
  lemma StampedKeepsFields(r: Record, now: string)
    ensures Stamped(r, now).(timestamp := r.timestamp) == r
  {
  }
}
