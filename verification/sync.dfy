/**
 * The one piece of the clock-synchronisation loop that is not capture, OCR or
 * concurrency: after each recognition attempt the shared current-date cell is
 * overwritten when, and only when, a date was recognised.
 */
module Sync {
  import opened Wrappers
  import opened Calendar
  import DateParser

  /** One cycle's write to the shared cell. There is no monotonicity check:
      an earlier date overwrites a later one. */
  function SyncStep(cell: Date, recognised: Option<Date>): Date {
    match recognised
    case None => cell
    case Some(d) => d
  }

  /** One cycle from the OCR text onward. Text that does not have the date's
      shape after trimming leaves the cell as it was; otherwise the cell holds
      whatever the parser made of it, if anything. */
  function SyncCycle(cell: Date, text: string): (r: Date)
    ensures DateParser.MatchDate(DateParser.Trim(text)).None? ==> r == cell
    ensures DateParser.Recognize(text).Some? ==> r == DateParser.Recognize(text).value
    ensures DateParser.Recognize(text).None? ==> r == cell
  {
    SyncStep(cell, DateParser.Recognize(text))
  }

  /** The cell after a run of cycles with the given recognition results: it
      is untouched when nothing was recognised, and otherwise holds one of the
      recognised dates. */
  function SyncRun(cell: Date, results: seq<Option<Date>>): (r: Date)
    ensures (forall i :: 0 <= i < |results| ==> results[i].None?) ==> r == cell
    ensures (exists i :: 0 <= i < |results| && results[i].Some?) ==>
      exists i :: 0 <= i < |results| && results[i] == Some(r)
    decreases |results|
  {
    if |results| == 0 then cell
    else
      assert forall i :: 1 <= i < |results| ==> results[i] == results[1..][i - 1];
      SyncRun(SyncStep(cell, results[0]), results[1..])
  }

  /** The most recent successful recognition in a run, if any: a success
      after which nothing else was recognised. */
  function LastRecognised(results: seq<Option<Date>>): (r: Option<Date>)
    ensures r.Some? ==>
      exists i :: 0 <= i < |results| && results[i] == r &&
        forall j :: i < j < |results| ==> results[j].None?
    ensures r.None? <==> forall i :: 0 <= i < |results| ==> results[i].None?
  {
    if |results| == 0 then None
    else if results[|results| - 1].Some? then results[|results| - 1]
    else LastRecognised(results[..|results| - 1])
  }

  /** After any run the cell holds the latest successful recognition, or its
      starting value when nothing was recognised. */
  lemma {:induction false} SyncRunKeepsLatest(cell: Date, results: seq<Option<Date>>)
    ensures SyncRun(cell, results) ==
      (match LastRecognised(results) case Some(d) => d case None => cell)
    decreases |results|
  {
    if |results| > 0 {
      var next := SyncStep(cell, results[0]);
      SyncRunKeepsLatest(next, results[1..]);
      var tail := results[1..];
      if LastRecognised(tail).None? {
        assert forall i :: 0 <= i < |tail| ==> tail[i].None?;
        assert forall i :: 1 <= i < |results| ==> results[i] == tail[i - 1];
        LastRecognisedIsPrefixOrHead(results);
      } else {
        LastRecognisedOfTail(results);
      }
    }
  }

  /** When the tail of a run recognised nothing, the run's last recognition
      is its first element's. */
  lemma {:induction false} LastRecognisedIsPrefixOrHead(results: seq<Option<Date>>)
    requires |results| > 0
    requires forall i :: 1 <= i < |results| ==> results[i].None?
    ensures LastRecognised(results) == results[0]
    decreases |results|
  {
    if |results| > 1 {
      LastRecognisedIsPrefixOrHead(results[..|results| - 1]);
    }
  }

  /** A recognition in the tail of a run is the run's last recognition. */
  lemma {:induction false} LastRecognisedOfTail(results: seq<Option<Date>>)
    requires |results| > 0
    requires LastRecognised(results[1..]).Some?
    ensures LastRecognised(results) == LastRecognised(results[1..])
    decreases |results|
  {
    var n := |results|;
    if results[n - 1].None? {
      assert results[1..][..n - 2] == results[..n - 1][1..];
      LastRecognisedOfTail(results[..n - 1]);
    }
  }

  /** Overwriting is unconditional: a reloaded earlier save moves the cell
      backwards. */
  lemma SyncMayMoveBackwards()
    ensures SyncRun(Date(2300, 1, 1), [Some(Date(2250, 1, 1))]) == Date(2250, 1, 1)
    ensures Cmp(Date(2250, 1, 1), Date(2300, 1, 1)) == Less
  {
  }
}
