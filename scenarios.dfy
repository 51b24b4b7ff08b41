/**
 * Example polls and failure runs, stated against the model.
 * A body such as `10, 100, 50, 100, 50, 100, 50` is written as the rendering
 * of its seven values with one space before every value but the first.
 */
module Scenarios {
  import opened Wrappers
  import opened GoStrings
  import opened Stats
  import opened Scheduler

  const CommaSpace: seq<string> := ["", " ", " ", " ", " ", " ", " "]
  const NoPadding: seq<string> := ["", "", "", "", "", "", ""]

  /** The body an endpoint writes for `m`, with `, ` between the values. */
  function Body(m: Metrics): string {
    RenderLine(m, CommaSpace, NoPadding)
  }

  /** The agent reads such a body back and evaluates exactly its values. */
  lemma BodyOutcome(m: Metrics)
    requires m.FitsInt64()
    ensures Outcome(Some(Body(m))) == Some(Evaluate(m))
  {
    assert forall i :: 0 <= i < FieldCount ==> AllSpace(CommaSpace[i]) && AllSpace(NoPadding[i]);
    RoundTrip(m, CommaSpace, NoPadding);
  }

  /** Nothing is over its limit; the poll succeeds and prints nothing. */
  lemma QuietPoll()
    ensures Outcome(Some(Body(Metrics(10, 100, 50, 100, 50, 100, 50)))) == Some([])
  {
    var m := Metrics(10, 100, 50, 100, 50, 100, 50);
    assert m.FitsInt64();
    assert Evaluate(m) == [];
    BodyOutcome(m);
  }

  /** A load average of 35 alone is reported. */
  lemma HighLoad()
    ensures Outcome(Some(Body(Metrics(35, 100, 50, 100, 50, 100, 50)))) == Some([LoadTooHigh(35)])
  {
    var m := Metrics(35, 100, 50, 100, 50, 100, 50);
    assert m.FitsInt64();
    assert Evaluate(m) == [LoadTooHigh(35)];
    BodyOutcome(m);
  }

  /**
   * When 90 percent of memory and 95 percent of the disk are used, the
   * memory percentage is printed, then the free disk space, which is under
   * one Mb and so reads as 0.
   */
  lemma MemoryAndDisk()
    ensures Outcome(Some(Body(Metrics(10, 100, 90, 1000000, 950000, 100, 50))))
      == Some([MemoryTooHigh(90), DiskSpaceLow(0)])
  {
    var m := Metrics(10, 100, 90, 1000000, 950000, 100, 50);
    assert m.FitsInt64();
    assert MemoryCheck(100, 90) == [MemoryTooHigh(90)];
    assert DiskCheck(1000000, 950000) == [DiskSpaceLow(0)];
    assert Evaluate(m) == [MemoryTooHigh(90), DiskSpaceLow(0)];
    BodyOutcome(m);
  }

  /** A line without exactly six commas fails the poll, whatever else it holds. */
  lemma WrongFieldCount(body: string)
    requires Count(TrimSpace(body), ',') != FieldCount - 1
    ensures Outcome(Some(body)) == None
  {
  }

  /** A failed request or an error status fails the poll. */
  lemma NoResponse()
    ensures Outcome(None) == None
  {
  }

  /**
   * Three failed polls in a row print the alert once, after the
   * third; a fourth failure does not print it again.
   */
  lemma ThreeFailures()
    ensures Replay(0, [false, false, false]) == (0, [false, false, true])
    ensures Replay(0, [false, false, false, false]) == (1, [false, false, true, false])
  {
    FailureRun(0, 3);
    FailureRun(0, 4);
    assert Failures(3) == [false, false, false];
    assert Failures(4) == [false, false, false, false];
    assert seq(3, i => (0 + i + 1) % 3 == 0) == [false, false, true];
    assert seq(4, i => (0 + i + 1) % 3 == 0) == [false, false, true, false];
  }

  /**
   * The thresholds apply to the truncated percentage: 80.5 percent of memory
   * or 90.5 percent of the disk warns nothing, while 81 and 91 percent do.
   */
  lemma ThresholdEdges()
    ensures MemoryCheck(1000, 805) == [] && MemoryCheck(1000, 810) == [MemoryTooHigh(81)]
    ensures DiskCheck(1000, 905) == [] && DiskCheck(1000, 910) != []
  {
    assert Percent(810, 1000) == 81;
  }
}
