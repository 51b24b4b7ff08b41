/**
 * The main loop of the agent (`main` in main.go): on every tick it polls once
 * and keeps a count of consecutive failed polls; the third failure in a row
 * prints "Unable to fetch server statistic" and starts the count again.
 */
module Scheduler {
  import opened Wrappers
  import Stats

  const AlertThreshold: int := 3

  /**
   * One tick of the failure counter: the count after the poll and whether the
   * "unable to fetch" alert is printed. A success resets the count; the
   * alert is printed only on a failure, and always resets the count.
   */
  function Step(count: int, ok: bool): (r: (int, bool))
    ensures ok ==> r == (0, false)
    ensures r.1 ==> !ok && r.0 == 0
    ensures !ok && !r.1 ==> r.0 == count + 1
    ensures count >= 0 ==> 0 <= r.0 < AlertThreshold
    ensures !ok && count >= 0 ==> (r.1 <==> count >= AlertThreshold - 1)
  {
    if !ok then
      var failures := count + 1;
      if failures >= AlertThreshold then (0, true) else (failures, false)
    else
      (0, false)
  }

  /**
   * The counter driven by a sequence of poll outcomes: the count at the end
   * and, for each tick, whether the alert was printed.
   */
  function Replay(count: int, oks: seq<bool>): (r: (int, seq<bool>))
    ensures |r.1| == |oks|
    ensures 0 <= count < AlertThreshold ==> 0 <= r.0 < AlertThreshold
  {
    if oks == [] then (count, [])
    else
      var before := Replay(count, oks[..|oks| - 1]);
      var after := Step(before.0, oks[|oks| - 1]);
      (after.0, before.1 + [after.1])
  }

  /** How many times the alert was printed. */
  function Alerts(printed: seq<bool>): nat {
    if printed == [] then 0
    else Alerts(printed[..|printed| - 1]) + (if printed[|printed| - 1] then 1 else 0)
  }

  function Failures(n: nat): seq<bool> {
    seq(n, _ => false)
  }

  /**
   * From a count `c` in 0..2, a run of `n` failures prints the alert on
   * exactly those failures that bring the total to a multiple of three, and
   * leaves the count at the remainder.
   */
  lemma {:induction false} FailureRun(c: int, n: nat)
    requires 0 <= c < AlertThreshold
    ensures Replay(c, Failures(n)).0 == (c + n) % 3
    ensures Replay(c, Failures(n)).1 == seq(n, i => (c + i + 1) % 3 == 0)
  {
    if n > 0 {
      assert Failures(n)[..n - 1] == Failures(n - 1);
      FailureRun(c, n - 1);
      assert seq(n, i => (c + i + 1) % 3 == 0) == seq(n - 1, i => (c + i + 1) % 3 == 0) + [(c + n) % 3 == 0];
    }
  }

  lemma {:induction false} AlertsOfRun(c: int, n: nat)
    requires 0 <= c < AlertThreshold
    ensures Alerts(seq(n, i => (c + i + 1) % 3 == 0)) == (c + n) / 3
  {
    if n > 0 {
      var s := seq(n, i => (c + i + 1) % 3 == 0);
      assert s[..n - 1] == seq(n - 1, i => (c + i + 1) % 3 == 0);
      AlertsOfRun(c, n - 1);
    }
  }

  /**
   * Starting from zero, `n` consecutive failures print the alert `n / 3`
   * times: on failures 3, 6, 9, and so on.
   */
  lemma StreakAlerts(n: nat)
    ensures Alerts(Replay(0, Failures(n)).1) == n / 3
    ensures forall i :: 0 <= i < n ==> (Replay(0, Failures(n)).1[i] <==> (i + 1) % 3 == 0)
  {
    FailureRun(0, n);
    AlertsOfRun(0, n);
  }

  /** A success after any history resets the count and prints nothing. */
  lemma SuccessResets(c: int, oks: seq<bool>)
    ensures Replay(c, oks + [true]) == (0, Replay(c, oks).1 + [false])
  {
    assert (oks + [true])[..|oks|] == oks;
  }

  /** The failure right after an alert does not print it again: the count restarts at one. */
  lemma NoImmediateRealert(c: int, oks: seq<bool>)
    requires oks != [] && Replay(c, oks).1[|oks| - 1]
    ensures Replay(c, oks + [false]) == (1, Replay(c, oks).1 + [false])
  {
    assert (oks + [false])[..|oks|] == oks;
    assert oks == oks[..|oks| - 1] + [oks[|oks| - 1]];
  }

  /** The consecutive-failure counter `numOfErrResp`. */
  class FailureCounter {
    var count: int

    ghost predicate Valid()
      reads this
    {
      0 <= count < AlertThreshold
    }

    constructor ()
      ensures Valid() && count == 0
    {
      count := 0;
    }

    /** Record one poll; returns whether "Unable to fetch server statistic" is printed. */
    method Tick(ok: bool) returns (alert: bool)
      requires Valid()
      modifies this
      ensures Valid()
      ensures (count, alert) == Step(old(count), ok)
    {
      if !ok {
        count := count + 1;
        alert := count >= AlertThreshold;
        if alert {
          count := 0;
        }
      } else {
        count := 0;
        alert := false;
      }
    }
  }

  /** What the agent prints on one tick: the poll's warnings and whether the alert followed. */
  datatype TickReport = TickReport(warnings: seq<Stats.Warning>, unableToFetch: bool)

  /** The warnings one poll prints: none when the poll failed. */
  function Printed(response: Option<string>): seq<Stats.Warning> {
    if Stats.Outcome(response).Some? then Stats.Outcome(response).value else []
  }

  /** One more tick extends the replay of a prefix by one step. */
  lemma ReplayPrefix(c: int, oks: seq<bool>, i: nat)
    requires i < |oks|
    ensures Replay(c, oks[..i + 1]).0 == Step(Replay(c, oks[..i]).0, oks[i]).0
    ensures Replay(c, oks[..i + 1]).1 == Replay(c, oks[..i]).1 + [Step(Replay(c, oks[..i]).0, oks[i]).1]
  {
    assert oks[..i + 1][..i] == oks[..i];
  }

  function Outcomes(responses: seq<Option<string>>): (oks: seq<bool>)
    ensures |oks| == |responses|
  {
    seq(|responses|, i requires 0 <= i < |responses| => Stats.Outcome(responses[i]).Some?)
  }

  lemma ExtendReports(reports: seq<TickReport>, printed: seq<seq<Stats.Warning>>, next: TickReport)
    requires |reports| < |printed| && next.warnings == printed[|reports|]
    requires forall k :: 0 <= k < |reports| ==> reports[k].warnings == printed[k]
    ensures forall k :: 0 <= k < |reports| + 1 ==> (reports + [next])[k].warnings == printed[k]
  {
  }

  /**
   * The ticker loop until a termination signal: `responses` holds what the
   * endpoint returned on each tick before the signal, in order.
   */
  method Run(responses: seq<Option<string>>) returns (reports: seq<TickReport>)
    ensures |reports| == |responses|
    ensures forall i :: 0 <= i < |responses| ==>
      reports[i].warnings == Printed(responses[i])
    ensures forall i :: 0 <= i < |responses| ==>
      reports[i].unableToFetch == Replay(0, Outcomes(responses)).1[i]
  {
    var counter := new FailureCounter();
    ghost var oks := Outcomes(responses);
    ghost var printed := seq(|responses|, k requires 0 <= k < |responses| => Printed(responses[k]));
    reports := [];
    var i := 0;
    while i < |responses|
      invariant 0 <= i <= |responses|
      invariant counter.Valid()
      invariant |reports| == i
      invariant counter.count == Replay(0, oks[..i]).0
      invariant forall k :: 0 <= k < i ==>
        reports[k].warnings == printed[k]
      invariant forall k :: 0 <= k < i ==> reports[k].unableToFetch == Replay(0, oks[..i]).1[k]
    {
      var ok, warnings := Stats.Poll(responses[i]);
      var alert := counter.Tick(ok);
      ReplayPrefix(0, oks, i);
      ExtendReports(reports, printed, TickReport(warnings, alert));
      reports := reports + [TickReport(warnings, alert)];
      i := i + 1;
    }
    assert oks[..i] == oks;
  }
}
