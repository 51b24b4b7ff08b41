/**
 * One poll of the statistics endpoint (`poll` in main.go): the response body
 * is parsed as seven comma-separated integers and checked against the fixed
 * thresholds, giving the warnings the agent prints, in order.
 */
module Stats {
  import opened Wrappers
  import opened GoInt
  import opened GoStrings
  import opened GoStrconv

  const FieldCount: nat := 7
  const LoadLimit: int := 30
  const MemoryLimit: nat := 80
  const DiskLimit: nat := 90
  const NetworkLimit: nat := 90
  /** Free disk space is reported in Mb: bytes divided by 1024 twice. */
  const BytesPerKb: int := 1024
  /** Free bandwidth is reported in Mbit/s: divided by 1000 twice. */
  const UnitsPerK: int := 1000

  /** The seven values of a statistics line, in wire order. */
  datatype Metrics = Metrics(
    loadAverage: int,
    memoryAvailable: int, memoryUsed: int,
    diskAvailable: int, diskUsed: int,
    networkAvailable: int, networkUsed: int)
  {
    function Fields(): seq<int> {
      [loadAverage, memoryAvailable, memoryUsed, diskAvailable, diskUsed, networkAvailable, networkUsed]
    }

    /** Every value fits in a Go `int`, as every value `Atoi` returns does. */
    predicate FitsInt64() {
      forall i :: 0 <= i < |Fields()| ==> InInt64(Fields()[i])
    }
  }

  function FromFields(vals: seq<int>): (m: Metrics)
    requires |vals| == FieldCount
    ensures m.Fields() == vals
  {
    Metrics(vals[0], vals[1], vals[2], vals[3], vals[4], vals[5], vals[6])
  }

  /** A warning, carrying the number the agent prints with it. */
  datatype Warning =
    | LoadTooHigh(loadAverage: int)
    | MemoryTooHigh(percent: int)
    | DiskSpaceLow(freeMb: int)
    | NetworkBandwidthHigh(freeMbits: int)

  /** The position of each kind of warning in the fixed print order. */
  function Rank(w: Warning): nat {
    match w
    case LoadTooHigh(_) => 0
    case MemoryTooHigh(_) => 1
    case DiskSpaceLow(_) => 2
    case NetworkBandwidthHigh(_) => 3
  }

  /**
   * `int(float32(used) / float32(available) * 100)`, idealised: the exact
   * quotient truncated toward zero, as the conversion to `int` truncates.
   * The agent only computes it when `available > 0`.
   */
  function Percent(used: int, available: int): int
    requires available > 0
  {
    Quo(used * 100, available)
  }

  /** A usage percentage is above `limit` exactly when `used` reaches `limit + 1` percent of `available`. */
  lemma PercentAbove(used: int, available: int, limit: nat)
    requires available > 0
    ensures Percent(used, available) > limit <==> used * 100 >= (limit + 1) * available
  {
    var x := used * 100;
    var p := Percent(used, available);
    MulNonneg(limit + 1, available);
    if x >= 0 {
      assert p * available <= x < (p + 1) * available;
      if p > limit {
        MulBelow(limit + 1, p, available);
      } else {
        MulBelow(p + 1, limit + 1, available);
      }
    } else {
      assert p <= 0;
    }
  }

  /**
   * The warnings for one parsed line, in the order the agent prints them:
   * load, memory, disk, network, each at most once.
   */
  function Evaluate(m: Metrics): (ws: seq<Warning>)
    ensures |ws| <= 4
    ensures forall i, j :: 0 <= i < j < |ws| ==> Rank(ws[i]) < Rank(ws[j])
  {
    LoadCheck(m.loadAverage)
    + MemoryCheck(m.memoryAvailable, m.memoryUsed)
    + DiskCheck(m.diskAvailable, m.diskUsed)
    + NetworkCheck(m.networkAvailable, m.networkUsed)
  }

  /** The load warning appears exactly when the load average is at least 30, and carries it. */
  lemma LoadWarning(m: Metrics)
    ensures (exists w :: w in Evaluate(m) && w.LoadTooHigh?) <==> m.loadAverage >= 30
    ensures forall w :: w in Evaluate(m) && w.LoadTooHigh? ==> w.loadAverage == m.loadAverage
  {
    var load := LoadCheck(m.loadAverage);
    var rest := MemoryCheck(m.memoryAvailable, m.memoryUsed)
      + DiskCheck(m.diskAvailable, m.diskUsed) + NetworkCheck(m.networkAvailable, m.networkUsed);
    assert Evaluate(m) == load + rest;
    if load != [] {
      assert load[0] in Evaluate(m);
    }
  }

  /**
   * The memory warning appears exactly when at least 81 percent of a positive
   * amount of memory is used, that is, when the truncated percentage is above
   * 80 (80.5 percent warns nothing). It carries that truncated percentage.
   */
  lemma MemoryWarning(m: Metrics)
    ensures (exists w :: w in Evaluate(m) && w.MemoryTooHigh?) <==>
      m.memoryAvailable > 0 && m.memoryUsed * 100 >= 81 * m.memoryAvailable
    ensures forall w :: w in Evaluate(m) && w.MemoryTooHigh? ==>
      w.percent > MemoryLimit
      && w.percent * m.memoryAvailable <= m.memoryUsed * 100 < (w.percent + 1) * m.memoryAvailable
  {
    var load := LoadCheck(m.loadAverage);
    var memory := MemoryCheck(m.memoryAvailable, m.memoryUsed);
    var rest := DiskCheck(m.diskAvailable, m.diskUsed) + NetworkCheck(m.networkAvailable, m.networkUsed);
    assert Evaluate(m) == load + memory + rest;
    if memory != [] {
      assert memory[0] in Evaluate(m);
      var p := memory[0].percent;
      assert p == Percent(m.memoryUsed, m.memoryAvailable);
      Distrib(p + 1, 1, m.memoryAvailable);
    }
  }

  /**
   * The disk warning appears exactly when at least 91 percent of a positive
   * disk size is used (the truncated percentage is above 90), and carries the
   * free space in Mb, truncated toward zero (so it is 0, not -1, for a slight
   * overuse). For values `Atoi` can return, the subtraction cannot overflow.
   */
  lemma DiskWarning(m: Metrics)
    ensures (exists w :: w in Evaluate(m) && w.DiskSpaceLow?) <==>
      m.diskAvailable > 0 && m.diskUsed * 100 >= 91 * m.diskAvailable
    ensures forall w :: w in Evaluate(m) && w.DiskSpaceLow? ==>
      w.freeMb == Quo(m.diskAvailable - m.diskUsed, 1024 * 1024)
      && (m.FitsInt64() ==> InInt64(m.diskAvailable - m.diskUsed))
  {
    var front := LoadCheck(m.loadAverage) + MemoryCheck(m.memoryAvailable, m.memoryUsed);
    var disk := DiskCheck(m.diskAvailable, m.diskUsed);
    var network := NetworkCheck(m.networkAvailable, m.networkUsed);
    assert Evaluate(m) == front + disk + network;
    if disk != [] {
      assert disk[0] in Evaluate(m);
      QuoQuo(m.diskAvailable - m.diskUsed, BytesPerKb, BytesPerKb);
      assert m.Fields()[3] == m.diskAvailable && m.Fields()[4] == m.diskUsed;
    }
  }

  /**
   * The network warning appears exactly when at least 91 percent of a
   * positive bandwidth is used (the truncated percentage is above 90), and
   * carries the free bandwidth in Mbit/s, truncated toward zero. For values
   * `Atoi` can return, the subtraction cannot overflow.
   */
  lemma NetworkWarning(m: Metrics)
    ensures (exists w :: w in Evaluate(m) && w.NetworkBandwidthHigh?) <==>
      m.networkAvailable > 0 && m.networkUsed * 100 >= 91 * m.networkAvailable
    ensures forall w :: w in Evaluate(m) && w.NetworkBandwidthHigh? ==>
      w.freeMbits == Quo(m.networkAvailable - m.networkUsed, 1000 * 1000)
      && (m.FitsInt64() ==> InInt64(m.networkAvailable - m.networkUsed))
  {
    var front := LoadCheck(m.loadAverage) + MemoryCheck(m.memoryAvailable, m.memoryUsed)
      + DiskCheck(m.diskAvailable, m.diskUsed);
    var network := NetworkCheck(m.networkAvailable, m.networkUsed);
    assert Evaluate(m) == front + network;
    if network != [] {
      assert network[0] in Evaluate(m);
      QuoQuo(m.networkAvailable - m.networkUsed, UnitsPerK, UnitsPerK);
      assert m.Fields()[5] == m.networkAvailable && m.Fields()[6] == m.networkUsed;
    }
  }

  function LoadCheck(loadAverage: int): (ws: seq<Warning>)
    ensures |ws| <= 1 && forall w :: w in ws ==> w.LoadTooHigh? && Rank(w) == 0
    ensures ws != [] <==> loadAverage >= LoadLimit
  {
    if loadAverage >= LoadLimit then [LoadTooHigh(loadAverage)] else []
  }

  /** Skipped, with no division, when nothing is available. */
  function MemoryCheck(available: int, used: int): (ws: seq<Warning>)
    ensures |ws| <= 1 && forall w :: w in ws ==> w.MemoryTooHigh? && Rank(w) == 1
    ensures ws != [] <==> available > 0 && used * 100 >= 81 * available
  {
    if available > 0 then
      var percent := Percent(used, available);
      PercentAbove(used, available, MemoryLimit);
      if percent > MemoryLimit then [MemoryTooHigh(percent)] else []
    else
      []
  }

  /** Skipped, with no division, when nothing is available. */
  function DiskCheck(available: int, used: int): (ws: seq<Warning>)
    ensures |ws| <= 1 && forall w :: w in ws ==> w.DiskSpaceLow? && Rank(w) == 2
    ensures ws != [] <==> available > 0 && used * 100 >= 91 * available
  {
    if available > 0 then
      PercentAbove(used, available, DiskLimit);
      if Percent(used, available) > DiskLimit then
        [DiskSpaceLow(Quo(Quo(available - used, BytesPerKb), BytesPerKb))]
      else
        []
    else
      []
  }

  /** Skipped, with no division, when nothing is available. */
  function NetworkCheck(available: int, used: int): (ws: seq<Warning>)
    ensures |ws| <= 1 && forall w :: w in ws ==> w.NetworkBandwidthHigh? && Rank(w) == 3
    ensures ws != [] <==> available > 0 && used * 100 >= 91 * available
  {
    if available > 0 then
      PercentAbove(used, available, NetworkLimit);
      if Percent(used, available) > NetworkLimit then
        [NetworkBandwidthHigh(Quo(Quo(available - used, UnitsPerK), UnitsPerK))]
      else
        []
    else
      []
  }

  /** Each part, trimmed, read with `Atoi`: all of them, or nothing if any part is malformed. */
  function ParseFields(parts: seq<string>): (r: Option<seq<int>>)
    ensures r.Some? ==> |r.value| == |parts|
    ensures r.Some? ==> forall i :: 0 <= i < |parts| ==> Atoi(TrimSpace(parts[i])) == Some(r.value[i])
    ensures r.None? ==> exists i :: 0 <= i < |parts| && Atoi(TrimSpace(parts[i])).None?
  {
    if parts == [] then Some([])
    else
      match Atoi(TrimSpace(parts[0]))
      case None => None
      case Some(n) =>
        match ParseFields(parts[1..])
        case None => None
        case Some(rest) => Some([n] + rest)
  }

  /** `ParseFields` succeeds with exactly the values each part reads as, when every part reads as one. */
  lemma {:induction false} ParseFieldsAll(parts: seq<string>, vals: seq<int>)
    requires |vals| == |parts|
    requires forall k :: 0 <= k < |parts| ==> Atoi(TrimSpace(parts[k])) == Some(vals[k])
    ensures ParseFields(parts) == Some(vals)
  {
    if parts != [] {
      assert Atoi(TrimSpace(parts[0])) == Some(vals[0]);
      ParseFieldsAll(parts[1..], vals[1..]);
      assert vals == [vals[0]] + vals[1..];
    }
  }

  /**
   * The loop of `poll` over the parts: each part trimmed and read with
   * `Atoi`, stopping at the first that is not an integer.
   */
  method ReadFields(parts: seq<string>) returns (r: Option<seq<int>>)
    ensures r == ParseFields(parts)
  {
    var vals: seq<int> := [];
    var i := 0;
    while i < |parts|
      invariant 0 <= i <= |parts|
      invariant |vals| == i
      invariant forall k :: 0 <= k < i ==> Atoi(TrimSpace(parts[k])) == Some(vals[k])
    {
      var n := Atoi(TrimSpace(parts[i]));
      if n.None? {
        return None;
      }
      vals := vals + [n.value];
      i := i + 1;
    }
    ParseFieldsAll(parts, vals);
    return Some(vals);
  }

  /**
   * The parts of a line: exactly seven, each an integer once trimmed, read
   * in wire order. A wrong count or a single bad field rejects all of them.
   */
  function ParseParts(parts: seq<string>): (r: Option<Metrics>)
    ensures r.Some? <==>
      |parts| == FieldCount && forall i :: 0 <= i < |parts| ==> Atoi(TrimSpace(parts[i])).Some?
    ensures r.Some? ==>
      forall i :: 0 <= i < FieldCount ==> Atoi(TrimSpace(parts[i])) == Some(r.value.Fields()[i])
    ensures r.Some? ==> r.value.FitsInt64()
  {
    if |parts| != FieldCount then None
    else
      var fields := ParseFields(parts);
      if fields.None? then None
      else
        var m := FromFields(fields.value);
        assert m.Fields() == fields.value;
        assert forall i :: 0 <= i < FieldCount ==> InInt64(fields.value[i]) by {
          forall i | 0 <= i < FieldCount ensures InInt64(fields.value[i]) {
            assert Atoi(TrimSpace(parts[i])) == Some(fields.value[i]);
          }
        }
        Some(m)
  }

  /** The body of a reply: trimmed, split on `,`, and its parts parsed. */
  function ParseLine(body: string): (r: Option<Metrics>)
    ensures r.Some? ==> Count(TrimSpace(body), ',') == FieldCount - 1
  {
    ParseParts(Split(TrimSpace(body), ','))
  }

  /**
   * The outcome of one poll: `None` when it failed (no response, an error
   * status, an unreadable or malformed body), otherwise the warnings to
   * print, possibly none.
   */
  function Outcome(response: Option<string>): Option<seq<Warning>> {
    if response.None? then None
    else
      match ParseLine(response.value)
      case None => None
      case Some(m) => Some(Evaluate(m))
  }

  /**
   * A poll succeeds exactly when a body arrived and it splits into seven
   * integer fields, whichever warnings it then prints; it then prints the
   * warnings for the values read in wire order.
   */
  lemma PollSucceeds(response: Option<string>)
    ensures Outcome(response).Some? <==> (response.Some? &&
      var parts := Split(TrimSpace(response.value), ',');
      |parts| == FieldCount && forall i :: 0 <= i < |parts| ==> Atoi(TrimSpace(parts[i])).Some?)
    ensures Outcome(response).Some? ==>
      var parts := Split(TrimSpace(response.value), ',');
      exists m: Metrics :: Outcome(response).value == Evaluate(m) &&
        forall i :: 0 <= i < FieldCount ==> Atoi(TrimSpace(parts[i])) == Some(m.Fields()[i])
  {
    if Outcome(response).Some? {
      var m := ParseLine(response.value).value;
      assert Outcome(response).value == Evaluate(m);
    }
  }

  /**
   * `poll`: `response` is the body of a 200 reply, or `None` when the request,
   * the status check or the read failed. Returns whether the poll succeeded
   * and the warnings it prints; a malformed line prints nothing.
   */
  method Poll(response: Option<string>) returns (ok: bool, warnings: seq<Warning>)
    ensures ok <==> Outcome(response).Some?
    ensures warnings == if ok then Outcome(response).value else []
  {
    if response.None? {
      return false, [];
    }
    var line := TrimSpace(response.value);
    var parts := Split(line, ',');
    assert ParseLine(response.value) == ParseParts(parts);
    if |parts| != FieldCount {
      return false, [];
    }
    var fields := ReadFields(parts);
    if fields.None? {
      return false, [];
    }
    return true, Evaluate(FromFields(fields.value));
  }

  /** A line as the endpoint may write it: each value in decimal, padded with white space, joined by `,`. */
  function RenderLine(m: Metrics, before: seq<string>, after: seq<string>): string
    requires |before| == FieldCount == |after|
  {
    Join(Wrap(seq(FieldCount, i requires 0 <= i < FieldCount => Itoa(m.Fields()[i])), before, after), ',')
  }

  /** Whatever padding the endpoint uses, the agent reads back the seven values it wrote. */
  lemma RoundTrip(m: Metrics, before: seq<string>, after: seq<string>)
    requires m.FitsInt64()
    requires |before| == FieldCount == |after|
    requires forall i :: 0 <= i < FieldCount ==> AllSpace(before[i]) && AllSpace(after[i])
    ensures ParseLine(RenderLine(m, before, after)) == Some(m)
  {
    var core := seq(FieldCount, i requires 0 <= i < FieldCount => Itoa(m.Fields()[i]));
    forall i | 0 <= i < FieldCount
      ensures Tight(core[i]) && ',' !in core[i] && Atoi(core[i]) == Some(m.Fields()[i])
    {
      ItoaTight(m.Fields()[i]);
      AtoiItoa(m.Fields()[i]);
    }
    TrimSplitJoin(core, before, after, ',');
    var r := ParseLine(RenderLine(m, before, after));
    assert r.value.Fields() == m.Fields();
  }
}
