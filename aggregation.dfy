/**
 * The single pass over the recorded trace: per-instruction occurrence counts,
 * per-instruction timestamp lists, and the elapsed time since the previous
 * sample that is written as the third column of trace.csv.
 */
module Aggregation {
  import opened Wrappers
  import opened Profiler

  /** One line of trace.csv: instruction, timestamp, time since the previous sample. */
  datatype Row = Row(instr: Instruction, at: Timestamp, sincePrevious: Option<Duration>)

  /** Instant::checked_duration_since: the time from `earlier` to `later`,
      absent when `earlier` lies after `later`. */
  function CheckedDurationSince(later: Timestamp, earlier: Timestamp): (r: Option<Duration>)
    ensures r.Some? <==> earlier <= later
    ensures r.Some? ==> earlier + r.value == later
  {
    if earlier <= later then Some(later - earlier) else None
  }

  /** The instructions that occur in the trace. */
  function Instructions(trace: seq<Sample>): set<Instruction>
  {
    set k | 0 <= k < |trace| :: trace[k].instr
  }

  /** How many samples of instruction `i` the trace holds. */
  function Count(trace: seq<Sample>, i: Instruction): nat
  {
    if trace == [] then 0
    else Count(trace[..|trace| - 1], i) + (if trace[|trace| - 1].instr == i then 1 else 0)
  }

  /** Some sample of the trace is instruction `i` taken at time `t`. */
  ghost predicate SampledAt(trace: seq<Sample>, i: Instruction, t: Timestamp)
  {
    exists k :: 0 <= k < |trace| && trace[k] == Sample(i, t)
  }

  /** A sample of a prefix is a sample of the whole trace. */
  lemma SampledAtPrefix(trace: seq<Sample>, n: nat, i: Instruction, t: Timestamp)
    requires n <= |trace| && SampledAt(trace[..n], i, t)
    ensures SampledAt(trace, i, t)
  {
    var k :| 0 <= k < n && trace[..n][k] == Sample(i, t);
    assert trace[k] == Sample(i, t);
  }

  /** The timestamps of the samples of instruction `i`, in trace order; each
      one was taken by a sample of `i`. */
  function TimesOf(trace: seq<Sample>, i: Instruction): (r: seq<Timestamp>)
    ensures |r| <= |trace|
    ensures forall j :: 0 <= j < |r| ==> SampledAt(trace, i, r[j])
  {
    if trace == [] then []
    else
      var n := |trace| - 1;
      var init := TimesOf(trace[..n], i);
      assert forall j :: 0 <= j < |init| ==> SampledAt(trace, i, init[j]) by {
        forall j | 0 <= j < |init| {
          SampledAtPrefix(trace, n, i, init[j]);
        }
      }
      if trace[n].instr == i then
        assert trace[n] == Sample(i, trace[n].at);
        init + [trace[n].at]
      else init
  }

  /** The elapsed time recorded for sample `k`: none for the first sample,
      otherwise the checked time since the sample before it. */
  function Elapsed(trace: seq<Sample>, k: nat): Option<Duration>
    requires k < |trace|
  {
    if k == 0 then None else CheckedDurationSince(trace[k].at, trace[k - 1].at)
  }

  /** The csv line written for sample `k`. */
  function RowAt(trace: seq<Sample>, k: nat): Row
    requires k < |trace|
  {
    Row(trace[k].instr, trace[k].at, Elapsed(trace, k))
  }

  /** `rows` are the lines of trace.csv for `trace`. */
  ghost predicate RowsOf(trace: seq<Sample>, rows: seq<Row>)
  {
    && |rows| == |trace|
    && forall k :: 0 <= k < |trace| ==> rows[k] == RowAt(trace, k)
  }

  /** The timestamps never go backwards along the whole trace. */
  ghost predicate Monotone(trace: seq<Sample>)
  {
    forall j, k :: 0 <= j < k < |trace| ==> trace[j].at <= trace[k].at
  }

  /** The sum of the values of a map (`counts.values().sum()`). */
  ghost function SumValues<K>(m: map<K, nat>): nat
    decreases |m|
  {
    if m == map[] then 0
    else
      var k :| k in m;
      assert (m - {k}).Keys == m.Keys - {k};
      m[k] + SumValues(m - {k})
  }

  /** The sum of the elapsed times written to trace.csv (absent ones add nothing). */
  ghost function TotalSince(rows: seq<Row>): nat
  {
    if rows == [] then 0
    else
      var last := rows[|rows| - 1].sincePrevious;
      TotalSince(rows[..|rows| - 1]) + (if last.Some? then last.value else 0)
  }

  /** `counts` holds, for each instruction of `trace`, its number of occurrences. */
  ghost predicate CountsOf(trace: seq<Sample>, counts: map<Instruction, nat>)
  {
    && counts.Keys == Instructions(trace)
    && forall i :: i in counts ==> counts[i] == Count(trace, i)
  }

  /** `times` holds, for each instruction of `trace`, its timestamps in trace order. */
  ghost predicate TimesOfAll(trace: seq<Sample>, times: map<Instruction, seq<Timestamp>>)
  {
    && times.Keys == Instructions(trace)
    && forall i :: i in times ==> times[i] == TimesOf(trace, i)
  }

  /** The aggregation loop of `main`: one pass over the trace that counts each
      instruction, collects its timestamps, and produces the csv rows, moving
      the `previous` cursor along. */
  method Aggregate(trace: seq<Sample>)
    returns (counts: map<Instruction, nat>, times: map<Instruction, seq<Timestamp>>,
             rows: seq<Row>, previous: Option<Timestamp>)
    ensures CountsOf(trace, counts)
    ensures TimesOfAll(trace, times)
    ensures SumValues(counts) == |trace|
    ensures RowsOf(trace, rows)
    ensures previous == if trace == [] then None else Some(trace[|trace| - 1].at)
  {
    counts, times, rows, previous := map[], map[], [], None;
    var k := 0;
    while k < |trace|
      invariant 0 <= k <= |trace|
      invariant CountsOf(trace[..k], counts)
      invariant TimesOfAll(trace[..k], times)
      invariant |rows| == k
      invariant forall j :: 0 <= j < k ==> rows[j] == RowAt(trace, j)
      invariant previous == if k == 0 then None else Some(trace[k - 1].at)
    {
      var instr, at := trace[k].instr, trace[k].at;

      // count one more occurrence, starting from zero
      var c := if instr in counts then counts[instr] else 0;
      CountsStep(trace, k, counts);
      counts := counts[instr := c + 1];

      var since: Option<Duration>;
      match previous {
        case Some(p) =>
          since := CheckedDurationSince(at, p);
          previous := Some(at);
        case None =>
          since := previous;
          previous := Some(at);
      }
      rows := rows + [Row(instr, at, since)];

      // append the timestamp to the instruction's list, starting from an empty one
      var ts := if instr in times then times[instr] else [];
      TimesStep(trace, k, times);
      times := times[instr := ts + [at]];
      k := k + 1;
    }
    assert trace[..k] == trace;
    CountsSum(trace, counts);
  }

  lemma InstructionsAppend(trace: seq<Sample>, s: Sample)
    ensures Instructions(trace + [s]) == Instructions(trace) + {s.instr}
  {
    var t := trace + [s];
    forall x | x in Instructions(trace)
      ensures x in Instructions(t)
    {
      var k :| 0 <= k < |trace| && trace[k].instr == x;
      assert t[k].instr == x;
    }
    assert t[|trace|].instr == s.instr;
  }

  lemma CountsStep(trace: seq<Sample>, k: nat, counts: map<Instruction, nat>)
    requires k < |trace| && CountsOf(trace[..k], counts)
    ensures CountsOf(trace[..k + 1], counts[trace[k].instr := (if trace[k].instr in counts then counts[trace[k].instr] else 0) + 1])
  {
    assert trace[..k + 1] == trace[..k] + [trace[k]];
    assert trace[..k + 1][..k] == trace[..k];
    InstructionsAppend(trace[..k], trace[k]);
    CountPositive(trace[..k], trace[k].instr);
  }

  lemma TimesStep(trace: seq<Sample>, k: nat, times: map<Instruction, seq<Timestamp>>)
    requires k < |trace| && TimesOfAll(trace[..k], times)
    ensures TimesOfAll(trace[..k + 1], times[trace[k].instr := (if trace[k].instr in times then times[trace[k].instr] else []) + [trace[k].at]])
  {
    assert trace[..k + 1] == trace[..k] + [trace[k]];
    assert trace[..k + 1][..k] == trace[..k];
    InstructionsAppend(trace[..k], trace[k]);
    if trace[k].instr !in times {
      CountPositive(trace[..k], trace[k].instr);
      TimesOfLength(trace[..k], trace[k].instr);
    }
  }

  /** The occurrence counts of a trace add up to its length (`total_counts == trace.len()`). */
  lemma {:induction false} CountsSum(trace: seq<Sample>, counts: map<Instruction, nat>)
    requires CountsOf(trace, counts)
    ensures SumValues(counts) == |trace|
  {
    if trace == [] {
      assert counts == map[];
    } else {
      var i := trace[|trace| - 1].instr;
      var before := CountsOfInit(trace, counts);
      CountsSum(trace[..|trace| - 1], before);
      SumValuesIncrement(before, i);
    }
  }

  /** The counts of a trace are those of the trace without its last sample,
      with the last sample's instruction incremented. */
  lemma CountsOfInit(trace: seq<Sample>, counts: map<Instruction, nat>) returns (before: map<Instruction, nat>)
    requires trace != [] && CountsOf(trace, counts)
    ensures CountsOf(trace[..|trace| - 1], before)
    ensures var i := trace[|trace| - 1].instr; counts == before[i := (if i in before then before[i] else 0) + 1]
  {
    var n := |trace| - 1;
    var i := trace[n].instr;
    var init := trace[..n];
    before := if Count(init, i) == 0 then counts - {i} else counts[i := Count(init, i)];
    CountPositive(init, i);
    CountPositive(trace, i);
    assert trace[..n + 1] == trace;
    InstructionsAppend(init, trace[n]);
    forall j | j in before
      ensures before[j] == Count(init, j)
    {
      CountPositive(trace, j);
    }
  }

  /** Removing any key from a map takes exactly its value off the sum. */
  lemma {:induction false} SumValuesRemove<K>(m: map<K, nat>, k: K)
    requires k in m
    ensures SumValues(m) == m[k] + SumValues(m - {k})
    decreases |m|
  {
    var j :| j in m && SumValues(m) == m[j] + SumValues(m - {j});
    if j != k {
      assert (m - {j}).Keys == m.Keys - {j};
      assert (m - {k}).Keys == m.Keys - {k};
      SumValuesRemove(m - {j}, k);
      SumValuesRemove(m - {k}, j);
      assert m - {j} - {k} == m - {k} - {j};
    }
  }

  /** Incrementing one entry (creating it at zero when absent) adds one to the sum. */
  lemma SumValuesIncrement<K>(m: map<K, nat>, k: K)
    ensures SumValues(m[k := (if k in m then m[k] else 0) + 1]) == SumValues(m) + 1
  {
    var m' := m[k := (if k in m then m[k] else 0) + 1];
    SumValuesRemove(m', k);
    assert m' - {k} == m - {k};
    if k in m {
      SumValuesRemove(m, k);
    } else {
      assert m - {k} == m;
    }
  }

  /** An instruction's timestamp list is as long as its occurrence count. */
  lemma {:induction false} TimesOfLength(trace: seq<Sample>, i: Instruction)
    ensures |TimesOf(trace, i)| == Count(trace, i)
  {
    if trace != [] {
      TimesOfLength(trace[..|trace| - 1], i);
    }
  }

  /** An instruction occurs in the trace exactly when its count is positive. */
  lemma {:induction false} CountPositive(trace: seq<Sample>, i: Instruction)
    ensures i in Instructions(trace) <==> Count(trace, i) > 0
  {
    if trace != [] {
      var init := trace[..|trace| - 1];
      CountPositive(init, i);
      assert Instructions(trace) == Instructions(init) + {trace[|trace| - 1].instr};
    }
  }

  /** Every timestamp of an instruction is bounded by any bound on the whole trace. */
  lemma {:induction false} TimesOfBelow(trace: seq<Sample>, i: Instruction, bound: Timestamp)
    requires forall k :: 0 <= k < |trace| ==> trace[k].at <= bound
    ensures forall j :: 0 <= j < |TimesOf(trace, i)| ==> TimesOf(trace, i)[j] <= bound
  {
    if trace != [] {
      TimesOfBelow(trace[..|trace| - 1], i, bound);
    }
  }

  /** When the clock never goes backwards along the trace, each instruction's
      own timestamp list is non-decreasing too. */
  lemma {:induction false} MonotoneTimesOf(trace: seq<Sample>, i: Instruction)
    requires Monotone(trace)
    ensures forall j, k :: 0 <= j < k < |TimesOf(trace, i)| ==> TimesOf(trace, i)[j] <= TimesOf(trace, i)[k]
  {
    if trace != [] {
      var init := trace[..|trace| - 1];
      MonotoneTimesOf(init, i);
      if trace[|trace| - 1].instr == i {
        TimesOfBelow(init, i, trace[|trace| - 1].at);
      }
    }
  }

  /** On a trace whose clock never goes backwards every sample but the first
      has an elapsed time, and these add up to the time from the first sample
      to the last. */
  lemma {:induction false} ElapsedTelescopes(trace: seq<Sample>, rows: seq<Row>)
    requires trace != [] && Monotone(trace) && RowsOf(trace, rows)
    ensures forall k :: 0 < k < |rows| ==> rows[k].sincePrevious.Some?
    ensures TotalSince(rows) == trace[|trace| - 1].at - trace[0].at
  {
    if |trace| > 1 {
      var n := |trace|;
      assert RowsOf(trace[..n - 1], rows[..n - 1]);
      ElapsedTelescopes(trace[..n - 1], rows[..n - 1]);
    }
  }
}
