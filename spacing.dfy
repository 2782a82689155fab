/**
 * Average spacing between samples, per instruction and over the whole trace,
 * and the order in which `main` reaches its aborts after the aggregation pass.
 */
module Spacing {
  import opened Wrappers
  import opened Profiler
  import opened Aggregation
  import opened Sorting

  /** 2^32: lengths are narrowed to u32 before they divide a Duration. */
  const U32_LIMIT: nat := 0x1_0000_0000

  /** Why an instruction's average spacing cannot be computed. */
  datatype SpacingFailure =
    | Unsorted        // the sorted-clone self-check fails
    | TooFewSamples   // fewer than two samples reach the `todo!` branch
    | LengthOverflow  // `durs.len().try_into()` into u32 fails

  /** What aborts the analysis in `main`. */
  datatype Abort =
    | EmptyTrace                                            // `first()`/`last()` unwrap on an empty trace
    | ZeroDivisor                                           // `trace.len() as u32` wraps to zero
    | BadSpacing(instr: Instruction, failure: SpacingFailure)

  /** Instant::duration_since: the time from `earlier` to `later`, saturating at zero. */
  function DurationSince(later: Timestamp, earlier: Timestamp): (r: Duration)
    ensures earlier <= later ==> earlier + r == later
    ensures later < earlier ==> r == 0
  {
    if earlier <= later then later - earlier else 0
  }

  /** `durs.last().duration_since(durs.first()) / durs.len()`. */
  function AverageSpacing(durs: seq<Timestamp>): Duration
    requires |durs| > 0
  {
    DurationSince(durs[|durs| - 1], durs[0]) / |durs|
  }

  /** On a list whose last timestamp is not before its first, the average
      spacing times the number of samples is at most the time from first to
      last, and short of it by less than one sample's worth. */
  lemma AverageSpacingBounds(durs: seq<Timestamp>)
    requires 2 <= |durs| && durs[0] <= durs[|durs| - 1]
    ensures AverageSpacing(durs) * |durs| <= durs[|durs| - 1] - durs[0] < (AverageSpacing(durs) + 1) * |durs|
  {
  }

  /** The spacing computed for one instruction's timestamp list, in the order
      the loop body checks: the sorted-clone assertion, then `len() >= 2`,
      then the conversion of the length to u32. */
  function InstructionSpacing(durs: seq<Timestamp>): (r: Result<Duration, SpacingFailure>)
    ensures r == Err(Unsorted) <==> !NonDecreasing(durs)
    ensures r == Err(TooFewSamples) <==> NonDecreasing(durs) && |durs| < 2
    ensures r == Err(LengthOverflow) <==> NonDecreasing(durs) && |durs| >= U32_LIMIT
    ensures r.Ok? ==> 2 <= |durs| < U32_LIMIT && durs[0] <= durs[|durs| - 1]
    ensures r.Ok? ==> r.value == AverageSpacing(durs)
  {
    SortCheckPasses(durs);
    if Sort(durs) != durs then Err(Unsorted)
    else if |durs| < 2 then Err(TooFewSamples)
    else if |durs| >= U32_LIMIT then Err(LengthOverflow)
    else
      Ok(AverageSpacing(durs))
  }

  /** The global average spacing `(last - first) / trace.len() as u32`. */
  function GlobalAverageSpacing(trace: seq<Sample>): (r: Result<Duration, Abort>)
    ensures r == Err(EmptyTrace) <==> trace == []
    ensures r == Err(ZeroDivisor) <==> trace != [] && |trace| % U32_LIMIT == 0
    ensures r.Ok? ==> trace != [] && |trace| % U32_LIMIT != 0
    ensures r.Ok? && trace[|trace| - 1].at < trace[0].at ==> r.value == 0
  {
    if trace == [] then Err(EmptyTrace)
    else
      var divisor := |trace| % U32_LIMIT;
      if divisor == 0 then Err(ZeroDivisor)
      else
        Ok(DurationSince(trace[|trace| - 1].at, trace[0].at) / divisor)
  }

  /** On a trace of fewer than 2^32 samples whose last timestamp is not before
      its first, the global average spacing is the truncated average of the
      time from the first sample to the last. */
  lemma GlobalSpacingBounds(trace: seq<Sample>)
    requires 0 < |trace| < U32_LIMIT && trace[0].at <= trace[|trace| - 1].at
    ensures GlobalAverageSpacing(trace).Ok?
    ensures var avg, span := GlobalAverageSpacing(trace).value, trace[|trace| - 1].at - trace[0].at;
      avg * |trace| <= span < (avg + 1) * |trace|
  {
  }

  /** The loop over the per-instruction timestamp lists, in ascending
      instruction order: each list's spacing, or the abort of the first
      instruction whose list fails. */
  method ReportSpacings(times: map<Instruction, seq<Timestamp>>)
    returns (r: Result<map<Instruction, Duration>, Abort>)
    ensures r.Ok? <==> forall i :: i in times ==> InstructionSpacing(times[i]).Ok?
    ensures r.Ok? ==> r.value.Keys == times.Keys
    ensures r.Ok? ==> forall i :: i in times ==> Ok(r.value[i]) == InstructionSpacing(times[i])
    ensures r.Err? ==> r.error.BadSpacing? && r.error.instr in times
    ensures r.Err? ==> InstructionSpacing(times[r.error.instr]) == Err(r.error.failure)
    ensures r.Err? ==> forall i :: i in times && i < r.error.instr ==> InstructionSpacing(times[i]).Ok?
  {
    var remaining := times.Keys;
    var done: map<Instruction, Duration> := map[];
    while remaining != {}
      invariant Progress(times, done, remaining)
      decreases remaining
    {
      LeastExists(remaining);
      var i :| IsLeast(remaining, i);
      var spacing := InstructionSpacing(times[i]);
      if spacing.Err? {
        EarlierSucceeded(times, done, remaining, i);
        return Err(BadSpacing(i, spacing.error));
      }
      ProgressStep(times, done, remaining, i, spacing.value);
      done, remaining := done[i := spacing.value], remaining - {i};
    }
    assert done.Keys == times.Keys;
    return Ok(done);
  }

  /** The loop's state: `done` holds the spacing of every instruction outside
      `remaining`, and each of those is smaller than every remaining one. */
  ghost predicate Progress(times: map<Instruction, seq<Timestamp>>, done: map<Instruction, Duration>,
                           remaining: set<Instruction>)
  {
    && remaining <= times.Keys
    && done.Keys == times.Keys - remaining
    && (forall i :: i in done ==> Ok(done[i]) == InstructionSpacing(times[i]))
    && (forall i, j :: i in done && j in remaining ==> i < j)
  }

  /** Processing the least remaining instruction successfully keeps the loop's state. */
  lemma ProgressStep(times: map<Instruction, seq<Timestamp>>, done: map<Instruction, Duration>,
                     remaining: set<Instruction>, i: Instruction, v: Duration)
    requires Progress(times, done, remaining)
    requires IsLeast(remaining, i) && InstructionSpacing(times[i]) == Ok(v)
    ensures Progress(times, done[i := v], remaining - {i})
  {
    var done', remaining' := done[i := v], remaining - {i};
    assert done'.Keys == times.Keys - remaining';
    forall a | a in done'
      ensures Ok(done'[a]) == InstructionSpacing(times[a])
    {
      if a != i {
        assert done'[a] == done[a];
      }
    }
    forall a, b | a in done' && b in remaining'
      ensures a < b
    {
      assert b in remaining && b != i;
      if a != i {
        assert a in done;
      } else {
        assert i <= b;
      }
    }
  }

  /** When the least remaining instruction is reached, every smaller one has
      already been processed, and successfully. */
  lemma EarlierSucceeded(times: map<Instruction, seq<Timestamp>>, done: map<Instruction, Duration>,
                         remaining: set<Instruction>, i: Instruction)
    requires Progress(times, done, remaining)
    requires IsLeast(remaining, i)
    ensures forall k :: k in times && k < i ==> InstructionSpacing(times[k]).Ok?
  {
    forall k | k in times && k < i
      ensures InstructionSpacing(times[k]).Ok?
    {
      assert k !in remaining;
      assert k in done;
    }
  }

  /** `m` is the smallest instruction of `s`. */
  predicate IsLeast(s: set<Instruction>, m: Instruction)
  {
    m in s && forall j :: j in s ==> m <= j
  }

  /** Every non-empty set of instructions has a least one. */
  lemma {:induction false} LeastExists(s: set<Instruction>)
    requires s != {}
    ensures exists m :: IsLeast(s, m)
  {
    var x :| x in s;
    if s == {x} {
      assert IsLeast(s, x);
    } else {
      var rest := s - {x};
      LeastExists(rest);
      var m :| IsLeast(rest, m);
      var least := if x < m then x else m;
      forall j | j in s
        ensures least <= j
      {
        if j != x {
          assert j in rest;
        }
      }
      assert IsLeast(s, least);
    }
  }

  /** What `main` derives from the trace once it is recorded. */
  datatype Summary = Summary(
    counts: map<Instruction, nat>,
    globalSpacing: Duration,
    spacings: map<Instruction, Duration>)

  /** The analysis in `main` after the traced call: the aggregation pass (which
      writes every csv row before anything can abort), then the global average,
      then the per-instruction loop. */
  method Analyse(trace: seq<Sample>) returns (rows: seq<Row>, r: Result<Summary, Abort>)
    ensures RowsOf(trace, rows)
    ensures r == Err(EmptyTrace) <==> trace == []
    ensures r == Err(ZeroDivisor) <==> trace != [] && |trace| % U32_LIMIT == 0
    ensures r.Ok? <==>
      && trace != [] && |trace| % U32_LIMIT != 0
      && forall i :: i in Instructions(trace) ==> InstructionSpacing(TimesOf(trace, i)).Ok?
    ensures r.Ok? ==> CountsOf(trace, r.value.counts) && SumValues(r.value.counts) == |trace|
    ensures r.Ok? ==> Ok(r.value.globalSpacing) == GlobalAverageSpacing(trace)
    ensures r.Ok? ==> r.value.spacings.Keys == Instructions(trace)
    ensures r.Ok? ==> forall i :: i in r.value.spacings ==> Ok(r.value.spacings[i]) == InstructionSpacing(TimesOf(trace, i))
    ensures r.Err? && r.error.BadSpacing? ==>
      && r.error.instr in Instructions(trace)
      && InstructionSpacing(TimesOf(trace, r.error.instr)) == Err(r.error.failure)
    ensures r.Err? && r.error.BadSpacing? ==>
      forall i :: i in Instructions(trace) && i < r.error.instr ==> InstructionSpacing(TimesOf(trace, i)).Ok?
  {
    var counts, times, previous;
    counts, times, rows, previous := Aggregate(trace);
    var global := GlobalAverageSpacing(trace);
    if global.Err? {
      return rows, Err(global.error);
    }
    var spacings := ReportSpacings(times);
    if spacings.Err? {
      return rows, Err(spacings.error);
    }
    r := Ok(Summary(counts, global.value, spacings.value));
  }

  /** An instruction that occurs exactly once makes the per-instruction loop abort. */
  lemma SingleSampleAborts(trace: seq<Sample>, i: Instruction)
    requires Count(trace, i) == 1
    ensures InstructionSpacing(TimesOf(trace, i)) == Err(TooFewSamples)
  {
    TimesOfLength(trace, i);
  }

  /** On a trace of fewer than 2^32 samples whose clock never goes backwards,
      and where every instruction occurs at least twice, no instruction makes
      the per-instruction loop abort. */
  lemma MonotoneTraceHasSpacings(trace: seq<Sample>)
    requires Monotone(trace) && |trace| < U32_LIMIT
    requires forall i :: i in Instructions(trace) ==> Count(trace, i) >= 2
    ensures forall i :: i in Instructions(trace) ==> InstructionSpacing(TimesOf(trace, i)).Ok?
  {
    forall i | i in Instructions(trace)
      ensures InstructionSpacing(TimesOf(trace, i)).Ok?
    {
      TimesOfLength(trace, i);
      MonotoneTimesOf(trace, i);
    }
  }

  /** Two instructions, 0 and 1, sampled alternately at 0, 10, 20 and 35 ns. */
  function ExampleTrace(): seq<Sample>
  {
    [Sample(0, 0), Sample(1, 10), Sample(0, 20), Sample(1, 35)]
  }

  /** Each instruction of the example keeps its own timestamps, in order. */
  lemma ExampleTimes()
    ensures TimesOf(ExampleTrace(), 0) == [0, 20] && TimesOf(ExampleTrace(), 1) == [10, 35]
  {
    var trace := ExampleTrace();
    var t3, t2, t1 := trace[..3], trace[..2], trace[..1];
    assert t3[..2] == t2 && t2[..1] == t1 && t1[..0] == [];
    assert TimesOf(t1, 0) == [0] && TimesOf(t1, 1) == [];
    assert TimesOf(t2, 0) == [0] && TimesOf(t2, 1) == [10];
    assert TimesOf(t3, 0) == [0, 20] && TimesOf(t3, 1) == [10];
  }

  /** Two ordered samples are spaced by half the time between them, rounded down. */
  lemma TwoSampleSpacing(a: Timestamp, b: Timestamp)
    requires a <= b
    ensures InstructionSpacing([a, b]) == Ok((b - a) / 2)
  {
    assert NonDecreasing([a, b]);
  }

  /** Instruction 1 of the example: 25 ns over two samples truncates to 12 ns. */
  lemma ExampleSpacing()
    ensures InstructionSpacing([10, 35]) == Ok(12)
  {
    TwoSampleSpacing(10, 35);
  }

  /** Over the whole example, 35 ns across four samples truncates to 8 ns. */
  lemma ExampleGlobalSpacing()
    ensures GlobalAverageSpacing(ExampleTrace()) == Ok(8)
  {
    assert DurationSince(35, 0) == 35;
  }
}
