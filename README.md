# Instruction-timing example of the wasmi interpreter, modelled in Dafny

`examples/invoke.rs` loads a WebAssembly module, turns its command-line
arguments into call values for one exported function, runs that function
under a tracing profiler that records one `(instruction, timestamp)` pair
per dispatched instruction, and then summarises the trace: how often each
instruction occurred, the time between consecutive samples (written to
`trace.csv`), the average spacing over the whole trace, and the average
spacing of each instruction's own samples. The program aborts if a
per-instruction list is not sorted or has fewer than two samples.

The model covers the integer logic of that program:

- `profiler.dfy`: the `TracingProfiler` as a class whose `trace` field
  (a sequence of samples) is appended to in place.
- `aggregation.dfy`: the single pass over the trace. It is an imperative
  loop that updates the `counts` and timestamp maps and the `previous`
  cursor, and builds the csv rows. It is proved against specification
  functions (`Count`, `TimesOf`, `RowAt`).
- `sorting.dfy`: the "equals its sorted clone" self-check. The sort is
  an insertion sort, proved to return a non-decreasing permutation of its
  input; every correct sort of numbers returns that same list.
- `spacing.dfy`: the global and per-instruction average spacings. Their
  abort conditions are stated as `Result` errors. It also holds the loop
  over the instructions in ascending order and the whole analysis after
  the traced call.
- `decimal.dfy`: `str::parse::<i32>` / `str::parse::<i64>`, which is an
  optional sign, digits, and a range check.
- `arguments.dfy`: resolving the exported function to its signature
  through the export, import, function and type sections, and converting
  the positional arguments against the parameter list.

Modelling choices:

- Timestamps and durations are natural numbers of nanoseconds.
- An instruction is a natural number. It is the instruction's rank in the
  derived ordering of the instruction type, so ascending numbers are the
  order in which a `BTreeMap` visits its keys.
- Every `panic!`, `unwrap`, `expect`, `todo!`, failed `assert_eq!`, division
  by zero and out-of-range index in the modelled code is an `Err` of a
  `Result` whose error names the cause, except the I/O `unwrap`s on
  `trace.csv`, which are left out with the file output.

## Model

| member | source | states |
|---|---|---|
| Profiler.TracingProfiler.constructor | examples/invoke.rs:24-26 | a new profiler has recorded nothing |
| Profiler.TracingProfiler.Trace | examples/invoke.rs:33-35 | the trace becomes the old trace followed by exactly one new sample; every earlier sample is unchanged |
| Aggregation.CheckedDurationSince | examples/invoke.rs:174 | present exactly when the earlier timestamp is not after the later one, and then adding it to the earlier timestamp gives the later one |
| Aggregation.Aggregate | examples/invoke.rs:165-189 | after the pass, `counts` maps exactly the instructions of the trace to their occurrence counts, and the counts add up to the trace length. `times` maps each instruction to its timestamps in trace order. Row k is the k-th sample with no elapsed time when k = 0, otherwise the checked time since sample k-1. The cursor ends at the last timestamp, or is absent for an empty trace |
| Aggregation.CountsSum | examples/invoke.rs:220 | whenever a map holds every instruction's occurrence count, its values add up to the trace length |
| Aggregation.TimesOfLength | examples/invoke.rs:187 | an instruction's timestamp list is as long as its occurrence count |
| Aggregation.CountPositive | examples/invoke.rs:170 | an instruction is a key of the counts exactly when it occurs, that is, when its count is positive |
| Aggregation.MonotoneTimesOf | examples/invoke.rs:238-242 | if the clock never goes backwards along the trace, every instruction's timestamp list is non-decreasing |
| Aggregation.ElapsedTelescopes | examples/invoke.rs:171-182 | if the clock never goes backwards, every row but the first has an elapsed time, and the elapsed times add up to last minus first timestamp |
| Sorting.Sort | examples/invoke.rs:239-241 | the sorted clone has the same length and the same elements with the same multiplicities, in non-decreasing order |
| Sorting.SortCheckPasses | examples/invoke.rs:238-242 | a list equals its sorted clone if and only if it is non-decreasing |
| Spacing.DurationSince | examples/invoke.rs:245 | when the earlier timestamp is not after the later, adding the result to it gives the later one; otherwise the result is zero |
| Spacing.InstructionSpacing | examples/invoke.rs:238-249 | fails as unsorted iff the list is not non-decreasing; fails for too few samples iff it is sorted and shorter than 2; fails on the length conversion iff it is sorted and at least 2^32 long. Otherwise the list is sorted, has between 2 and 2^32 - 1 samples, first <= last, and the result is the truncated average of last minus first |
| Spacing.AverageSpacingBounds | examples/invoke.rs:244-245 | for at least two samples with first <= last, spacing × length <= last − first < (spacing + 1) × length |
| Spacing.TwoSampleSpacing | examples/invoke.rs:244-245 | two ordered samples are spaced by half the time between them, rounded down |
| Spacing.SingleSampleAborts | examples/invoke.rs:244-249 | an instruction that occurs exactly once reaches the `todo!` branch |
| Spacing.GlobalAverageSpacing | examples/invoke.rs:191 | fails iff the trace is empty, or iff its length narrowed to u32 is zero; a success has a non-empty trace with a non-zero narrowed length, and it is zero when the last timestamp lies before the first |
| Spacing.GlobalSpacingBounds | examples/invoke.rs:191 | for a non-empty trace shorter than 2^32 with first <= last, the global spacing succeeds and spacing × length <= last − first < (spacing + 1) × length |
| Spacing.ReportSpacings | examples/invoke.rs:234-249 | succeeds iff every instruction's spacing succeeds, and then holds exactly those spacings for exactly the instructions present. Otherwise it aborts on an instruction whose list fails, with that list's failure, and every smaller instruction's list succeeds (so it is the first failing one in ascending order) |
| Spacing.Analyse | examples/invoke.rs:157-249 | the csv rows are those of the trace whatever happens next. The analysis aborts on an empty trace iff it is empty, and on the zero divisor iff the narrowed length is zero. It succeeds iff neither holds and every instruction's spacing succeeds. A per-instruction abort names an instruction of the trace with its list's failure, and it is the least failing instruction in ascending order: every smaller instruction's list succeeds. On success the counts, global spacing and per-instruction spacings are those of the trace |
| Spacing.MonotoneTraceHasSpacings | examples/invoke.rs:234-249 | if the clock never goes backwards, the trace is shorter than 2^32, and every instruction occurs at least twice, no instruction makes the loop abort |
| Spacing.ExampleTimes | examples/invoke.rs:187 | in the trace (0 at 0 ns, 1 at 10, 0 at 20, 1 at 35), instruction 0 keeps [0, 20] and instruction 1 keeps [10, 35] |
| Spacing.ExampleSpacing | examples/invoke.rs:245 | the list [10, 35] has spacing 12 ns: `Duration` division truncates 25 ns over two samples to whole nanoseconds |
| Spacing.ExampleGlobalSpacing | examples/invoke.rs:191 | the example trace has global spacing 35 / 4, truncated to 8 ns |
| Decimal.ParseSigned | examples/invoke.rs:109-118 | a parsed value lies in −bound .. bound − 1; the text starts with a sign or a digit; the empty string and a lone sign are refused. When a text is accepted, what follows the optional sign is a non-empty run of digits whose value is the absolute value of the result, and the result is negative only after a `-` and positive only without one |
| Decimal.ParseRender | examples/invoke.rs:109-118 | every integer of the width parses back from its decimal rendering |
| Decimal.ParsePlus | examples/invoke.rs:109-118 | a leading `+` before any digit run, leading zeros included, is accepted and gives the digits' value whenever it lies below the bound |
| Decimal.ParseOverflow | examples/invoke.rs:111 | digits whose value is at least the bound are refused rather than wrapped |
| Decimal.ParseUnderflow | examples/invoke.rs:111 | a `-` followed by digits whose value exceeds the bound is refused rather than wrapped |
| Decimal.ParseRejectsNonDigit | examples/invoke.rs:109-118 | any character other than a digit after the optional leading sign makes the text unparsable |
| Decimal.ParseDigits | examples/invoke.rs:109-118 | unsigned digits, leading zeros included, parse to their value whenever it lies below the bound |
| Decimal.ParseNegative | examples/invoke.rs:109-118 | a `-` followed by digits, leading zeros included, parses to the negated value whenever that is not below −bound |
| Arguments.FindExport | examples/invoke.rs:67-71 | finds an entry with the name, and no earlier entry has it; finds nothing iff no entry has the name |
| Arguments.FunctionImportCountIsCardinality | examples/invoke.rs:81-88 | the import count is the number of positions that hold a function import; tables, memories and globals do not count |
| Arguments.Resolve | examples/invoke.rs:57-101 | every abort is stated as an if-and-only-if, checked in the code's order. A missing section is reported for the first one missing, in the order export, function, type. The other aborts are: no entry has the name; the first entry with the name is not a function; its index lies among the function imports; it lies past the function section; or its function-section entry lies past the type section. On success the chosen export is the first with the name and is a function, its index is the function-import count plus the function-section index, and the signature is the type-section entry that the function-section entry names |
| Arguments.ConvertArg | examples/invoke.rs:108-131 | a converted value has the variant of the parameter's type. An i32 or i64 argument converts iff it parses in that width, and to the parsed value. An f32 or f64 argument converts iff the supplied float parser accepts it, and to the bits that parser returns |
| Arguments.ConvertFrom | examples/invoke.rs:104-132 | converting from a position succeeds iff every later parameter has an argument that converts, giving one value per parameter in order. Otherwise the error names the first parameter that fails, as missing iff it has no argument and with its expected type otherwise |
| Arguments.ConvertArgs | examples/invoke.rs:104-132 | succeeds iff there are at least as many arguments as parameters and each converts. It then yields exactly one value per parameter, in order, of the parameter's type, each the conversion of the argument at the same position, so extra arguments are ignored. Otherwise the error names the first parameter without a usable argument: missing iff it has no argument, and otherwise carrying its expected type |
| Arguments.CallArguments | examples/invoke.rs:55-133 | resolution errors are passed through unchanged. Once the export resolves, the result succeeds iff there are at least as many arguments as the signature's parameters and each converts. Success yields one value per parameter, in order, of the parameter's type, each the conversion of the argument at the same position. A failure names the first parameter without a usable argument: missing iff it has no argument, and otherwise carrying its expected type |
| Arguments.ConvertRendered | examples/invoke.rs:104-118 | integers within their parameters' widths, rendered as decimal text, convert back to the same integers |

## Left out

- Floating point: the gas estimate, the proportional "verify" sum and the per-instruction gas lines (examples/invoke.rs:196-199, 206, 219-229, 260-262) are floating-point reporting and are not modelled.
- Float arguments: parsing of `f32` and `f64` arguments is a parameter of the conversion functions (`parseF32`, `parseF64`), returning the bit pattern or nothing. Float parsing itself is not modelled.
- The wall clock: `Instant::now`, `sample_time`, `start.elapsed()`, the never-updated `instr_total_ns`, the overhead figures and the `assert!` at line 208 depend on real time and are not modelled. The timestamps of a trace are inputs.
- Profiler.TracingProfiler: the `clock` field holds a clock handle that `trace` never reads, so it is not modelled.
- File and console output: writing `trace.csv` and the `println!`/`dbg!` calls are I/O. The model produces the csv rows as values (`Row`) and does not format them.
- Foreign calls: loading and deserialising the module, instantiating it and running the function belong to external libraries. The parsed module is an input (`Arguments.Module`), and the recorded trace is an input to the analysis.
- The usage check on the number of command-line arguments (lines 45-50) is not modelled. The program arguments after the function name are an input.
- Aggregation.Aggregate: occurrence counts are unbounded naturals, so a `u64` count wrapping past 2^64 samples is not modelled.
- Spacing.InstructionSpacing: `Duration / u32` is modelled as exact truncating division of the nanosecond count. The standard library divides seconds and sub-second nanoseconds separately, which can give 1 ns less.
- Spacing.GlobalAverageSpacing: the same exact-division simplification as `InstructionSpacing` applies.
- Spacing.DurationSince: `Instant::duration_since` of the timing crate is taken to saturate at zero when the earlier instant is later. That crate is not part of this model.
- Arguments.Resolve: an export index below the number of function imports is one abort, `IndexUnderflow`. In Rust it panics on subtraction overflow in debug builds and indexes out of range in release builds; both abort.
