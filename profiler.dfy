/**
 * The tracing profiler that the interpreter calls once per dispatched
 * instruction, and the value types it records.
 */
module Profiler {

  /** An interpreter instruction, identified by its rank in the instruction
      type's derived ordering (the order in which a BTreeMap visits its keys). */
  type Instruction = nat

  /** A reading of the monotonic clock, in nanoseconds from an arbitrary origin. */
  type Timestamp = nat

  /** A span of time, in nanoseconds. */
  type Duration = nat

  /** One entry of the trace: the instruction and the clock reading taken for it. */
  datatype Sample = Sample(instr: Instruction, at: Timestamp)

  /** An append-only recorder of samples, in dispatch order. */
  class TracingProfiler {
    var trace: seq<Sample>

    /** A profiler starts with nothing recorded. */
    constructor ()
      ensures trace == []
    {
      trace := [];
    }

    /** Records one sample at the end of the trace; what was recorded before stays as it was. */
    method Trace(instruction: Instruction, clock: Timestamp)
      modifies this
      ensures trace == old(trace) + [Sample(instruction, clock)]
    {
      trace := trace + [Sample(instruction, clock)];
    }
  }
}
