/** The extension's standalone FunctionTracer: while enabled, each logged
    call is pushed onto a trace of at most 1000 entries, oldest evicted
    first, with its duration raised to at least 0.01. It keeps no counters:
    its statistics are computed from the trace. */
module StandaloneTracer {
  import opened Util
  import opened TraceBuffer

  const MaxEntries: nat := 1000
  const MinDuration: real := 0.01

  datatype Entry = Entry(funcId: string, duration: real, timestamp: int)

  function Duration(e: Entry): real {
    e.duration
  }

  /** `Math.max(duration, 0.01)` */
  function Floored(duration: real): (r: real)
    ensures r >= MinDuration && r >= duration
    ensures r == duration || r == MinDuration
  {
    if duration > MinDuration then duration else MinDuration
  }

  datatype Stats = Stats(totalCalls: nat, avgDuration: real)

  class Tracer {
    var enabled: bool
    var trace: seq<Entry>

    /** The trace is bounded and every stored duration is at least 0.01. */
    predicate Valid()
      reads this
    {
      |trace| <= MaxEntries && forall i :: 0 <= i < |trace| ==> trace[i].duration >= MinDuration
    }

    constructor ()
      ensures Valid() && !enabled && trace == []
    {
      enabled := false;
      trace := [];
    }

    /** enable: switches tracing on; unlike the application tracer it keeps
        the trace. */
    method Enable()
      modifies this
      ensures enabled && trace == old(trace)
    {
      enabled := true;
    }

    method Disable()
      modifies this
      ensures !enabled && trace == old(trace)
    {
      enabled := false;
    }

    /** log: nothing while disabled; otherwise the entry with its floored
        duration is pushed with oldest-first eviction. */
    method Log(funcId: string, duration: real, now: int)
      requires Valid()
      modifies this
      ensures Valid() && enabled == old(enabled)
      ensures !old(enabled) ==> trace == old(trace)
      ensures old(enabled) ==> trace == Pushed(old(trace), Entry(funcId, Floored(duration), now), MaxEntries)
    {
      if !enabled {
        return;
      }
      trace := trace + [Entry(funcId, if duration > MinDuration then duration else MinDuration, now)];
      if |trace| > MaxEntries {
        trace := trace[1..];
      }
    }

    /** getTrace(limit = 20): `trace.slice(-limit)`. */
    function GetTrace(limit: int := 20): (r: seq<Entry>)
      reads this
      ensures limit > 0 ==> r == trace[|trace| - (if limit < |trace| then limit else |trace|)..]
      ensures limit == 0 ==> r == trace
      ensures limit < 0 ==> r == trace[(if -limit < |trace| then -limit else |trace|)..]
    {
      SliceLast(trace, limit);
      SliceFrom(trace, -limit)
    }

    /** getSlowest(count = 10): a copy sorted by descending duration, cut to
        `count` entries. */
    function GetSlowest(count: int := 10): (r: seq<Entry>)
      reads this
      ensures SortedDesc(r, Duration)
      ensures multiset(r) <= multiset(trace)
      ensures count >= 0 ==> |r| == if count < |trace| then count else |trace|
    {
      Slowest(trace, Duration, count)
    }

    /** getStats: both figures are 0 for an empty trace; otherwise totalCalls
        is the current trace length (not the number of calls ever logged). */
    function GetStats(): (r: Stats)
      reads this
      ensures r.totalCalls == |trace|
      ensures trace == [] ==> r.avgDuration == 0.0
    {
      if |trace| == 0 then Stats(0, 0.0) else Stats(|trace|, Average(trace, Duration))
    }

    /** clear: empties the trace; `enabled` stays. */
    method Clear()
      modifies this
      ensures Valid() && trace == [] && enabled == old(enabled)
    {
      trace := [];
    }
  }

  /** Since every stored duration is at least 0.01, so is a non-empty
      trace's average. */
  lemma AverageAtLeastFloor(t: Tracer, hi: real)
    requires t.Valid() && t.trace != []
    requires forall i :: 0 <= i < |t.trace| ==> t.trace[i].duration <= hi
    ensures MinDuration <= t.GetStats().avgDuration <= hi
  {
    AverageBounds(t.trace, Duration, MinDuration, hi);
  }

  /** No entry getSlowest leaves out is slower than one it returns. */
  lemma GetSlowestSpec(t: Tracer, count: int)
    ensures forall x, y :: x in t.GetSlowest(count) && y in multiset(t.trace) - multiset(t.GetSlowest(count)) ==>
              x.duration >= y.duration
  {
    SlowestAreSlowest(t.trace, Duration, count);
  }
}
