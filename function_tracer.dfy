/** The application's FunctionTracer: while enabled, every logged call is
    pushed onto a trace of at most 1000 entries (oldest evicted first) and
    counted in totalCalls and in per-module and per-function counters. */
module FunctionTracer {
  import opened Util
  import opened TraceBuffer

  const MaxEntries: nat := 1000

  datatype TraceEntry = TraceEntry(id: string, moduleId: string, functionId: string,
                                   timestamp: string, duration: real, args: string)

  function Duration(e: TraceEntry): real {
    e.duration
  }

  /** `Math.round(d * 100) / 100`, with Math.round rounding halves up. */
  function Round2(d: real): (r: real)
    ensures d - 0.005 < r <= d + 0.005
    ensures d >= 0.0 ==> r >= 0.0
  {
    ((d * 100.0 + 0.5).Floor as real) / 100.0
  }

  /** `startTime ? performance.now() - startTime : 0`, rounded to hundredths:
      a missing or zero start time gives duration 0. */
  function ElapsedOf(startTime: Option<real>, now: real): (r: real)
    ensures startTime.None? || startTime.value == 0.0 ==> r == 0.0
  {
    Round2(if startTime.Some? && startTime.value != 0.0 then now - startTime.value else 0.0)
  }

  /** `args.length > 0 ? JSON.stringify(args).substring(0, 100) : '[]'`, with
      the serialised text given as `argsJson`. */
  function ArgsText(argCount: nat, argsJson: string): (r: string)
    ensures argCount == 0 ==> r == "[]"
    ensures argCount > 0 ==> |r| <= 100 && |r| <= |argsJson| && r == argsJson[..|r|]
    ensures argCount > 0 && |argsJson| >= 100 ==> |r| == 100
  {
    if argCount > 0 then argsJson[..if |argsJson| < 100 then |argsJson| else 100] else "[]"
  }

  /** `counts[k] = (counts[k] || 0) + 1` */
  function Bump(counts: map<string, nat>, k: string): (r: map<string, nat>)
    ensures r.Keys == counts.Keys + {k}
    ensures r[k] == (if k in counts then counts[k] else 0) + 1
    ensures forall j :: j in counts && j != k ==> r[j] == counts[j]
  {
    counts[k := (if k in counts then counts[k] else 0) + 1]
  }

  datatype Stats = Stats(totalCalls: nat, byModule: map<string, nat>, byFunction: map<string, nat>,
                         avgDuration: real, slowest: seq<TraceEntry>)

  class Tracer {
    var enabled: bool
    var trace: seq<TraceEntry>
    var totalCalls: nat
    var byModule: map<string, nat>
    var byFunction: map<string, nat>

    /** The trace never holds more than maxEntries entries. */
    predicate Valid()
      reads this
    {
      |trace| <= MaxEntries
    }

    constructor ()
      ensures Valid() && !enabled && trace == []
      ensures totalCalls == 0 && byModule == map[] && byFunction == map[]
    {
      enabled := false;
      trace := [];
      totalCalls := 0;
      byModule := map[];
      byFunction := map[];
    }

    /** enable: switches tracing on and resets the trace and every counter. */
    method Enable()
      modifies this
      ensures Valid() && enabled && trace == []
      ensures totalCalls == 0 && byModule == map[] && byFunction == map[]
    {
      enabled := true;
      trace := [];
      totalCalls := 0;
      byModule := map[];
      byFunction := map[];
    }

    /** disable: switches tracing off; the trace and counters are kept. */
    method Disable()
      modifies this
      ensures !enabled
      ensures trace == old(trace) && totalCalls == old(totalCalls)
      ensures byModule == old(byModule) && byFunction == old(byFunction)
    {
      enabled := false;
    }

    /** log: nothing while disabled. Otherwise the entry, numbered after the
        current trace length, is pushed with oldest-first eviction, and
        totalCalls and the two counters rise by one whether or not an entry
        was evicted. */
    method Log(moduleId: string, functionId: string, argCount: nat, argsJson: string,
               startTime: Option<real>, now: real, timestamp: string) returns (entry: Option<TraceEntry>)
      requires Valid()
      modifies this
      ensures Valid() && enabled == old(enabled)
      ensures !old(enabled) ==> entry.None? && trace == old(trace) && totalCalls == old(totalCalls) &&
                                byModule == old(byModule) && byFunction == old(byFunction)
      ensures old(enabled) ==> entry.Some? &&
                               entry.value == TraceEntry("TRACE_" + NatToString(|old(trace)| + 1), moduleId, functionId,
                                                         timestamp, ElapsedOf(startTime, now), ArgsText(argCount, argsJson)) &&
                               trace == Pushed(old(trace), entry.value, MaxEntries) &&
                               totalCalls == old(totalCalls) + 1 &&
                               byModule == Bump(old(byModule), moduleId) &&
                               byFunction == Bump(old(byFunction), functionId)
    {
      if !enabled {
        return None;
      }
      var e := TraceEntry("TRACE_" + NatToString(|trace| + 1), moduleId, functionId,
                          timestamp, ElapsedOf(startTime, now), ArgsText(argCount, argsJson));
      trace := trace + [e];
      if |trace| > MaxEntries {
        trace := trace[1..];
      }
      totalCalls := totalCalls + 1;
      byModule := byModule[moduleId := (if moduleId in byModule then byModule[moduleId] else 0) + 1];
      byFunction := byFunction[functionId := (if functionId in byFunction then byFunction[functionId] else 0) + 1];
      entry := Some(e);
    }

    /** getTrace(limit = 100): `trace.slice(-limit)`, the last `limit` entries
        in order, or the whole trace when limit is 0. */
    function GetTrace(limit: int := 100): (r: seq<TraceEntry>)
      reads this
      ensures limit > 0 ==> r == trace[|trace| - (if limit < |trace| then limit else |trace|)..]
      ensures limit == 0 ==> r == trace
      ensures limit < 0 ==> r == trace[(if -limit < |trace| then -limit else |trace|)..]
    {
      SliceLast(trace, limit);
      SliceFrom(trace, -limit)
    }

    /** filterByModule: `trace.filter(e => e.moduleId === moduleId)` */
    function FilterByModule(moduleId: string): (r: seq<TraceEntry>)
      reads this
      ensures |r| <= |trace|
    {
      Filter(trace, ModuleIs(moduleId))
    }

    /** filterByFunction: `trace.filter(e => e.functionId === functionId)` */
    function FilterByFunction(functionId: string): (r: seq<TraceEntry>)
      reads this
      ensures |r| <= |trace|
    {
      Filter(trace, FunctionIs(functionId))
    }

    /** clear: empties the trace and resets every counter; `enabled` stays. */
    method Clear()
      modifies this
      ensures Valid() && enabled == old(enabled) && trace == []
      ensures totalCalls == 0 && byModule == map[] && byFunction == map[]
    {
      trace := [];
      totalCalls := 0;
      byModule := map[];
      byFunction := map[];
    }

    /** getSlowest(limit = 10): a copy sorted by descending duration, cut to
        `limit` entries; the trace itself is only read. */
    function GetSlowest(limit: int := 10): (r: seq<TraceEntry>)
      reads this
      ensures SortedDesc(r, Duration)
      ensures multiset(r) <= multiset(trace)
      ensures limit >= 0 ==> |r| == if limit < |trace| then limit else |trace|
    {
      Slowest(trace, Duration, limit)
    }

    /** getStats: the counters, the average duration (0 for an empty trace)
        and the five slowest entries. */
    function GetStats(): (r: Stats)
      reads this
      ensures r.totalCalls == totalCalls && r.byModule == byModule && r.byFunction == byFunction
      ensures trace == [] ==> r.avgDuration == 0.0
      ensures |r.slowest| == if 5 < |trace| then 5 else |trace|
    {
      Stats(totalCalls, byModule, byFunction, Average(trace, Duration), GetSlowest(5))
    }
  }

  function ModuleIs(moduleId: string): TraceEntry -> bool {
    (e: TraceEntry) => e.moduleId == moduleId
  }

  function FunctionIs(functionId: string): TraceEntry -> bool {
    (e: TraceEntry) => e.functionId == functionId
  }

  /** The module filter returns exactly the entries of that module, each as
      often as it occurs in the trace. */
  lemma FilterByModuleSpec(t: Tracer, moduleId: string, e: TraceEntry)
    ensures e in t.FilterByModule(moduleId) <==> e in t.trace && e.moduleId == moduleId
    ensures multiset(t.FilterByModule(moduleId))[e] == if e.moduleId == moduleId then multiset(t.trace)[e] else 0
  {
    FilterCounts(t.trace, ModuleIs(moduleId), e);
  }

  /** The same for the function filter. */
  lemma FilterByFunctionSpec(t: Tracer, functionId: string, e: TraceEntry)
    ensures e in t.FilterByFunction(functionId) <==> e in t.trace && e.functionId == functionId
    ensures multiset(t.FilterByFunction(functionId))[e] == if e.functionId == functionId then multiset(t.trace)[e] else 0
  {
    FilterCounts(t.trace, FunctionIs(functionId), e);
  }

  /** Both filters keep trace order: filtering an older part and a newer part
      separately and concatenating gives the filter of the whole. */
  lemma FiltersKeepOrder(older: seq<TraceEntry>, newer: seq<TraceEntry>, moduleId: string, functionId: string)
    ensures Filter(older + newer, ModuleIs(moduleId)) == Filter(older, ModuleIs(moduleId)) + Filter(newer, ModuleIs(moduleId))
    ensures Filter(older + newer, FunctionIs(functionId)) == Filter(older, FunctionIs(functionId)) + Filter(newer, FunctionIs(functionId))
  {
    FilterAppend(older, newer, ModuleIs(moduleId));
    FilterAppend(older, newer, FunctionIs(functionId));
  }

  /** No entry getSlowest leaves out is slower than one it returns, and
      entries of equal duration keep their trace order. */
  lemma GetSlowestSpec(t: Tracer, limit: int, d: real)
    ensures forall x, y :: x in t.GetSlowest(limit) && y in multiset(t.trace) - multiset(t.GetSlowest(limit)) ==>
              x.duration >= y.duration
    ensures Filter(SortDesc(t.trace, Duration), KeyIs(Duration, d)) == Filter(t.trace, KeyIs(Duration, d))
  {
    SlowestAreSlowest(t.trace, Duration, limit);
    SortStable(t.trace, Duration, d);
  }

  /** The average duration lies between the smallest and the largest. */
  lemma AverageDurationBounds(t: Tracer, lo: real, hi: real)
    requires t.trace != []
    requires forall i :: 0 <= i < |t.trace| ==> lo <= t.trace[i].duration <= hi
    ensures lo <= t.GetStats().avgDuration <= hi
  {
    AverageBounds(t.trace, Duration, lo, hi);
  }
}
