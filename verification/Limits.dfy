// The limit policy applied to every request and the drain grace that must
// outlast any request that obeys it (internal/executor/executor.go and
// internal/config/config.go).
module Limits {
  import Batch
  import opened Numbers
  import opened Options

  datatype Mode = Run | Test | Trace

  // The fields of a request that carry limits; a non-positive value is an omitted one.
  datatype Request = Request(mode: Mode, timeoutMs: int, memoryMB: int, outputLimitBytes: int, compileTimeoutMs: int)

  datatype Policy = Policy(
    defaultTimeout: int, maxTimeoutMs: int,
    defaultMemory: int, maxMemoryMB: int,
    maxOutputBytes: int,
    defaultCompileTimeout: int, maxCompileTimeoutMs: int,
    maxBatchTotalMs: int,
    defaultTestTimeout: int, maxTestTimeoutMs: int)

  datatype Floors = Floors(timeoutMs: int, memoryMB: int)

  const SHUTDOWN_GRACE_SLACK_MS := 5000

  function Clamp(v: int, def: int, max: int): int {
    var v := if v <= 0 then def else v;
    if max > 0 && v > max then max else v
  }

  function RaiseToFloor(v: int, floor: int, max: int): int {
    var v := if floor > 0 && v < floor then floor else v;
    if max > 0 && v > max then max else v
  }

  // The value a caller asked for, or the default where the caller left it out.
  ghost function Asked(v: int, def: int): int {
    if v <= 0 then def else v
  }

  // An asked-for value lifted to a floor, then held under a ceiling: the
  // ceiling wins over the floor. A non-positive bound is no bound.
  ghost function Within(v: int, floor: int, max: int): int {
    var lifted := if floor > 0 then Max(v, floor) else v;
    if max > 0 then Min(lifted, max) else lifted
  }

  ghost function CeilingFor(p: Policy, mode: Mode): int {
    if mode != Run && p.maxTestTimeoutMs > 0 then p.maxTestTimeoutMs else p.maxTimeoutMs
  }

  ghost function DefaultFor(p: Policy, mode: Mode): int {
    if mode != Run && p.defaultTestTimeout > 0 then p.defaultTestTimeout else p.defaultTimeout
  }

  ghost function FloorOf(floors: Option<Floors>): Floors {
    if floors.Some? then floors.value else Floors(0, 0)
  }

  /** The effective limits of a request, each field between its bounds. */
  ghost predicate Effective(p: Policy, floors: Option<Floors>, req: Request, r: Request) {
    var f := FloorOf(floors);
    && r.mode == req.mode
    && r.timeoutMs == Within(Asked(req.timeoutMs, DefaultFor(p, req.mode)), f.timeoutMs, CeilingFor(p, req.mode))
    && r.memoryMB == Within(Asked(req.memoryMB, p.defaultMemory), f.memoryMB, p.maxMemoryMB)
    && r.compileTimeoutMs == Within(Asked(req.compileTimeoutMs, p.defaultCompileTimeout), 0, p.maxCompileTimeoutMs)
    && r.outputLimitBytes == (if p.maxOutputBytes > 0
                              then Within(Asked(req.outputLimitBytes, p.maxOutputBytes), 0, p.maxOutputBytes)
                              else req.outputLimitBytes)
  }

  method ClampLimits(p: Policy, floors: Option<Floors>, request: Request) returns (req: Request)
    ensures Effective(p, floors, request, req)
  {
    req := request;
    var defTimeout, maxTimeout := p.defaultTimeout, p.maxTimeoutMs;
    if req.mode == Test || req.mode == Trace {
      if p.defaultTestTimeout > 0 {
        defTimeout := p.defaultTestTimeout;
      }
      if p.maxTestTimeoutMs > 0 {
        maxTimeout := p.maxTestTimeoutMs;
      }
    }
    req := req.(timeoutMs := Clamp(req.timeoutMs, defTimeout, maxTimeout));
    req := req.(memoryMB := Clamp(req.memoryMB, p.defaultMemory, p.maxMemoryMB));
    if p.maxOutputBytes > 0 {
      req := req.(outputLimitBytes := Clamp(req.outputLimitBytes, p.maxOutputBytes, p.maxOutputBytes));
    }
    req := req.(compileTimeoutMs := Clamp(req.compileTimeoutMs, p.defaultCompileTimeout, p.maxCompileTimeoutMs));
    match floors {
      case None =>
      case Some(f) =>
        req := req.(timeoutMs := RaiseToFloor(req.timeoutMs, f.timeoutMs, maxTimeout));
        req := req.(memoryMB := RaiseToFloor(req.memoryMB, f.memoryMB, p.maxMemoryMB));
    }
  }

  // Clamping is a projection: what comes out of it goes through it unchanged.
  lemma ClampedIsFixed(p: Policy, floors: Option<Floors>, req: Request, once: Request, twice: Request)
    requires Effective(p, floors, req, once)
    requires Effective(p, floors, once, twice)
    ensures twice == once
  {
  }

  function EffectiveOutputLimit(requested: int, ceiling: int): (r: int)
    ensures ceiling > 0 ==> 0 < r <= ceiling
    ensures r == requested || r == ceiling
    ensures 0 < requested <= ceiling ==> r == requested
  {
    if requested <= 0 || requested > ceiling then ceiling else requested
  }

  // The runtimes clamp the output budget a second time against the same
  // ceiling; after the service has clamped it that changes nothing.
  lemma RuntimeOutputClampAgrees(p: Policy, floors: Option<Floors>, req: Request, r: Request)
    requires p.maxOutputBytes > 0
    requires Effective(p, floors, req, r)
    ensures EffectiveOutputLimit(r.outputLimitBytes, p.maxOutputBytes) == r.outputLimitBytes
    ensures 0 < r.outputLimitBytes <= p.maxOutputBytes
  {
  }

  // ---- the drain grace

  // The longest of the three shapes the floor is computed from.
  ghost function Worst(maxCompileMs: int, maxRunMs: int, maxBatchTotalMs: int, maxTestMs: int): int {
    Max(Max(maxCompileMs, maxBatchTotalMs) + maxRunMs, maxTestMs)
  }

  // overrideMs is RUNNER_SHUTDOWN_GRACE_MS when it is set to an integer.
  method ShutdownGraceMs(maxCompileMs: int, maxRunMs: int, maxBatchTotalMs: int, maxTestMs: int,
                         overrideMs: Option<int>)
      returns (grace: int)
    ensures var floor := Worst(maxCompileMs, maxRunMs, maxBatchTotalMs, maxTestMs) + SHUTDOWN_GRACE_SLACK_MS;
            grace == if overrideMs.Some? && overrideMs.value > 0 then Max(floor, overrideMs.value) else floor
  {
    var worst := maxCompileMs + maxRunMs;
    var batchWorst := maxBatchTotalMs + maxRunMs;
    if batchWorst > worst {
      worst := batchWorst;
    }
    if maxTestMs > worst {
      worst := maxTestMs;
    }
    var floor := worst + SHUTDOWN_GRACE_SLACK_MS;
    var v := if overrideMs.Some? && overrideMs.value > 0 then overrideMs.value else floor;
    if v > floor {
      return v;
    }
    return floor;
  }

  // The ceilings the configuration reads are positive whatever the environment holds.
  ghost predicate Configured(p: Policy) {
    && p.maxTimeoutMs > 0 && p.maxTestTimeoutMs > 0
    && p.maxCompileTimeoutMs > 0 && p.maxBatchTotalMs > 0
  }

  ghost function FloorMs(p: Policy): int {
    Worst(p.maxCompileTimeoutMs, p.maxTimeoutMs, p.maxBatchTotalMs, p.maxTestTimeoutMs) + SHUTDOWN_GRACE_SLACK_MS
  }

  // How long a request may hold its slot: a compiled language compiles first,
  // except in test mode, where one jail does both under one timeout.
  ghost function HoldMs(r: Request, compiled: bool): int {
    (if compiled && r.mode != Test then Max(r.compileTimeoutMs, 0) else 0) + r.timeoutMs
  }

  ghost predicate Covered(p: Policy, grace: int, r: Request, compiled: bool) {
    HoldMs(r, compiled) + SHUTDOWN_GRACE_SLACK_MS <= grace
  }

  // Single runs, test runs and interpreted traces end before the grace does.
  lemma SingleRequestsDrain(p: Policy, floors: Option<Floors>, req: Request, r: Request, compiled: bool, grace: int)
    requires Configured(p) && grace >= FloorMs(p)
    requires Effective(p, floors, req, r)
    requires !(compiled && r.mode == Trace)
    ensures Covered(p, grace, r, compiled)
  {
  }

  // A whole batch too, whatever its inputs do, when each run keeps its timeout.
  lemma BatchesDrain<R>(p: Policy, floors: Option<Floors>, req: Request, r: Request,
                        turns: seq<Batch.Turn<R>>, compile: nat, k: nat, grace: int)
    requires Configured(p) && grace >= FloorMs(p)
    requires Effective(p, floors, req, r) && r.mode == Run && r.timeoutMs >= 0
    requires compile <= Max(r.compileTimeoutMs, 0) * Batch.NS_PER_MS
    requires forall t :: t in turns ==> t.took <= r.timeoutMs * Batch.NS_PER_MS
    requires Batch.RunsExactly(turns, compile, p.maxBatchTotalMs, k)
    ensures Batch.ClockAt(turns, compile, k) + SHUTDOWN_GRACE_SLACK_MS * Batch.NS_PER_MS <= grace * Batch.NS_PER_MS
  {
    Batch.OvershootIsOneRun(turns, compile, p.maxBatchTotalMs, k, r.timeoutMs * Batch.NS_PER_MS);
  }

  // A traced run of a compiled language compiles and then runs under the test
  // ceiling, a sum the floor does not contain. Every such request is covered
  // exactly when the sum of the two ceilings is.
  lemma CompiledTracesDrainIff(p: Policy, floors: Option<Floors>, grace: int)
    requires Configured(p)
    ensures (forall req, r :: Effective(p, floors, req, r) && r.mode == Trace ==> Covered(p, grace, r, true))
       <==> p.maxCompileTimeoutMs + p.maxTestTimeoutMs + SHUTDOWN_GRACE_SLACK_MS <= grace
  {
    var longest := Request(Trace, p.maxTestTimeoutMs, 1, 1, p.maxCompileTimeoutMs);
    var f := FloorOf(floors);
    var r := Request(Trace, p.maxTestTimeoutMs, Within(Asked(1, p.defaultMemory), f.memoryMB, p.maxMemoryMB),
                     if p.maxOutputBytes > 0 then Within(Asked(1, p.maxOutputBytes), 0, p.maxOutputBytes) else 1,
                     p.maxCompileTimeoutMs);
    assert Effective(p, floors, longest, r);
    assert HoldMs(r, true) == p.maxCompileTimeoutMs + p.maxTestTimeoutMs;
  }

  // With a batch budget of half a minute and the other ceilings at their
  // defaults, the sum alone is beyond the floor, slack and all.
  lemma CompiledTraceOutlivesTheFloor()
    ensures exists p: Policy, r: Request ::
              && Configured(p) && Effective(p, None, r, r) && r.mode == Trace
              && HoldMs(r, true) > FloorMs(p)
  {
    var p := Policy(3000, 10_000, 128, 512, 65_536, 10_000, 20_000, 30_000, 15_000, 30_000);
    var r := Request(Trace, 30_000, 128, 65_536, 20_000);
    assert FloorMs(p) == 45_000;
    assert Effective(p, None, r, r);
  }
}
