// The concurrency limiter as a system of interleaved steps: every request is
// a goroutine that stops at each access to shared state, and the scheduler
// picks who moves next (internal/transport/httpapi/middleware.go).
module Limiter {
  import opened Options

  // Where a request stands: what it will do at its next step.
  datatype Pc =
    | Arrived    // try to take a slot
    | Admitted   // has a slot; will raise the inflight gauge
    | Serving    // inside the wrapped handler
    | Leaving    // handler returned or panicked; will give the slot back
    | Released   // will lower the gauge
    | Done
    | Refused    // found no slot; will raise the overload counter
    | Shed

  const HOLDERS: set<Pc> := {Admitted, Serving, Leaving}
  const GAUGED: set<Pc> := {Serving, Leaving, Released}
  const ENTERED: set<Pc> := {Admitted, Serving, Leaving, Released, Done}
  const REFUSED: set<Pc> := {Refused, Shed}
  const UNFINISHED: set<Pc> := {Arrived, Admitted, Serving, Leaving, Released, Refused}

  /** How many requests stand at one of the given points. */
  ghost function Count(pcs: seq<Pc>, at: set<Pc>): (n: nat)
    ensures n <= |pcs|
  {
    if pcs == [] then 0
    else Count(pcs[..|pcs| - 1], at) + if pcs[|pcs| - 1] in at then 1 else 0
  }

  class Gate {
    const max: nat
    var slots: nat      // elements in the channel
    var inflight: int
    var overload: nat
    var pcs: seq<Pc>    // one entry per request that ever arrived

    ghost predicate Valid()
      reads this
    {
      && max > 0
      && slots == Count(pcs, HOLDERS) <= max
      && inflight == Count(pcs, GAUGED)
      && overload == Count(pcs, {Shed})
    }

    constructor (max: nat)
      requires max > 0
      ensures Valid() && this.max == max && pcs == []
    {
      this.max := max;
      slots, inflight, overload, pcs := 0, 0, 0, [];
    }

    method Arrive() returns (i: nat)
      requires Valid()
      modifies this
      ensures Valid()
      ensures i == |old(pcs)| && pcs == old(pcs) + [Arrived]
    {
      CountAppend(pcs, Arrived, HOLDERS);
      CountAppend(pcs, Arrived, GAUGED);
      CountAppend(pcs, Arrived, {Shed});
      i := |pcs|;
      pcs := pcs + [Arrived];
    }

    // One atomic action of request i; a finished request does nothing.
    method Step(i: nat)
      requires Valid() && i < |pcs|
      modifies this
      ensures Valid()
      ensures |pcs| == |old(pcs)| && forall j :: 0 <= j < |pcs| && j != i ==> pcs[j] == old(pcs[j])
      ensures pcs[i] == After(old(pcs[i]), Count(old(pcs), HOLDERS) < max)
      ensures old(pcs[i]) in UNFINISHED ==> Remaining(pcs[i]) < Remaining(old(pcs[i]))
    {
      hide Count;
      ghost var was := pcs;
      match pcs[i] {
        case Arrived =>
          if slots < max {
            slots := slots + 1;
            pcs := pcs[i := Admitted];
          } else {
            pcs := pcs[i := Refused];
          }
        case Admitted =>
          inflight := inflight + 1;
          pcs := pcs[i := Serving];
        case Serving =>
          pcs := pcs[i := Leaving];
        case Leaving =>
          HolderTakesSlot(pcs, i);  // the receive finds an element: it cannot block
          slots := slots - 1;
          pcs := pcs[i := Released];
        case Released =>
          inflight := inflight - 1;
          pcs := pcs[i := Done];
        case Refused =>
          overload := overload + 1;
          pcs := pcs[i := Shed];
        case Done =>
        case Shed =>
      }
      Moved(was, i, pcs[i], HOLDERS);
      Moved(was, i, pcs[i], GAUGED);
      Moved(was, i, pcs[i], {Shed});
      assert pcs == was[i := pcs[i]];
    }
  }

  /** Where the requests stand after a schedule of arrivals (None) and steps; an entry that
      names nobody is an idle turn. A slot is free while fewer than `max` requests hold one. */
  ghost function Played(pcs: seq<Pc>, schedule: seq<Option<nat>>, max: nat): seq<Pc> {
    if schedule == [] then pcs
    else
      var before := Played(pcs, schedule[..|schedule| - 1], max);
      match schedule[|schedule| - 1]
      case None => before + [Arrived]
      case Some(i) =>
        if i < |before| then before[i := After(before[i], Count(before, HOLDERS) < max)] else before
  }

  method Run(g: Gate, schedule: seq<Option<nat>>)
    requires g.Valid()
    modifies g
    ensures g.Valid()
    ensures g.pcs == Played(old(g.pcs), schedule, g.max)
  {
    assert schedule[..0] == [];
    for k := 0 to |schedule|
      invariant g.Valid()
      invariant g.pcs == Played(old(g.pcs), schedule[..k], g.max)
    {
      assert schedule[..k + 1][..k] == schedule[..k];
      match schedule[k] {
        case None =>
          var _ := g.Arrive();
        case Some(i) =>
          if i < |g.pcs| {
            ghost var was := g.pcs;
            g.Step(i);
            assert g.pcs == was[i := g.pcs[i]];
          }
      }
    }
    assert schedule[..|schedule|] == schedule;
  }

  // max <= 0 leaves the handler unlimited.
  method LimitConcurrency(max: int) returns (g: Option<Gate>)
    ensures g.None? <==> max <= 0
    ensures g.Some? ==> fresh(g.value) && g.value.Valid() && g.value.max == max && g.value.pcs == []
  {
    if max <= 0 {
      return None;
    }
    var gate := new Gate(max);
    return Some(gate);
  }

  /** The program a request follows; `room` is whether a slot is free. */
  ghost function After(pc: Pc, room: bool): Pc {
    match pc
    case Arrived => if room then Admitted else Refused
    case Admitted => Serving
    case Serving => Leaving
    case Leaving => Released
    case Released => Done
    case Refused => Shed
    case Done => Done
    case Shed => Shed
  }

  ghost function Remaining(pc: Pc): nat {
    match pc
    case Arrived => 5
    case Admitted => 4
    case Serving => 3
    case Leaving => 2
    case Released => 1
    case Refused => 1
    case Done => 0
    case Shed => 0
  }

  // ---- what every reachable state satisfies

  // At most `max` requests are inside the handler, whatever the schedule.
  lemma HandlerIsBounded(g: Gate)
    requires g.Valid()
    ensures Count(g.pcs, {Serving}) <= g.slots <= g.max
  {
    CountMonotone(g.pcs, {Serving}, HOLDERS);
  }

  // The gauge is the handlers running, those just leaving, and those past the
  // release but before the decrement; it is never negative.
  lemma GaugeCountsItsOwners(g: Gate)
    requires g.Valid()
    ensures g.inflight == Count(g.pcs, {Serving, Leaving}) + Count(g.pcs, {Released}) >= 0
    ensures g.inflight <= g.max + Count(g.pcs, {Released})
  {
    assert GAUGED == {Serving, Leaving} + {Released};
    CountSplits(g.pcs, {Serving, Leaving}, {Released});
    CountMonotone(g.pcs, {Serving, Leaving}, HOLDERS);
  }

  // Every arrival is admitted, refused or undecided, and nothing is counted twice.
  lemma ArrivalsAreConserved(g: Gate)
    requires g.Valid()
    ensures |g.pcs| == Count(g.pcs, ENTERED) + Count(g.pcs, REFUSED) + Count(g.pcs, {Arrived})
    ensures g.overload == Count(g.pcs, REFUSED) - Count(g.pcs, {Refused})
  {
    CountSplits(g.pcs, ENTERED, REFUSED);
    CountSplits(g.pcs, ENTERED + REFUSED, {Arrived});
    forall pc | pc in g.pcs
      ensures pc in ENTERED + REFUSED + {Arrived}
    {
      match pc { case Arrived => case Admitted => case Serving => case Leaving =>
        case Released => case Done => case Refused => case Shed => }
    }
    CountAll(g.pcs, ENTERED + REFUSED + {Arrived});
    assert REFUSED == {Shed} + {Refused};
    CountSplits(g.pcs, {Shed}, {Refused});
  }

  // Once every request has finished, all slots are back, the gauge reads zero
  // and the overload counter is exactly the arrivals that were not served.
  lemma QuiescentIsClean(g: Gate)
    requires g.Valid()
    requires forall pc :: pc in g.pcs ==> pc == Done || pc == Shed
    ensures g.slots == 0 && g.inflight == 0
    ensures |g.pcs| == Count(g.pcs, {Done}) + g.overload
  {
    CountNone(g.pcs, HOLDERS);
    CountNone(g.pcs, GAUGED);
    CountSplits(g.pcs, {Done}, {Shed});
    CountAll(g.pcs, {Done} + {Shed});
  }

  // The slot goes back before the gauge goes down, so the gauge may read more
  // than `max`: with one slot, a second request can be counted in between.
  method GaugePassesMax() returns (g: Gate)
    ensures fresh(g) && g.Valid() && g.max == 1 && g.inflight == 2
  {
    g := new Gate(1);
    var a := g.Arrive();
    var b := g.Arrive();
    CountTwo(g.pcs, HOLDERS);
    g.Step(a);
    g.Step(a);
    g.Step(a);
    g.Step(a);
    CountTwo(g.pcs, HOLDERS);
    g.Step(b);
    g.Step(b);
    CountTwo(g.pcs, GAUGED);
  }

  // ---- counting

  lemma CountAppend(pcs: seq<Pc>, pc: Pc, at: set<Pc>)
    ensures Count(pcs + [pc], at) == Count(pcs, at) + if pc in at then 1 else 0
  {
    assert (pcs + [pc])[..|pcs|] == pcs;
  }

  lemma {:induction false} Moved(pcs: seq<Pc>, i: nat, to: Pc, at: set<Pc>)
    requires i < |pcs|
    ensures Count(pcs[i := to], at)
         == Count(pcs, at) - (if pcs[i] in at then 1 else 0) + (if to in at then 1 else 0)
  {
    var n := |pcs| - 1;
    var moved := pcs[i := to];
    if i == n {
      assert moved[..n] == pcs[..n];
    } else {
      assert moved[..n] == pcs[..n][i := to];
      Moved(pcs[..n], i, to, at);
    }
  }

  lemma {:induction false} HolderTakesSlot(pcs: seq<Pc>, i: nat)
    requires i < |pcs| && pcs[i] in HOLDERS
    ensures Count(pcs, HOLDERS) > 0
  {
    var n := |pcs| - 1;
    if i < n {
      HolderTakesSlot(pcs[..n], i);
    }
  }

  lemma {:induction false} CountMonotone(pcs: seq<Pc>, few: set<Pc>, many: set<Pc>)
    requires few <= many
    ensures Count(pcs, few) <= Count(pcs, many)
  {
    if pcs != [] {
      CountMonotone(pcs[..|pcs| - 1], few, many);
    }
  }

  lemma {:induction false} CountSplits(pcs: seq<Pc>, a: set<Pc>, b: set<Pc>)
    requires a !! b
    ensures Count(pcs, a + b) == Count(pcs, a) + Count(pcs, b)
  {
    if pcs != [] {
      CountSplits(pcs[..|pcs| - 1], a, b);
    }
  }

  lemma {:induction false} CountAll(pcs: seq<Pc>, at: set<Pc>)
    requires forall pc :: pc in pcs ==> pc in at
    ensures Count(pcs, at) == |pcs|
  {
    if pcs != [] {
      CountAll(pcs[..|pcs| - 1], at);
    }
  }

  lemma {:induction false} CountNone(pcs: seq<Pc>, at: set<Pc>)
    requires forall pc :: pc in pcs ==> pc !in at
    ensures Count(pcs, at) == 0
  {
    if pcs != [] {
      CountNone(pcs[..|pcs| - 1], at);
    }
  }

  lemma CountTwo(pcs: seq<Pc>, at: set<Pc>)
    requires |pcs| == 2
    ensures Count(pcs, at) == (if pcs[0] in at then 1 else 0) + (if pcs[1] in at then 1 else 0)
  {
    assert pcs == [pcs[0]] + [pcs[1]];
    assert [pcs[0]] == [] + [pcs[0]];
    CountAppend([], pcs[0], at);
    CountAppend([pcs[0]], pcs[1], at);
  }
}
