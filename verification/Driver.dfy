/**
  What the gdb driver's loop makes: a snapshot (`Shoot`), a returned value added to the last step
  (`Annotated`, `AfterPatch`), a turn (`AfterStop`) and a whole run (`RunOf`, `Closed`).  A `Run`
  is everything made so far.  The methods that make it are in `Loop`.
 */
module Driver {
  import opened Options
  import opened HeapDelta
  import opened GdbHeap
  import opened Pointers
  import opened Patching

  // ---- one step's snapshot ---------------------------------------------------------------

  /** The variables of a frame that execution has reached; `None` marks an unreadable one. */
  type Frame = seq<(Option<string>, Option<GValue>)>

  /** The registry between two operations. */
  datatype Reg = Reg(ids: map<Key, Id>, counter: Id, names: map<Id, Key>)

  function Restrict(ids: map<Key, Id>, on: set<Key>): map<Key, Id> {
    map k | k in ids && k in on :: ids[k]
  }

  function Images(ids: map<Key, Id>): set<Id> {
    set k | k in ids :: ids[k]
  }

  function KeysWithin(ids: map<Key, Id>, inside: set<Id>): set<Key> {
    set k | k in ids && ids[k] in inside
  }

  lemma {:induction false} ImagesBound(ids: map<Key, Id>, keys: set<Key>, images: set<Id>)
    requires keys <= ids.Keys && images == set k | k in keys :: ids[k]
    ensures |images| <= |keys|
    decreases keys
  {
    if keys != {} {
      var k :| k in keys;
      var rest := keys - {k};
      var less := set x | x in rest :: ids[x];
      ImagesBound(ids, rest, less);
      assert images <= less + {ids[k]};
      SubsetSize(images, less + {ids[k]});
    }
  }

  lemma {:induction false} SubsetSize<T>(a: set<T>, b: set<T>)
    requires a <= b
    ensures |a| <= |b|
    decreases b
  {
    if a != {} {
      var x :| x in a;
      SubsetSize(a - {x}, b - {x});
    }
  }

  lemma {:induction false} InjectiveBound(ids: map<Key, Id>, keys: set<Key>, inside: set<Id>)
    requires keys <= ids.Keys && forall k | k in keys :: ids[k] in inside
    requires forall j, k | j in keys && k in keys && ids[j] == ids[k] :: j == k
    ensures |keys| <= |inside|
    decreases keys
  {
    if keys != {} {
      var k :| k in keys;
      InjectiveBound(ids, keys - {k}, inside - {ids[k]});
    }
  }

  /** A heap that starts from given boxes, counting the registered keys that already have one. */
  function StateOf(reg: Reg, boxes: Boxes): HeapState {
    HeapState(reg.ids, reg.counter, boxes, KeysWithin(reg.ids, boxes.Keys), false, map[], [], reg.names, map[],
      {}, false, boxes.Keys)
  }

  function RegOf(h: HeapState): Reg {
    Reg(h.ids, h.counter, h.names)
  }

  /** `podar`: the keys used in the step stay. */
  function Pruned(h: HeapState): Reg {
    Reg(Restrict(h.ids, h.used), h.counter, h.names)
  }

  function AfterFrames(frames: seq<Frame>, n: nat, h: HeapState): (r: (HeapState, seq<map<string, GSlot>>))
    requires n <= |frames|
    ensures |r.1| == n
  {
    if n == 0 then (h, [])
    else
      var (h1, vars) := AfterFrames(frames, n - 1, h);
      var f := frames[n - 1];
      var (h2, drawn) := AfterFields(Struct(None, "", f), f, |f|, 0, h1);
      (h2, vars + [drawn])
  }

  function LinkVars(vars: seq<map<string, GSlot>>, byAddress: map<nat, Id>): (r: seq<map<string, GSlot>>)
    ensures |r| == |vars| && forall i | 0 <= i < |vars| :: r[i] == LinkMap(vars[i], byAddress)
  {
    if vars == [] then [] else LinkVars(vars[..|vars| - 1], byAddress) + [LinkMap(vars[|vars| - 1], byAddress)]
  }

  /** What one snapshot makes: the expanded heap, and its variables and boxes once linked. */
  datatype Shot = Shot(e: Expansion, vars: seq<map<string, GSlot>>, boxes: Boxes)

  function Shoot(reg: Reg, left: nat, frames: seq<Frame>, mem: Memory): (shot: Shot)
    ensures |shot.vars| == |frames|
  {
    var (h, vars) := AfterFrames(frames, |frames|, StateOf(reg, map[]));
    var e := AfterExpansion(h, left, mem);
    Shot(e, LinkVars(vars, e.h.byAddress), LinkBoxes(e.h.boxes, e.h.byAddress))
  }

  /** What a returned value adds to the boxes of an earlier step. */
  datatype Note = Note(e: Expansion, slot: GSlot, after: Boxes)

  function Annotated(reg: Reg, left: nat, before: Boxes, returned: GValue, mem: Memory): Note {
    var (h, slot) := AfterValue(returned, 0, StateOf(reg, before));
    var e := AfterExpansion(h, left, mem);
    Note(e, LinkSlot(slot, e.h.byAddress), LinkBoxes(e.h.boxes, e.h.byAddress))
  }

  // ---- the loop ----------------------------------------------------------------------------

  /** One stop in the student's file: what is visible, the memory, the value returned by
      the call whose owner is the last step (if that is known), and the step's size. */
  datatype StopAt = StopAt(frames: seq<Frame>, mem: Memory, returned: Option<GValue>, cost: nat)

  /** A returned value was added to step `at`, encoded as `wire`, with the boxes `before`, when the
      registry was `reg`. */
  datatype Patch = Patch(at: nat, wire: Wire<GBox>, before: Boxes, reg: Reg, note: Note)

  /** The registry and budget, the encoded steps with the heap each stands for, the snapshot
      behind each and the patches made; whether the byte cap ended the trace; and, for the
      last step, the boxes the turn that recorded it had added to the step before, and the
      counter of ids at that time. */
  datatype Run = Run(
    reg: Reg, left: nat,
    wires: seq<Wire<GBox>>, heaps: seq<Boxes>, bytes: nat, done: bool,
    shots: seq<Shot>, patches: seq<Patch>,
    carried: set<Id>, mark: Id)

  function StartRun(): Run {
    Run(Reg(map[], 0, map[]), MAX_EXPANSIONS_PER_TRACE, [], [], 0, false, [], [], {}, 0)
  }

  predicate Patchable(s: Run) {
    s.wires != [] && |s.heaps| == |s.wires|
  }

  function PatchOf(s: Run, returned: GValue, mem: Memory): Patch
    requires Patchable(s)
  {
    var n := |s.wires| - 1;
    Patch(n, s.wires[n], s.heaps[n], s.reg, Annotated(s.reg, s.left, s.heaps[n], returned, mem))
  }

  function AfterPatch(s: Run, p: Patch): Run
    requires Patchable(s)
  {
    var n := |s.wires| - 1;
    s.(reg := RegOf(p.note.e.h), left := p.note.e.left,
       wires := s.wires[..n] + [Patched(p.wire, p.before, p.note.after)],
       heaps := s.heaps[..n] + [p.note.after],
       patches := s.patches + [p])
  }

  function AddedBy(p: Patch): set<Id> {
    Added(p.before, p.note.after).Keys
  }

  function AfterAppend(s: Run, shot: Shot, cost: nat, maxBytes: nat, added: set<Id>): Run {
    if s.bytes + cost > maxBytes then s.(done := true)
    else s.(bytes := s.bytes + cost,
            wires := s.wires + [Encode(LastHeap(s.heaps), shot.boxes)], heaps := s.heaps + [shot.boxes],
            shots := s.shots + [shot], carried := added, mark := s.reg.counter)
  }

  /** The registry and budget after the snapshot of a stop. */
  function AfterShot(s: Run, shot: Shot): Run {
    s.(reg := Pruned(shot.e.h), left := shot.e.left)
  }

  function AfterStop(s: Run, stop: StopAt, maxBytes: nat): Run {
    var shot := Shoot(s.reg, s.left, stop.frames, stop.mem);
    var s1 := AfterShot(s, shot);
    if stop.returned.Some? && Patchable(s) then
      var p := PatchOf(s1, stop.returned.value, stop.mem);
      AfterAppend(AfterPatch(s1, p), shot, stop.cost, maxBytes, AddedBy(p))
    else AfterAppend(s1, shot, stop.cost, maxBytes, {})
  }

  /** The loop over all stops, which ends at the step cap or when a step does not fit. */
  function RunOf(stops: seq<StopAt>, maxBytes: nat, maxSteps: nat): Run {
    if stops == [] then StartRun()
    else
      var s := RunOf(stops[..|stops| - 1], maxBytes, maxSteps);
      if s.done || |s.wires| >= maxSteps then s else AfterStop(s, stops[|stops| - 1], maxBytes)
  }

  /** Only a trace that was not cut, by bytes or by steps, takes the value of the outermost call. */
  function Closed(s: Run, last: Option<(GValue, Memory)>, maxSteps: nat): Run {
    if last.Some? && !s.done && Patchable(s) && |s.wires| < maxSteps
    then AfterPatch(s, PatchOf(s, last.value.0, last.value.1)) else s
  }
}
