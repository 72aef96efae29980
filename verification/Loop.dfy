/**
  The gdb driver's loop: `snapshot`, the boxes of a returned value added to the last step
  (`_anota_devolvido`, `_acrescenta_caixas`), and `collect`, which encodes each step against the
  last accepted one.  Each method is proved equal to its function in `Driver` and to keep
  what the runs of the loop promise.
 */
module Loop {
  import opened Options
  import opened HeapDelta
  import opened GdbHeap
  import opened Pointers
  import opened Patching
  import opened Driver
  import opened Drawings
  import opened Identity
  import opened Runs
  import opened RunLaws
  import opened RunIds

  ghost function RegNow(registry: Registry): Reg
    reads registry
  {
    Reg(registry.ids, registry.counter, registry.names)
  }

  /** What a snapshot promises: the frames are drawn, every read is charged, registered keys keep
      their ids, and the registry then knows exactly the boxes drawn, at most 200. */
  ghost predicate SnapshotKeeps(reg: Reg, left: nat, shot: Shot, frames: seq<Frame>, mem: Memory) {
    RegOk(reg) ==>
      var now := Pruned(shot.e.h);
      && ShotDraws(shot, frames, mem) && shot.e.left + |shot.e.read| == left
      && RegOk(now) && SameNames(reg.names, now.names) && SameOrNew(reg.ids, now.ids, reg.counter)
      && Images(now.ids) == shot.boxes.Keys && |shot.boxes| <= MAX_HEAP_OBJECTS
  }

  lemma SnapshotIsDrawn(reg: Reg, left: nat, frames: seq<Frame>, mem: Memory)
    ensures SnapshotKeeps(reg, left, Shoot(reg, left, frames, mem), frames, mem)
  {
    hide Shoot, ShotDraws, SameNames, SameOrNew, Images, Keeps;
    if RegOk(reg) {
      ShotIsDrawn(reg, left, frames, mem);
      ShotTies(reg, left, frames, mem);
    }
  }

  /** What adding a returned value promises: the value is drawn, every read is charged, old boxes
      change only by linking, and registered keys keep their ids. */
  ghost predicate AnnotateKeeps(reg: Reg, left: nat, note: Note, before: Boxes, returned: GValue, mem: Memory) {
    Fits(reg, before) ==>
      var now := RegOf(note.e.h);
      && NoteDraws(note, before, returned, mem) && note.e.left + |note.e.read| == left
      && RegOk(now) && SameNames(reg.names, now.names) && SameOrNew(reg.ids, now.ids, reg.counter)
  }

  lemma NoteIsKept(reg: Reg, left: nat, before: Boxes, returned: GValue, mem: Memory)
    ensures AnnotateKeeps(reg, left, Annotated(reg, left, before, returned, mem), before, returned, mem)
  {
    hide Annotated, NoteDraws, SameNames, SameOrNew, Images, Keeps, KeysWithin;
    if Fits(reg, before) {
      NoteIsDrawn(reg, left, before, returned, mem);
      NoteTies(reg, left, before, returned, mem);
    }
  }

  /** `snapshot`: the variables of every frame, what their pointers reach, the links, and
      the registry pruned to the keys alive in this step. */
  method Snapshot(registry: Registry, budget: Budget, frames: seq<Frame>, mem: Memory)
      returns (vars: seq<map<string, GSlot>>, boxes: Boxes)
    modifies registry, budget
    ensures var shot := Shoot(old(RegNow(registry)), old(budget.left), frames, mem);
            && vars == shot.vars && boxes == shot.boxes && budget.left == shot.e.left
            && RegNow(registry) == Pruned(shot.e.h)
            && SnapshotKeeps(old(RegNow(registry)), old(budget.left), shot, frames, mem)
  {
    hide AfterFields, AfterExpansion, LinkMap, LinkBoxes, SnapshotKeeps;
    SnapshotIsDrawn(RegNow(registry), budget.left, frames, mem);
    var heap := new Heap(registry, map[], {});
    ghost var g := heap.St();
    var none: Boxes := map[];
    assert KeysWithin(registry.ids, none.Keys) == {};
    assert g == StateOf(RegNow(registry), none);
    vars := [];
    for i := 0 to |frames|
      invariant heap.registry == registry && fresh(heap) && budget.left == old(budget.left)
      invariant (heap.St(), vars) == AfterFrames(frames, i, g)
    {
      var drawn := heap.DrawFields(Struct(None, "", frames[i]), frames[i], |frames[i]|, 0);
      vars := vars + [drawn];
    }
    var read := ExpandPointers(heap, budget, mem);
    ghost var was := vars;
    vars := LinkPointers(heap, vars);
    assert vars == LinkVars(was, heap.byAddress);
    boxes := heap.boxes;
    registry.Prune(heap.used);
  }

  /** A returned value drawn into the heap `before` of an earlier step. */
  method Annotate(registry: Registry, budget: Budget, before: Boxes, returned: GValue, mem: Memory)
      returns (slot: GSlot, after: Boxes)
    modifies registry, budget
    ensures var note := Annotated(old(RegNow(registry)), old(budget.left), before, returned, mem);
            && slot == note.slot && after == note.after && budget.left == note.e.left
            && RegNow(registry) == RegOf(note.e.h)
            && AnnotateKeeps(old(RegNow(registry)), old(budget.left), note, before, returned, mem)
  {
    hide AfterValue, AfterExpansion, LinkMap, LinkBoxes, AnnotateKeeps;
    NoteIsKept(RegNow(registry), budget.left, before, returned, mem);
    var heap := new Heap(registry, before, KeysWithin(registry.ids, before.Keys));
    assert heap.St() == StateOf(RegNow(registry), before);
    slot := heap.ValueV2(returned, 0);
    var read := ExpandPointers(heap, budget, mem);
    var _ := LinkPointers(heap, []);
    after := heap.boxes;
    slot := LinkSlot(slot, heap.byAddress);
  }

  /** A patch keeps the whole trace exact if and only if it is safe. */
  ghost predicate PatchKeeps(s: Run, p: Patch)
    requires Patchable(s)
  {
    Exact(s.wires, s.heaps) && Shaped(s.wires) && Fits(s.reg, p.before) ==>
      (Exact(AfterPatch(s, p).wires, AfterPatch(s, p).heaps) <==> PatchSafe(p.wire, p.before, p.note.after))
  }

  lemma LastIsBase(heaps: seq<Boxes>)
    requires heaps != []
    ensures LastHeap(heaps) == Some(heaps[|heaps| - 1])
  {
  }

  lemma PatchIsKept(s: Run, returned: GValue, mem: Memory)
    requires Patchable(s)
    ensures PatchKeeps(s, PatchOf(s, returned, mem))
  {
    hide Annotated, Exact, Patched, PatchSafe, Fits, Added, KeysWithin, SameNames, SameOrNew, Images, RegistryOk;
    var p := PatchOf(s, returned, mem);
    LastIsBase(s.heaps);
    if Exact(s.wires, s.heaps) && Shaped(s.wires) && Fits(s.reg, p.before) {
      NoteTies(s.reg, s.left, p.before, returned, mem);
      PatchedTrace(s.wires, s.heaps, p.before, p.note.after);
    }
  }

  /** What a turn keeps: the laws of every run. */
  ghost predicate StopKeeps(s: Run, t: Run) {
    && Sound(t)
    && (ExactIffSafe(s) && FreshLast(s) ==> ExactIffSafe(t) && FreshLast(t))
    && (Named(s) ==> Named(t)) && (Losses(s) ==> Losses(t)) && (Budgeted(s) ==> Budgeted(t))
  }

  lemma StopIsKept(s: Run, stop: StopAt, maxBytes: nat)
    requires Sound(s) && !s.done
    ensures StopKeeps(s, AfterStop(s, stop, maxBytes))
  {
    hide Sound, AfterStop, ExactIffSafe, FreshLast, Named, Losses, Budgeted;
    StopKeepsSound(s, stop, maxBytes);
    if ExactIffSafe(s) && FreshLast(s) {
      StopKeepsExact(s, stop, maxBytes);
    }
    if Named(s) {
      StopKeepsIds(s, stop, maxBytes);
    }
    if Losses(s) {
      StopKeepsLosses(s, stop, maxBytes);
    }
    if Budgeted(s) {
      StopKeepsBudget(s, stop, maxBytes);
    }
  }

  /** The part of `collect` that builds and encodes heaps. */
  class Collector {
    const registry: Registry
    const budget: Budget
    const maxBytes: nat
    var wires: seq<Wire<GBox>>
    var base: Option<Boxes>
    var bytes: nat
    var done: bool
    ghost var heaps: seq<Boxes>
    ghost var shots: seq<Shot>
    ghost var patches: seq<Patch>
    ghost var carried: set<Id>
    ghost var mark: Id

    ghost function St(): Run
      reads this, registry, budget
    {
      Run(RegNow(registry), budget.left, wires, heaps, bytes, done, shots, patches, carried, mark)
    }

    /** The base of the next delta is the heap of the last step. */
    ghost predicate Valid()
      reads this
    {
      |wires| == |heaps| && base == LastHeap(heaps)
    }

    constructor (maxBytes: nat)
      ensures Valid() && St() == StartRun() && this.maxBytes == maxBytes && fresh(registry) && fresh(budget)
    {
      registry := new Registry();
      budget := new Budget();
      this.maxBytes := maxBytes;
      wires, base, bytes, done := [], None, 0, false;
      heaps, shots, patches, carried, mark := [], [], [], {}, 0;
    }

    /** The boxes of a returned value enter the last step through its own encoding, and the
        base of the next delta. */
    method PatchLast(returned: GValue, mem: Memory) returns (slot: GSlot)
      requires Valid() && wires != []
      modifies this`wires, this`base, this`heaps, this`patches, registry, budget
      ensures var p := PatchOf(old(St()), returned, mem);
              && Valid() && St() == AfterPatch(old(St()), p) && slot == p.note.slot
              && PatchKeeps(old(St()), p)
    {
      hide Annotated, Patched, PatchKeeps, AnnotateKeeps;
      PatchIsKept(St(), returned, mem);
      ghost var p := PatchOf(St(), returned, mem);
      var now: Boxes;
      slot, now := Annotate(registry, budget, base.value, returned, mem);
      wires := wires[..|wires| - 1] + [Patched(wires[|wires| - 1], base.value, now)];
      heaps := heaps[..|heaps| - 1] + [now];
      base := Some(now);
      patches := patches + [p];
    }

    /** One turn of the loop in the student's file: the snapshot, the value of the call that
        just returned (if its owner is known) added to the last step, and the new step
        encoded against the result.  The step enters only if its cost fits. */
    method Stop(frames: seq<Frame>, mem: Memory, returned: Option<GValue>, cost: nat)
        returns (vars: seq<map<string, GSlot>>)
      requires Valid() && Sound(St()) && !done
      modifies this, registry, budget
      ensures Valid() && St() == AfterStop(old(St()), StopAt(frames, mem, returned, cost), maxBytes)
      ensures vars == Shoot(old(RegNow(registry)), old(budget.left), frames, mem).vars
      ensures StopKeeps(old(St()), St())
    {
      hide Shoot, PatchOf, AfterPatch, AddedBy, Encode, Sound, StopKeeps, PatchKeeps, SnapshotKeeps;
      StopIsKept(St(), StopAt(frames, mem, returned, cost), maxBytes);
      ghost var s := St();
      ghost var shot := Shoot(RegNow(registry), budget.left, frames, mem);
      var now: Boxes;
      vars, now := Snapshot(registry, budget, frames, mem);
      ghost var added: set<Id> := {};
      assert St() == AfterShot(s, shot);
      if returned.Some? && wires != [] {
        ghost var p := PatchOf(St(), returned.value, mem);
        var slot := PatchLast(returned.value, mem);
        added := AddedBy(p);
      }
      Append(now, cost, shot, added);
    }

    /** The encoded step enters the trace, or the trace ends there. */
    method Append(now: Boxes, cost: nat, ghost shot: Shot, ghost added: set<Id>)
      requires Valid() && now == shot.boxes
      modifies `wires, `base, `bytes, `done, `heaps, `shots, `carried, `mark
      ensures Valid() && St() == AfterAppend(old(St()), shot, cost, maxBytes, added)
      ensures Exact(wires, heaps) <==> old(Exact(wires, heaps))
    {
      hide Exact, Encode;
      AppendExact(wires, heaps, now);
      if bytes + cost > maxBytes {
        done := true;
        return;
      }
      bytes := bytes + cost;
      wires := wires + [Encode(base, now)];
      heaps := heaps + [now];
      shots := shots + [shot];
      base := Some(now);
      carried, mark := added, registry.counter;
    }
  }

  /** `collect`: the loop over the stops and the closing patch. */
  method Collect(stops: seq<StopAt>, maxBytes: nat, maxSteps: nat, last: Option<(GValue, Memory)>)
      returns (wires: seq<Wire<GBox>>, cut: bool)
    ensures var s := Closed(RunOf(stops, maxBytes, maxSteps), last, maxSteps);
            && wires == s.wires && cut == s.done
            // what was sent decodes at every prefix exactly when every value was added safely
            && |wires| == |s.heaps|
            && ((forall k: nat | k <= |wires| :: Decoded(true, wires[..k]) == s.heaps[..k]) <==> AllSafe(s.patches))
            // and each heap is the drawing of its stop, with the value returned to it
            && StandsFor(s, stops, last, maxSteps) && LossesInPairs(s.patches)
    ensures Capped(RunOf(stops, maxBytes, maxSteps), stops, maxBytes, maxSteps)
  {
    hide AfterStop, AfterPatch, PatchOf, LastHeap, Sound, StopKeeps, PatchKeeps, StandsFor, LossesInPairs,
         Capped, AllSafe, Decoded, RunOf;
    RunDecodesIffSafe(stops, maxBytes, maxSteps, last);
    RunStandsForStops(stops, maxBytes, maxSteps, last);
    TraceLosesInPairs(stops, maxBytes, maxSteps, last);
    RunIsCapped(stops, maxBytes, maxSteps);
    StartIsSound();
    var c := new Collector(maxBytes);
    assert RunOf([], maxBytes, maxSteps) == StartRun() by {
      NoStops(maxBytes, maxSteps);
    }
    var i := 0;
    assert stops[..0] == [];
    while i < |stops| && |c.wires| < maxSteps && !c.done
      invariant i <= |stops| && fresh(c) && fresh(c.registry) && fresh(c.budget)
      invariant c.Valid() && c.maxBytes == maxBytes && c.St() == RunOf(stops[..i], maxBytes, maxSteps)
    {
      var s := stops[i];
      assert stops[..i + 1][..i] == stops[..i];
      RunIsSound(stops[..i], maxBytes, maxSteps);
      OneMoreStop(stops, i, maxBytes, maxSteps);
      var _ := c.Stop(s.frames, s.mem, s.returned, s.cost);
      i := i + 1;
    }
    RunEnds(stops, maxBytes, maxSteps, i);
    if last.Some? && !c.done && c.wires != [] && |c.wires| < maxSteps {
      var _ := c.PatchLast(last.value.0, last.value.1);
    }
    wires, cut := c.wires, c.done;
  }

  lemma NoStops(maxBytes: nat, maxSteps: nat)
    ensures RunOf([], maxBytes, maxSteps) == StartRun()
  {
  }

  lemma OneMoreStop(stops: seq<StopAt>, i: nat, maxBytes: nat, maxSteps: nat)
    requires i < |stops|
    requires var s := RunOf(stops[..i], maxBytes, maxSteps); !s.done && |s.wires| < maxSteps
    ensures RunOf(stops[..i + 1], maxBytes, maxSteps)
         == AfterStop(RunOf(stops[..i], maxBytes, maxSteps), stops[i], maxBytes)
  {
    hide AfterStop;
    assert stops[..i + 1][..i] == stops[..i];
  }

  lemma {:induction false} RunEnds(stops: seq<StopAt>, maxBytes: nat, maxSteps: nat, i: nat)
    requires i <= |stops|
    requires var s := RunOf(stops[..i], maxBytes, maxSteps); i == |stops| || s.done || |s.wires| >= maxSteps
    ensures RunOf(stops, maxBytes, maxSteps) == RunOf(stops[..i], maxBytes, maxSteps)
    decreases |stops|
  {
    hide AfterStop;
    if i < |stops| {
      assert stops[..|stops| - 1][..i] == stops[..i];
      RunEnds(stops[..|stops| - 1], maxBytes, maxSteps, i);
    } else {
      assert stops[..i] == stops;
    }
  }
}
