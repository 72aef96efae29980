/**
  Theorems about every run of the gdb driver's loop: what every turn keeps, and that what is
  encoded decodes exactly when every returned value was added safely.
 */
module Runs {
  import opened Options
  import opened HeapDelta
  import opened GdbHeap
  import opened Pointers
  import opened Patching
  import opened Driver
  import opened Drawings
  import opened Identity

  // ---- what every turn keeps ------------------------------------------------------------------

  /** Where the ids of the registry can come from: the base, the boxes added to the step
      before the last, or a mint more recent than the last recorded step. */
  ghost predicate Tied(ids: map<Key, Id>, base: set<Id>, carried: set<Id>, mark: Id) {
    forall k | k in ids :: ids[k] in base || ids[k] in carried || ids[k] > mark
  }

  ghost predicate Below(ids: set<Id>, mark: Id) {
    forall r | r in ids :: r <= mark
  }

  ghost predicate RegOk(reg: Reg) {
    RegistryOk(reg.ids, reg.counter, reg.names)
  }

  ghost predicate Shaped(wires: seq<Wire<GBox>>) {
    && (forall i | 0 <= i < |wires| :: wires[i].heap.Some? ==> wires[i].delta.None?)
    && (wires != [] ==> wires[0].heap.Some?)
  }

  /** The base of the next delta, and what the registry may know besides it. */
  ghost predicate Based(base: Boxes, reg: Reg, carried: set<Id>, mark: Id) {
    base.Keys <= reg.names.Keys && |base| <= MAX_HEAP_OBJECTS && Tied(reg.ids, base.Keys, carried, mark)
  }

  ghost predicate Sound(s: Run) {
    && RegOk(s.reg) && s.mark <= s.reg.counter
    && |s.wires| == |s.heaps| == |s.shots| && Shaped(s.wires)
    && (!s.done && s.wires != [] ==>
          && Based(s.heaps[|s.heaps| - 1], s.reg, s.carried, s.mark)
          && Below(DelOf(s.wires[|s.wires| - 1]), s.mark))
  }

  lemma StartIsSound()
    ensures Sound(StartRun())
  {
  }

  /** After the snapshot of a stop, before anything is added to the last step. */
  lemma ShotStep(s: Run, stop: StopAt)
    requires Sound(s) && !s.done
    ensures var shot := Shoot(s.reg, s.left, stop.frames, stop.mem); var s1 := AfterShot(s, shot);
            && RegOk(s1.reg) && s.reg.counter <= s1.reg.counter && SameNames(s.reg.names, s1.reg.names)
            && SameOrNew(s.reg.ids, s1.reg.ids, s.reg.counter)
            && Images(s1.reg.ids) == shot.boxes.Keys && |shot.boxes| <= MAX_HEAP_OBJECTS
            && shot.boxes.Keys <= s1.reg.names.Keys
            && s1.reg.ids.Keys == shot.e.h.used
            && (Patchable(s) ==> Fits(s1.reg, s.heaps[|s.heaps| - 1])
                                 && Tied(s1.reg.ids, s.heaps[|s.heaps| - 1].Keys, s.carried, s.mark))
  {
    hide Shoot, Images, SameNames, SameOrNew, RegistryOk, Shaped, Below, DelOf, Tied, KeysWithin;
    ShotTies(s.reg, s.left, stop.frames, stop.mem);
    var s1 := AfterShot(s, Shoot(s.reg, s.left, stop.frames, stop.mem));
    if Patchable(s) {
      var base := s.heaps[|s.heaps| - 1];
      TiedLater(s.reg, s1.reg, base, s.carried, s.mark);
      SmallOverlap(s1.reg.ids, s1.reg.counter, s1.reg.names, base);
    }
  }

  lemma TiedLater(reg: Reg, later: Reg, base: Boxes, carried: set<Id>, mark: Id)
    requires Based(base, reg, carried, mark) && mark <= reg.counter
    requires SameOrNew(reg.ids, later.ids, reg.counter) && SameNames(reg.names, later.names)
    ensures Based(base, later, carried, mark)
  {
  }

  /** After the boxes of a returned value entered the last step. */
  lemma PatchStep(s: Run, returned: GValue, mem: Memory)
    requires RegOk(s.reg) && s.mark <= s.reg.counter && Patchable(s) && Shaped(s.wires)
    requires Fits(s.reg, s.heaps[|s.heaps| - 1]) && Tied(s.reg.ids, s.heaps[|s.heaps| - 1].Keys, s.carried, s.mark)
    requires Below(DelOf(s.wires[|s.wires| - 1]), s.mark)
    ensures var p := PatchOf(s, returned, mem); var t := AfterPatch(s, p);
            && RegOk(t.reg) && s.reg.counter <= t.reg.counter && SameNames(s.reg.names, t.reg.names)
            && SameOrNew(s.reg.ids, t.reg.ids, s.reg.counter) && s.reg.ids.Keys <= t.reg.ids.Keys
            && Shaped(t.wires) && p.before.Keys <= p.note.after.Keys <= t.reg.names.Keys
            && AddedBy(p) * DelOf(p.wire) <= s.carried
            && forall k | k in t.reg.ids ::
               (k in s.reg.ids && t.reg.ids[k] == s.reg.ids[k]) || t.reg.ids[k] in AddedBy(p)
  {
    hide Annotated, Images, SameNames, SameOrNew, RegistryOk, Below, DelOf, Tied, KeysWithin, Added, Patched;
    var n := |s.wires| - 1;
    NoteTies(s.reg, s.left, s.heaps[n], returned, mem);
    var p := PatchOf(s, returned, mem);
    LossesWereCarried(s.reg, p.before, p.note.after, s.carried, s.mark, DelOf(p.wire));
    PatchedShape(s.wires, n, p.before, p.note.after);
  }

  lemma LossesWereCarried(reg: Reg, before: Boxes, after: Boxes, carried: set<Id>, mark: Id, del: set<Id>)
    requires Tied(reg.ids, before.Keys, carried, mark) && mark <= reg.counter
    requires forall r | r in Added(before, after) :: r > reg.counter || r in Images(reg.ids)
    requires Below(del, mark)
    ensures Added(before, after).Keys * del <= carried
  {
  }

  lemma PatchedShape(wires: seq<Wire<GBox>>, n: nat, before: Boxes, after: Boxes)
    requires |wires| == n + 1 && Shaped(wires)
    ensures Shaped(wires[..n] + [Patched(wires[n], before, after)])
  {
  }

  /** Recording the new step. */
  lemma AppendStep(s: Run, shot: Shot, known: Reg, cost: nat, maxBytes: nat, added: set<Id>)
    requires RegOk(s.reg) && s.mark <= s.reg.counter && |s.wires| == |s.heaps| == |s.shots| && Shaped(s.wires)
             && !s.done
    requires s.heaps != [] ==> s.heaps[|s.heaps| - 1].Keys <= s.reg.names.Keys
    requires Images(known.ids) == shot.boxes.Keys && |shot.boxes| <= MAX_HEAP_OBJECTS
             && shot.boxes.Keys <= s.reg.names.Keys
    requires forall k | k in s.reg.ids :: (k in known.ids && s.reg.ids[k] == known.ids[k]) || s.reg.ids[k] in added
    ensures Sound(AfterAppend(s, shot, cost, maxBytes, added))
  {
    hide DelOf;
    if s.bytes + cost <= maxBytes {
      EncodedShape(s.heaps, shot.boxes, s.reg);
      forall k | k in s.reg.ids ensures s.reg.ids[k] in shot.boxes || s.reg.ids[k] in added {
        if s.reg.ids[k] !in added {
          assert known.ids[k] in Images(known.ids);
        }
      }
    }
    hide RegistryOk;
  }

  lemma EncodedShape(heaps: seq<Boxes>, now: Boxes, reg: Reg)
    requires RegOk(reg) && (heaps != [] ==> heaps[|heaps| - 1].Keys <= reg.names.Keys)
    ensures var w := Encode(LastHeap(heaps), now);
            (w.heap.Some? ==> w.delta.None?) && (heaps == [] ==> w.heap.Some?) && Below(DelOf(w), reg.counter)
  {
  }

  lemma StopKeepsSound(s: Run, stop: StopAt, maxBytes: nat)
    requires Sound(s) && !s.done
    ensures Sound(AfterStop(s, stop, maxBytes))
  {
    hide Shoot, Annotated, Images, SameNames, SameOrNew, RegistryOk, Below, DelOf, Tied, Encode, Added,
         Patched, RegOk, AfterAppend;
    var shot := Shoot(s.reg, s.left, stop.frames, stop.mem);
    var s1 := AfterShot(s, shot);
    ShotStep(s, stop);
    if stop.returned.Some? && Patchable(s) {
      var p := PatchOf(s1, stop.returned.value, stop.mem);
      PatchStep(s1, stop.returned.value, stop.mem);
      NamesGrow(shot.boxes, s1.reg, AfterPatch(s1, p).reg);
      AppendStep(AfterPatch(s1, p), shot, s1.reg, stop.cost, maxBytes, AddedBy(p));
    } else {
      AppendStep(s1, shot, s1.reg, stop.cost, maxBytes, {});
    }
  }

  lemma NamesGrow(boxes: Boxes, reg: Reg, later: Reg)
    requires boxes.Keys <= reg.names.Keys && SameNames(reg.names, later.names)
    ensures boxes.Keys <= later.names.Keys
  {
  }

  lemma {:induction false} RunIsSound(stops: seq<StopAt>, maxBytes: nat, maxSteps: nat)
    ensures Sound(RunOf(stops, maxBytes, maxSteps))
  {
    hide Sound, AfterStop;
    if stops == [] {
      StartIsSound();
    } else {
      var s := RunOf(stops[..|stops| - 1], maxBytes, maxSteps);
      RunIsSound(stops[..|stops| - 1], maxBytes, maxSteps);
      if !s.done && |s.wires| < maxSteps {
        StopKeepsSound(s, stops[|stops| - 1], maxBytes);
      }
    }
  }

  // ---- what is sent decodes ------------------------------------------------------------------

  predicate AllSafe(patches: seq<Patch>) {
    forall i | 0 <= i < |patches| :: PatchSafe(patches[i].wire, patches[i].before, patches[i].note.after)
  }

  /** The last step was encoded against the heap before it and not touched since. */
  ghost predicate FreshLast(s: Run) {
    !s.done && Patchable(s) ==>
      (Exact(s.wires[..|s.wires| - 1], s.heaps[..|s.heaps| - 1]) ==> Exact(s.wires, s.heaps))
  }

  ghost predicate ExactIffSafe(s: Run) {
    |s.wires| == |s.heaps| && (Exact(s.wires, s.heaps) <==> AllSafe(s.patches))
  }

  lemma PatchExact(s: Run, p: Patch)
    requires Patchable(s) && Shaped(s.wires) && FreshLast(s) && ExactIffSafe(s) && !s.done
    requires var n := |s.wires| - 1;
             p.wire == s.wires[n] && p.before == s.heaps[n] && p.before.Keys <= p.note.after.Keys
    ensures ExactIffSafe(AfterPatch(s, p))
  {
    hide PatchSafe, Patched, Exact;
    var n := |s.wires| - 1;
    var t := AfterPatch(s, p);
    assert AllSafe(t.patches) <==> AllSafe(s.patches) && PatchSafe(p.wire, p.before, p.note.after) by {
      assert forall i | 0 <= i < |s.patches| :: t.patches[i] == s.patches[i];
      assert t.patches[|s.patches|] == p;
    }
    assert t.wires[..n] == s.wires[..n] && t.heaps[..n] == s.heaps[..n];
    if Exact(s.wires, s.heaps) {
      PatchedTrace(s.wires, s.heaps, p.before, p.note.after);
    } else if Exact(t.wires, t.heaps) {
      ExactPrefixDecodes(t.wires, t.heaps, n);
    }
  }

  lemma AppendKeepsExact(s: Run, shot: Shot, cost: nat, maxBytes: nat, added: set<Id>)
    requires ExactIffSafe(s)
    ensures var t := AfterAppend(s, shot, cost, maxBytes, added); ExactIffSafe(t) && FreshLast(t)
  {
    hide AllSafe, Exact, Encode;
    AppendExact(s.wires, s.heaps, shot.boxes);
    var t := AfterAppend(s, shot, cost, maxBytes, added);
    if !t.done {
      assert t.wires[..|s.wires|] == s.wires && t.heaps[..|s.heaps|] == s.heaps;
    }
  }

  lemma StopKeepsExact(s: Run, stop: StopAt, maxBytes: nat)
    requires Sound(s) && !s.done && ExactIffSafe(s) && FreshLast(s)
    ensures var t := AfterStop(s, stop, maxBytes); ExactIffSafe(t) && FreshLast(t)
  {
    hide Shoot, Annotated, Exact, AllSafe, RegOk, Based, Below, AfterAppend, Tied, Images, SameNames, SameOrNew;
    var shot := Shoot(s.reg, s.left, stop.frames, stop.mem);
    var s1 := AfterShot(s, shot);
    if stop.returned.Some? && Patchable(s) {
      ShotStep(s, stop);
      PatchStep(s1, stop.returned.value, stop.mem);
      var p := PatchOf(s1, stop.returned.value, stop.mem);
      PatchExact(s1, p);
      AppendKeepsExact(AfterPatch(s1, p), shot, stop.cost, maxBytes, AddedBy(p));
    } else {
      AppendKeepsExact(s1, shot, stop.cost, maxBytes, {});
    }
  }

  lemma StartIsExact()
    ensures ExactIffSafe(StartRun()) && FreshLast(StartRun())
  {
  }

  lemma {:induction false} RunIsExact(stops: seq<StopAt>, maxBytes: nat, maxSteps: nat)
    ensures var s := RunOf(stops, maxBytes, maxSteps); ExactIffSafe(s) && FreshLast(s)
  {
    hide Sound, AfterStop, ExactIffSafe, FreshLast;
    if stops == [] {
      StartIsExact();
    } else {
      var s := RunOf(stops[..|stops| - 1], maxBytes, maxSteps);
      RunIsExact(stops[..|stops| - 1], maxBytes, maxSteps);
      if !s.done && |s.wires| < maxSteps {
        RunIsSound(stops[..|stops| - 1], maxBytes, maxSteps);
        StopKeepsExact(s, stops[|stops| - 1], maxBytes);
      }
    }
  }

  /** The closing patch finds the last step as a stop would. */
  lemma CloseStep(stops: seq<StopAt>, maxBytes: nat, maxSteps: nat)
    ensures var s := RunOf(stops, maxBytes, maxSteps);
            && Sound(s)
            && (!s.done && Patchable(s) ==>
                  && Fits(s.reg, s.heaps[|s.heaps| - 1]) && Below(DelOf(s.wires[|s.wires| - 1]), s.mark)
                  && Tied(s.reg.ids, s.heaps[|s.heaps| - 1].Keys, s.carried, s.mark))
  {
    hide RunOf, Below, DelOf, Tied, RegistryOk, KeysWithin;
    RunIsSound(stops, maxBytes, maxSteps);
    var s := RunOf(stops, maxBytes, maxSteps);
    if !s.done && Patchable(s) {
      SmallOverlap(s.reg.ids, s.reg.counter, s.reg.names, s.heaps[|s.heaps| - 1]);
    }
  }

  /** Over every run: what was sent decodes, at every step of every prefix, to the heap that the
      step stands for, if and only if every returned value was patched in safely. */
  lemma RunDecodesIffSafe(stops: seq<StopAt>, maxBytes: nat, maxSteps: nat, last: Option<(GValue, Memory)>)
    ensures var s := Closed(RunOf(stops, maxBytes, maxSteps), last, maxSteps);
            && |s.wires| == |s.heaps|
            && ((forall k: nat | k <= |s.wires| :: Decoded(true, s.wires[..k]) == s.heaps[..k]) <==> AllSafe(s.patches))
  {
    hide RunOf, AllSafe, Exact, Decoded, Annotated, Patched, RegOk, Based, Below, Added, Images, SameNames,
         SameOrNew, Tied, KeysWithin;
    var s0 := RunOf(stops, maxBytes, maxSteps);
    RunIsExact(stops, maxBytes, maxSteps);
    CloseStep(stops, maxBytes, maxSteps);
    var s := Closed(s0, last, maxSteps);
    if last.Some? && !s0.done && Patchable(s0) && |s0.wires| < maxSteps {
      PatchStep(s0, last.value.0, last.value.1);
      PatchExact(s0, PatchOf(s0, last.value.0, last.value.1));
    }
    if Exact(s.wires, s.heaps) {
      PrefixesDecode(s.wires, s.heaps);
    } else if forall k: nat | k <= |s.wires| :: Decoded(true, s.wires[..k]) == s.heaps[..k] {
      DecodesIsExact(s.wires, s.heaps);
    }
  }

  /** A run without returned values patches nothing, so it always decodes. */
  lemma {:induction false} NoReturnsNoPatches(stops: seq<StopAt>, maxBytes: nat, maxSteps: nat)
    requires forall s | s in stops :: s.returned.None?
    ensures RunOf(stops, maxBytes, maxSteps).patches == []
  {
    if stops != [] {
      NoReturnsNoPatches(stops[..|stops| - 1], maxBytes, maxSteps);
      assert stops[|stops| - 1] in stops;
      hide Shoot, Encode, AfterPatch, PatchOf;
    }
  }
}
