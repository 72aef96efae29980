/**
  The two halves of the gdb driver's loop together: `Attribution` decides whose value a finished
  call handed back, and `Driver` adds its boxes to the step of that call.
 */
module Native {
  import opened Options
  import opened HeapDelta
  import opened GdbHeap
  import opened Pointers
  import opened Patching
  import opened Driver
  import opened Runs
  import opened Loop
  import Attribution

  /** One stop in the student's file.  When the frame key selects an owner, what is added to the
      last step is the drawing, in the memory of this stop, of exactly the value that the
      innermost frame of that step handed back. */
  method Turn(session: Attribution.Session<GValue>, c: Collector, canArm: bool,
              frames: seq<Frame>, mem: Memory, cost: nat) returns (value: Option<GValue>, byKey: bool)
    requires session.Valid() && c.Valid() && Sound(c.St()) && !c.done
    requires session.stack != [] && session.stack[|session.stack| - 1].student
    modifies session, c, c.registry, c.budget
    ensures session.Valid() && c.Valid() && Sound(c.St())
    ensures c.St() == AfterStop(old(c.St()), StopAt(frames, mem, value, cost), c.maxBytes)
    ensures byKey ==> old(session.lastStack) != [] &&
                      var inner := old(session.lastStack)[|old(session.lastStack)| - 1];
                      inner.uid in session.returned && value == session.returned[inner.uid]
    ensures byKey && value.Some? && old(c.wires) != [] ==>
              && |c.patches| == |old(c.patches)| + 1
              && var p := c.patches[|old(c.patches)|];
                 p.at == |old(c.wires)| - 1 && p.before == old(c.heaps)[p.at]
                 && exists reg, left :: p.note == Annotated(reg, left, p.before, value.value, mem)
    ensures session.returned == old(session.returned) && session.lastStack == session.stack == old(session.stack)
  {
    hide AfterStop, Sound;
    var owner, returns_;
    owner, byKey, returns_ := session.Stop(canArm);
    value := if owner.Some? then owner.value.value else None;
    ghost var s := c.St();
    var _ := c.Stop(frames, mem, value, cost);
    if value.Some? && s.wires != [] {
      StopPatches(s, StopAt(frames, mem, value, cost), c.maxBytes);
    }
  }

  lemma StopPatches(s: Run, stop: StopAt, maxBytes: nat)
    requires Patchable(s) && stop.returned.Some?
    ensures var t := AfterStop(s, stop, maxBytes);
            && |t.patches| == |s.patches| + 1
            && var p := t.patches[|s.patches|];
               p.at == |s.wires| - 1 && p.before == s.heaps[p.at]
               && exists reg, left :: p.note == Annotated(reg, left, p.before, stop.returned.value, stop.mem)
  {
    hide Shoot, Annotated, Encode, Patched;
    var s1 := AfterShot(s, Shoot(s.reg, s.left, stop.frames, stop.mem));
    var p := PatchOf(s1, stop.returned.value, stop.mem);
    assert p.note == Annotated(s1.reg, s1.left, p.before, stop.returned.value, stop.mem);
  }
}
