/**
  More laws of every run: each step draws its own stop and nothing else, losses come in pairs,
  and the caps and budgets hold.
 */
module RunLaws {
  import opened Options
  import opened HeapDelta
  import opened GdbHeap
  import opened Pointers
  import opened Patching
  import opened Driver
  import opened Drawings
  import opened Identity
  import opened Grounding
  import opened Whole
  import opened Runs

  // ---- each step draws its stop ---------------------------------------------------------------

  /** The shot was taken at this stop, with some registry and what was left of the budget. */
  ghost predicate TakenAt(shot: Shot, stop: StopAt) {
    exists reg, left :: RegOk(reg) && shot == Shoot(reg, left, stop.frames, stop.mem)
  }

  /** The patch was made with the value that the next stop, or the end of the program, returned. */
  ghost predicate MadeWith(p: Patch, returned: GValue, mem: Memory) {
    Fits(p.reg, p.before) && exists left :: p.note == Annotated(p.reg, left, p.before, returned, mem)
  }

  /** What is returned to step i: by the stop after it, or when the program ends. */
  ghost function ReturnedTo(stops: seq<StopAt>, last: Option<(GValue, Memory)>, i: nat): Option<(GValue, Memory)> {
    if i + 1 < |stops| then
      if stops[i + 1].returned.Some? then Some((stops[i + 1].returned.value, stops[i + 1].mem)) else None
    else last
  }

  ghost predicate PatchTied(s: Run, p: Patch, stops: seq<StopAt>, last: Option<(GValue, Memory)>) {
    && p.at < |s.heaps| && p.at < |s.shots|
    && p.before == s.shots[p.at].boxes && s.heaps[p.at] == p.note.after
    && ReturnedTo(stops, last, p.at).Some?
    && MadeWith(p, ReturnedTo(stops, last, p.at).value.0, ReturnedTo(stops, last, p.at).value.1)
  }

  ghost predicate PatchedAt(s: Run, i: nat) {
    exists j :: 0 <= j < |s.patches| && s.patches[j].at == i
  }

  /** The stop after step `i` was reached and returned a value; or the step is the last of a run
      that no cap has cut, and the program ended with a value. */
  predicate TakesValue(s: Run, stops: seq<StopAt>, last: Option<(GValue, Memory)>, maxSteps: nat, i: nat) {
    if i + 1 < |s.shots| || (i + 1 == |s.shots| && s.done) then i + 1 < |stops| && stops[i + 1].returned.Some?
    else i + 1 == |s.shots| && last.Some? && |s.shots| < maxSteps
  }

  /** Every recorded step stands for the boxes of its own shot, with those of a value added
      exactly when one was returned to it, and then once. */
  ghost predicate StandsFor(s: Run, stops: seq<StopAt>, last: Option<(GValue, Memory)>, maxSteps: nat) {
    && |s.heaps| == |s.shots| <= |stops|
    && (forall i | 0 <= i < |s.shots| :: TakenAt(s.shots[i], stops[i]))
    && (forall i | 0 <= i < |s.heaps| :: PatchedAt(s, i) <==> TakesValue(s, stops, last, maxSteps, i))
    && (forall i | 0 <= i < |s.heaps| && !PatchedAt(s, i) :: s.heaps[i] == s.shots[i].boxes)
    && (forall j | 0 <= j < |s.patches| :: PatchTied(s, s.patches[j], stops, last))
    && (forall j, k | 0 <= j < k < |s.patches| :: s.patches[j].at < s.patches[k].at)
  }

  lemma ShotIsTaken(s: Run, stop: StopAt)
    requires Sound(s)
    ensures TakenAt(Shoot(s.reg, s.left, stop.frames, stop.mem), stop)
  {
    hide Shoot;
  }

  lemma PatchIsTied(s: Run, returned: GValue, mem: Memory)
    requires Patchable(s) && Fits(s.reg, s.heaps[|s.heaps| - 1])
    ensures MadeWith(PatchOf(s, returned, mem), returned, mem)
  {
    hide Annotated, Fits;
  }

  /** While the loop runs, the last step is as its shot left it. */
  ghost predicate Standing(s: Run, stops: seq<StopAt>) {
    && StandsFor(s, stops, None, 0) && (if s.done then |s.shots| < |stops| else |s.shots| == |stops|)
    && (!s.done && s.heaps != [] ==> !PatchedAt(s, |s.heaps| - 1))
  }

  lemma OneMorePatched(s: Run, p: Patch, i: nat)
    requires Patchable(s)
    ensures PatchedAt(AfterPatch(s, p), i) <==> PatchedAt(s, i) || p.at == i
  {
    hide Patched;
    var t := AfterPatch(s, p);
    if PatchedAt(s, i) {
      var j :| 0 <= j < |s.patches| && s.patches[j].at == i;
      assert t.patches[j].at == i;
    }
    if p.at == i {
      assert t.patches[|s.patches|].at == i;
    }
  }

  /** A value is drawn into the last step: the next stop returned it (`more` has that stop), or
      the program ended with it. */
  lemma PatchStands(s: Run, p: Patch, stops: seq<StopAt>, more: seq<StopAt>, last: Option<(GValue, Memory)>,
                    maxSteps: nat)
    requires Standing(s, stops) && !s.done && Patchable(s) && stops <= more
    requires p.at == |s.heaps| - 1 && p.before == s.heaps[p.at]
    requires var r := ReturnedTo(more, last, p.at); r.Some? && MadeWith(p, r.value.0, r.value.1)
    ensures var t := AfterPatch(s, p);
            && |t.heaps| == |t.shots| == |stops| && !t.done
            && (forall i | 0 <= i < |t.shots| :: TakenAt(t.shots[i], more[i]))
            && (forall i | 0 <= i < |t.heaps| - 1 :: PatchedAt(t, i) <==> stops[i + 1].returned.Some?)
            && PatchedAt(t, |t.heaps| - 1)
            && (forall i | 0 <= i < |t.heaps| && !PatchedAt(t, i) :: t.heaps[i] == t.shots[i].boxes)
            && (forall j | 0 <= j < |t.patches| :: PatchTied(t, t.patches[j], more, last))
            && (forall j, k | 0 <= j < k < |t.patches| :: t.patches[j].at < t.patches[k].at)
  {
    hide MadeWith, TakenAt, Patched, PatchedAt;
    var t := AfterPatch(s, p);
    forall i: nat ensures PatchedAt(t, i) <==> PatchedAt(s, i) || p.at == i {
      OneMorePatched(s, p, i);
    }
    forall j | 0 <= j < |t.patches| ensures PatchTied(t, t.patches[j], more, last) {
      if j < |s.patches| {
        assert PatchTied(s, s.patches[j], stops, None);
        NotTheLast(s, j);
      }
    }
    forall j, k | 0 <= j < k < |t.patches| ensures t.patches[j].at < t.patches[k].at {
      assert PatchTied(s, s.patches[j], stops, None);
      NotTheLast(s, j);
    }
    forall i | 0 <= i < |t.shots| ensures TakenAt(t.shots[i], more[i]) {
      assert stops[i] == more[i];
    }
    forall i | 0 <= i < |t.heaps| - 1 ensures PatchedAt(t, i) <==> stops[i + 1].returned.Some? {
      assert PatchedAt(s, i) <==> TakesValue(s, stops, None, 0, i);
    }
  }

  lemma NotTheLast(s: Run, j: nat)
    requires j < |s.patches| && s.heaps != [] && !PatchedAt(s, |s.heaps| - 1)
    ensures s.patches[j].at != |s.heaps| - 1
  {
  }

  lemma NextStands(s: Run, stops: seq<StopAt>, more: seq<StopAt>)
    requires Standing(s, stops) && !s.done && stops <= more && |more| == |stops| + 1
             && (more[|stops|].returned.None? || s.heaps == [])
    ensures Waiting(s, more)
  {
    hide MadeWith, TakenAt, PatchedAt;
    forall j | 0 <= j < |s.patches| ensures PatchTied(s, s.patches[j], more, None) {
      assert PatchTied(s, s.patches[j], stops, None);
    }
    forall i | 0 <= i < |s.shots| ensures TakenAt(s.shots[i], more[i]) {
      assert stops[i] == more[i];
    }
    forall i | 0 <= i < |s.heaps| ensures PatchedAt(s, i) <==> more[i + 1].returned.Some? {
      assert PatchedAt(s, i) <==> TakesValue(s, stops, None, 0, i);
      assert i + 1 < |stops| ==> more[i + 1] == stops[i + 1];
    }
  }

  /** The last stop was reached, its value if any was added, and its step is not recorded yet. */
  ghost predicate Waiting(s: Run, stops: seq<StopAt>) {
    && |s.heaps| == |s.shots| == |stops| - 1 && !s.done
    && (forall i | 0 <= i < |s.shots| :: TakenAt(s.shots[i], stops[i]))
    && (forall i | 0 <= i < |s.heaps| :: PatchedAt(s, i) <==> stops[i + 1].returned.Some?)
    && (forall i | 0 <= i < |s.heaps| && !PatchedAt(s, i) :: s.heaps[i] == s.shots[i].boxes)
    && (forall j | 0 <= j < |s.patches| :: PatchTied(s, s.patches[j], stops, None))
    && (forall j, k | 0 <= j < k < |s.patches| :: s.patches[j].at < s.patches[k].at)
  }

  lemma AppendStands(s: Run, shot: Shot, cost: nat, maxBytes: nat, added: set<Id>, stops: seq<StopAt>)
    requires Waiting(s, stops) && TakenAt(shot, stops[|stops| - 1])
    ensures Standing(AfterAppend(s, shot, cost, maxBytes, added), stops)
  {
    hide MadeWith, TakenAt, Encode;
    var t := AfterAppend(s, shot, cost, maxBytes, added);
    forall i: nat ensures PatchedAt(t, i) <==> PatchedAt(s, i) {
      SamePatches(s, t, i);
    }
    assert !PatchedAt(s, |stops| - 1) by {
      if j :| 0 <= j < |s.patches| && s.patches[j].at == |stops| - 1 {
        assert PatchTied(s, s.patches[j], stops, None);
      }
    }
    hide PatchedAt;
    forall j | 0 <= j < |t.patches| ensures PatchTied(t, t.patches[j], stops, None) {
      assert PatchTied(s, s.patches[j], stops, None);
    }
    forall i | 0 <= i < |t.heaps| ensures PatchedAt(t, i) <==> TakesValue(t, stops, None, 0, i) {
      if i < |s.heaps| {
        assert PatchedAt(s, i) <==> stops[i + 1].returned.Some?;
      }
    }
  }

  lemma SamePatches(s: Run, t: Run, i: nat)
    requires t.patches == s.patches
    ensures PatchedAt(t, i) <==> PatchedAt(s, i)
  {
  }

  lemma StopStands(s: Run, stops: seq<StopAt>, stop: StopAt, maxBytes: nat)
    requires Sound(s) && !s.done && Standing(s, stops)
    ensures Standing(AfterStop(s, stop, maxBytes), stops + [stop])
  {
    hide Sound, Shoot, Annotated, AfterPatch, AfterAppend, PatchTied, MadeWith, TakenAt, SameNames, SameOrNew,
         Images, Tied, Fits, RegOk;
    var more := stops + [stop];
    var shot := Shoot(s.reg, s.left, stop.frames, stop.mem);
    var s1 := AfterShot(s, shot);
    ShotIsTaken(s, stop);
    assert Standing(s1, stops) by {
      SameStanding(s, s1, stops);
    }
    if stop.returned.Some? && Patchable(s) {
      ShotStep(s, stop);
      var p := PatchOf(s1, stop.returned.value, stop.mem);
      PatchIsTied(s1, stop.returned.value, stop.mem);
      SoundShape(s);
      assert p.at == |s1.heaps| - 1 && p.before == s1.heaps[p.at];
      PatchStands(s1, p, stops, more, None, 0);
      PatchKeepsShots(s1, p);
      PatchWaits(AfterPatch(s1, p), stops, more);
      AppendStands(AfterPatch(s1, p), shot, stop.cost, maxBytes, AddedBy(p), more);
    } else {
      SoundShape(s);
      NextStands(s1, stops, more);
      AppendStands(s1, shot, stop.cost, maxBytes, {}, more);
    }
  }

  lemma PatchWaits(t: Run, stops: seq<StopAt>, more: seq<StopAt>)
    requires stops <= more && |more| == |stops| + 1 && more[|stops|].returned.Some?
    requires |t.heaps| == |t.shots| == |stops| && t.heaps != [] && !t.done
    requires forall i | 0 <= i < |t.shots| :: TakenAt(t.shots[i], more[i])
    requires forall i | 0 <= i < |t.heaps| - 1 :: PatchedAt(t, i) <==> stops[i + 1].returned.Some?
    requires PatchedAt(t, |t.heaps| - 1)
    requires forall i | 0 <= i < |t.heaps| && !PatchedAt(t, i) :: t.heaps[i] == t.shots[i].boxes
    requires forall j | 0 <= j < |t.patches| :: PatchTied(t, t.patches[j], more, None)
    requires forall j, k | 0 <= j < k < |t.patches| :: t.patches[j].at < t.patches[k].at
    ensures Waiting(t, more)
  {
    hide PatchedAt, PatchTied, TakenAt;
    forall i | 0 <= i < |t.heaps| ensures PatchedAt(t, i) <==> more[i + 1].returned.Some? {
      if i + 1 < |stops| {
        assert more[i + 1] == stops[i + 1];
      }
    }
  }

  lemma SoundShape(s: Run)
    requires Sound(s)
    ensures |s.wires| == |s.heaps| == |s.shots|
  {
  }

  lemma PatchKeepsShots(s: Run, p: Patch)
    requires Patchable(s)
    ensures AfterPatch(s, p).shots == s.shots && AfterPatch(s, p).done == s.done
  {
  }

  lemma SameStanding(s: Run, t: Run, stops: seq<StopAt>)
    requires Standing(s, stops) && t == s.(reg := t.reg, left := t.left)
    ensures Standing(t, stops)
  {
    hide MadeWith, TakenAt;
    forall i: nat ensures PatchedAt(t, i) <==> PatchedAt(s, i) {
      SamePatches(s, t, i);
    }
    hide PatchedAt;
    forall j | 0 <= j < |t.patches| ensures PatchTied(t, t.patches[j], stops, None) {
      assert PatchTied(s, s.patches[j], stops, None);
    }
    forall i | 0 <= i < |t.heaps| ensures PatchedAt(t, i) <==> TakesValue(t, stops, None, 0, i) {
      assert PatchedAt(s, i) <==> TakesValue(s, stops, None, 0, i);
    }
  }

  lemma StartStands()
    ensures Standing(StartRun(), [])
  {
  }

  /** A loop that ended at a cap saw the first stops only. */
  ghost predicate Ended(s: Run, stops: seq<StopAt>, maxSteps: nat) {
    exists k :: 0 <= k <= |stops| && Standing(s, stops[..k]) && (k < |stops| ==> s.done || |s.wires| >= maxSteps)
  }

  lemma {:induction false} RunStands(stops: seq<StopAt>, maxBytes: nat, maxSteps: nat)
    ensures Ended(RunOf(stops, maxBytes, maxSteps), stops, maxSteps)
  {
    hide Sound, AfterStop, Standing;
    var s' := RunOf(stops, maxBytes, maxSteps);
    if stops == [] {
      StartStands();
      assert Standing(s', stops[..0]);
    } else {
      var n := |stops| - 1;
      var s := RunOf(stops[..n], maxBytes, maxSteps);
      RunStands(stops[..n], maxBytes, maxSteps);
      var k :| 0 <= k <= n && Standing(s, stops[..n][..k]) && (k < n ==> s.done || |s.wires| >= maxSteps);
      assert stops[..n][..k] == stops[..k];
      if !s.done && |s.wires| < maxSteps {
        RunIsSound(stops[..n], maxBytes, maxSteps);
        StopStands(s, stops[..n], stops[n], maxBytes);
        assert stops[..n] + [stops[n]] == stops[..n + 1];
      }
    }
  }

  lemma StandsForMore(s: Run, stops: seq<StopAt>, k: nat, last: Option<(GValue, Memory)>, maxSteps: nat)
    requires k <= |stops| && Standing(s, stops[..k])
    requires last.None? || s.done || |s.shots| >= maxSteps || s.shots == []
    ensures StandsFor(s, stops, last, maxSteps)
  {
    hide MadeWith, TakenAt, PatchedAt;
    forall j | 0 <= j < |s.patches| ensures PatchTied(s, s.patches[j], stops, last) {
      assert PatchTied(s, s.patches[j], stops[..k], None);
    }
    forall i | 0 <= i < |s.shots| ensures TakenAt(s.shots[i], stops[i]) {
      assert stops[..k][i] == stops[i];
    }
    forall i | 0 <= i < |s.heaps| ensures PatchedAt(s, i) <==> TakesValue(s, stops, last, maxSteps, i) {
      assert PatchedAt(s, i) <==> TakesValue(s, stops[..k], None, 0, i);
      assert i + 1 < k ==> stops[..k][i + 1] == stops[i + 1];
    }
  }

  lemma ClosingStands(s: Run, p: Patch, stops: seq<StopAt>, last: Option<(GValue, Memory)>, maxSteps: nat)
    requires Standing(s, stops) && !s.done && Patchable(s) && last.Some? && |s.shots| < maxSteps
    requires p.at == |s.heaps| - 1 && p.before == s.heaps[p.at] && MadeWith(p, last.value.0, last.value.1)
    ensures StandsFor(AfterPatch(s, p), stops, last, maxSteps)
  {
    hide MadeWith, TakenAt, Patched, PatchTied, PatchedAt;
    AtTheEnd(s, stops, last);
    PatchStands(s, p, stops, stops, last, maxSteps);
  }

  /** Every run: its heaps are the shots of its stops, in order, with the returned values added. */
  lemma RunStandsForStops(stops: seq<StopAt>, maxBytes: nat, maxSteps: nat, last: Option<(GValue, Memory)>)
    ensures StandsFor(Closed(RunOf(stops, maxBytes, maxSteps), last, maxSteps), stops, last, maxSteps)
  {
    hide RunOf, Sound, AfterPatch, PatchTied, MadeWith, TakenAt, StandsFor, Annotated, Fits, Tied, Below, Standing;
    var s := RunOf(stops, maxBytes, maxSteps);
    RunStands(stops, maxBytes, maxSteps);
    var k :| 0 <= k <= |stops| && Standing(s, stops[..k]) && (k < |stops| ==> s.done || |s.wires| >= maxSteps);
    CloseStep(stops, maxBytes, maxSteps);
    SoundShape(s);
    if last.Some? && !s.done && Patchable(s) && |s.wires| < maxSteps {
      assert stops[..k] == stops;
      var p := PatchOf(s, last.value.0, last.value.1);
      PatchIsTied(s, last.value.0, last.value.1);
      ClosingStands(s, p, stops, last, maxSteps);
    } else {
      StandsForMore(s, stops, k, last, maxSteps);
    }
  }

  lemma AtTheEnd(s: Run, stops: seq<StopAt>, last: Option<(GValue, Memory)>)
    requires Standing(s, stops) && !s.done && s.heaps != []
    ensures ReturnedTo(stops, last, |s.heaps| - 1) == last
  {
    hide TakenAt, PatchTied;
  }

  /** So each recorded step draws exactly its own stop: every variable and part has its slot
      and box, everything met is resolved unless a budget is used up, and nothing is boxed that
      the frames of the stop do not reach. */
  lemma EachStepDrawsItsStop(stops: seq<StopAt>, maxBytes: nat, maxSteps: nat, last: Option<(GValue, Memory)>, i: nat)
    requires i < |Closed(RunOf(stops, maxBytes, maxSteps), last, maxSteps).shots|
    ensures var s := Closed(RunOf(stops, maxBytes, maxSteps), last, maxSteps);
            && i < |stops| && i < |s.heaps| && ShotDraws(s.shots[i], stops[i].frames, stops[i].mem)
            && (PatchedAt(s, i) <==> TakesValue(s, stops, last, maxSteps, i))
            && (!PatchedAt(s, i) ==> s.heaps[i] == s.shots[i].boxes)
            && (forall places: iset<Sight> | ClosedUnder(places, stops[i].mem)
               && HoldsFrames(places, stops[i].frames) ::
                  Within(s.shots[i].e.h, places))
  {
    hide RunOf, Closed, PatchTied, PatchedAt, TakesValue, Shoot, ShotDraws, ClosedUnder, HoldsFrames, Within;
    RunStandsForStops(stops, maxBytes, maxSteps, last);
    var s := Closed(RunOf(stops, maxBytes, maxSteps), last, maxSteps);
    var stop := stops[i];
    assert TakenAt(s.shots[i], stop);
    var reg, left :| RegOk(reg) && s.shots[i] == Shoot(reg, left, stop.frames, stop.mem);
    ShotIsDrawn(reg, left, stop.frames, stop.mem);
    forall places: iset<Sight> | ClosedUnder(places, stop.mem) && HoldsFrames(places, stop.frames)
      ensures Within(s.shots[i].e.h, places)
    {
      ShotWithin(reg, left, stop.frames, stop.mem, places);
    }
  }

  /** And where its frames reach nothing confusing and no budget was reached, its snapshot is the
      program's graph: every aggregate, nothing else, every pointer linked to what it points to. */
  lemma EachPlainStepIsTheGraph(stops: seq<StopAt>, maxBytes: nat, maxSteps: nat,
                                last: Option<(GValue, Memory)>, i: nat)
    requires var s := Closed(RunOf(stops, maxBytes, maxSteps), last, maxSteps);
             i < |s.shots| && i < |stops| && Plain(stops[i].frames, stops[i].mem) && Unhindered(s.shots[i].e.h)
    ensures var shot := Closed(RunOf(stops, maxBytes, maxSteps), last, maxSteps).shots[i]; var stop := stops[i];
            && BoxesAll(shot, stop.frames, stop.mem) && BoxesOnly(shot, stop.frames, stop.mem)
            && LinksHome(shot, stop.frames, stop.mem)
  {
    hide RunOf, Closed, PatchTied, PatchedAt, TakesValue, Shoot, Plain, Unhindered, BoxesAll, BoxesOnly, LinksHome;
    RunStandsForStops(stops, maxBytes, maxSteps, last);
    var s := Closed(RunOf(stops, maxBytes, maxSteps), last, maxSteps);
    assert TakenAt(s.shots[i], stops[i]);
    var reg, left :| RegOk(reg) && s.shots[i] == Shoot(reg, left, stops[i].frames, stops[i].mem);
    WholeGraphDrawn(reg, left, stops[i].frames, stops[i].mem);
  }

  /** And each patch draws the value that was returned to its step, on top of the step's own boxes. */
  lemma EachPatchDrawsItsValue(stops: seq<StopAt>, maxBytes: nat, maxSteps: nat, last: Option<(GValue, Memory)>, j: nat)
    requires j < |Closed(RunOf(stops, maxBytes, maxSteps), last, maxSteps).patches|
    ensures var s := Closed(RunOf(stops, maxBytes, maxSteps), last, maxSteps); var p := s.patches[j];
            && p.at < |s.heaps| && p.at < |s.shots| && p.before == s.shots[p.at].boxes && s.heaps[p.at] == p.note.after
            && (forall k | 0 <= k < |s.patches| && s.patches[k].at == p.at :: k == j)
            && var r := ReturnedTo(stops, last, p.at);
               r.Some? && NoteDraws(p.note, p.before, r.value.0, r.value.1)
  {
    hide RunOf, Closed, TakenAt, Annotated, NoteDraws, Fits, PatchedAt, TakesValue;
    RunStandsForStops(stops, maxBytes, maxSteps, last);
    var s := Closed(RunOf(stops, maxBytes, maxSteps), last, maxSteps);
    var p := s.patches[j];
    assert PatchTied(s, p, stops, last);
    var r := ReturnedTo(stops, last, p.at).value;
    var left :| p.note == Annotated(p.reg, left, p.before, r.0, r.1);
    NoteIsDrawn(p.reg, left, p.before, r.0, r.1);
  }

  // ---- losses -----------------------------------------------------------------------------------

  /** The boxes a patch adds to a step that deletes them. */
  ghost function LostBy(p: Patch): set<Id> {
    AddedBy(p) * DelOf(p.wire)
  }

  /** A box is lost only when the patch before it, to the step before, had added that very box. */
  ghost predicate LossesInPairs(patches: seq<Patch>) {
    forall j | 0 <= j < |patches| ::
      LostBy(patches[j]) == {} || (j > 0 && patches[j - 1].at + 1 == patches[j].at
        && LostBy(patches[j]) <= AddedBy(patches[j - 1]))
  }

  ghost predicate CarriedByLast(s: Run) {
    s.carried == {} || (s.patches != [] && s.patches[|s.patches| - 1].at + 2 == |s.wires|
                        && s.carried == AddedBy(s.patches[|s.patches| - 1]))
  }

  ghost predicate Losses(s: Run) {
    LossesInPairs(s.patches) && (!s.done ==> CarriedByLast(s))
  }

  lemma OneMorePatch(s: Run, p: Patch)
    requires Losses(s) && !s.done && Patchable(s) && p.at == |s.wires| - 1 && LostBy(p) <= s.carried
    ensures LossesInPairs(AfterPatch(s, p).patches)
  {
    hide LostBy, AddedBy, Patched;
    var more := AfterPatch(s, p).patches;
    forall j | 0 <= j < |more|
      ensures LostBy(more[j]) == {} || (j > 0 && more[j - 1].at + 1 == more[j].at
              && LostBy(more[j]) <= AddedBy(more[j - 1]))
    {
      if j < |s.patches| {
        assert more[j] == s.patches[j];
      }
    }
  }

  lemma StopKeepsLosses(s: Run, stop: StopAt, maxBytes: nat)
    requires Sound(s) && !s.done && Losses(s)
    ensures Losses(AfterStop(s, stop, maxBytes))
  {
    hide Sound, Shoot, Annotated, Patched, Added, DelOf, SameNames, SameOrNew, Images, Tied, RegOk, Fits,
         Encode, LossesInPairs;
    var shot := Shoot(s.reg, s.left, stop.frames, stop.mem);
    var s1 := AfterShot(s, shot);
    if stop.returned.Some? && Patchable(s) {
      ShotStep(s, stop);
      SoundParts(s, s1);
      PatchStep(s1, stop.returned.value, stop.mem);
      OneMorePatch(s1, PatchOf(s1, stop.returned.value, stop.mem));
    }
  }

  lemma SoundReg(s: Run)
    requires Sound(s)
    ensures RegistryOk(s.reg.ids, s.reg.counter, s.reg.names)
  {
  }

  lemma SoundParts(s: Run, t: Run)
    requires Sound(s) && !s.done && Patchable(s) && t == s.(reg := t.reg, left := t.left)
    ensures Shaped(t.wires) && Below(DelOf(t.wires[|t.wires| - 1]), t.mark) && s.mark <= s.reg.counter
  {
  }

  /** Over every run, losses come in pairs of consecutive patches. */
  lemma {:induction false} RunLosesInPairs(stops: seq<StopAt>, maxBytes: nat, maxSteps: nat)
    ensures Losses(RunOf(stops, maxBytes, maxSteps))
  {
    hide Sound, AfterStop, LossesInPairs, CarriedByLast;
    if stops == [] {
      assert LossesInPairs(StartRun().patches) && CarriedByLast(StartRun()) by {
        NoLosses();
      }
    } else {
      var s := RunOf(stops[..|stops| - 1], maxBytes, maxSteps);
      RunLosesInPairs(stops[..|stops| - 1], maxBytes, maxSteps);
      if !s.done && |s.wires| < maxSteps {
        RunIsSound(stops[..|stops| - 1], maxBytes, maxSteps);
        StopKeepsLosses(s, stops[|stops| - 1], maxBytes);
      }
    }
  }

  lemma NoLosses()
    ensures LossesInPairs(StartRun().patches) && CarriedByLast(StartRun())
  {
  }

  // ---- budgets and caps ---------------------------------------------------------------------------

  function ShotReads(shots: seq<Shot>): nat {
    if shots == [] then 0 else ShotReads(shots[..|shots| - 1]) + |shots[|shots| - 1].e.read|
  }

  function PatchReads(patches: seq<Patch>): nat {
    if patches == [] then 0 else PatchReads(patches[..|patches| - 1]) + |patches[|patches| - 1].note.e.read|
  }

  /** What is left, and everything read for the trace, is the budget of the trace; only the
      reads of a step that did not fit any more are missing. */
  ghost predicate Budgeted(s: Run) {
    && s.left + ShotReads(s.shots) + PatchReads(s.patches) <= MAX_EXPANSIONS_PER_TRACE
    && (!s.done ==> s.left + ShotReads(s.shots) + PatchReads(s.patches) == MAX_EXPANSIONS_PER_TRACE)
  }

  lemma StopKeepsBudget(s: Run, stop: StopAt, maxBytes: nat)
    requires Sound(s) && !s.done && Budgeted(s)
    ensures Budgeted(AfterStop(s, stop, maxBytes))
  {
    hide Sound, Shoot, Annotated, Patched, Added, SameNames, SameOrNew, Images, Tied, RegOk, Fits, Encode,
         ShotDraws, NoteDraws, Keeps;
    var shot := Shoot(s.reg, s.left, stop.frames, stop.mem);
    var s1 := AfterShot(s, shot);
    SoundReg(s);
    ShotIsDrawn(s.reg, s.left, stop.frames, stop.mem);
    assert (s.shots + [shot])[..|s.shots|] == s.shots;
    if stop.returned.Some? && Patchable(s) {
      ShotStep(s, stop);
      var n := |s.wires| - 1;
      NoteIsDrawn(s1.reg, s1.left, s1.heaps[n], stop.returned.value, stop.mem);
      var p := PatchOf(s1, stop.returned.value, stop.mem);
      assert (s.patches + [p])[..|s.patches|] == s.patches;
    }
  }

  /** At most 600 addresses are read over a whole trace, by snapshots and returned values together. */
  lemma {:induction false} RunKeepsBudget(stops: seq<StopAt>, maxBytes: nat, maxSteps: nat)
    ensures Budgeted(RunOf(stops, maxBytes, maxSteps))
  {
    hide Sound, AfterStop;
    if stops != [] {
      var s := RunOf(stops[..|stops| - 1], maxBytes, maxSteps);
      RunKeepsBudget(stops[..|stops| - 1], maxBytes, maxSteps);
      if !s.done && |s.wires| < maxSteps {
        RunIsSound(stops[..|stops| - 1], maxBytes, maxSteps);
        StopKeepsBudget(s, stops[|stops| - 1], maxBytes);
      }
    }
  }

  /** The size of the first steps together. */
  function CostOf(stops: seq<StopAt>): nat {
    if stops == [] then 0 else CostOf(stops[..|stops| - 1]) + stops[|stops| - 1].cost
  }

  ghost predicate Capped(s: Run, stops: seq<StopAt>, maxBytes: nat, maxSteps: nat) {
    && |s.wires| == |s.heaps| <= |stops| && |s.wires| <= maxSteps
    && s.bytes == CostOf(stops[..|s.wires|]) <= maxBytes
    && (s.done ==> |s.wires| < |stops| && CostOf(stops[..|s.wires| + 1]) > maxBytes)
    && (|s.wires| < |stops| ==> s.done || |s.wires| == maxSteps)
  }

  lemma StopGrows(s: Run, stop: StopAt, maxBytes: nat)
    requires |s.wires| == |s.heaps| && !s.done
    ensures var t := AfterStop(s, stop, maxBytes); var fits := s.bytes + stop.cost <= maxBytes;
            && t.done == !fits && t.bytes == (if fits then s.bytes + stop.cost else s.bytes)
            && |t.wires| == |t.heaps| == (if fits then |s.wires| + 1 else |s.wires|)
  {
    hide Shoot, Annotated, Patched, Encode, AddedBy;
  }

  lemma OneMoreCost(stops: seq<StopAt>, i: nat)
    requires i < |stops|
    ensures CostOf(stops[..i + 1]) == CostOf(stops[..i]) + stops[i].cost
  {
    assert stops[..i + 1][..i] == stops[..i];
  }

  lemma StopIsCapped(s: Run, stops: seq<StopAt>, maxBytes: nat, maxSteps: nat)
    requires stops != [] && Capped(s, stops[..|stops| - 1], maxBytes, maxSteps)
    ensures Capped(if s.done || |s.wires| >= maxSteps then s else AfterStop(s, stops[|stops| - 1], maxBytes),
                   stops, maxBytes, maxSteps)
  {
    hide AfterStop, CostOf;
    var n := |stops| - 1;
    assert stops[..n][..|s.wires|] == stops[..|s.wires|];
    assert |s.wires| < n ==> stops[..n][..|s.wires| + 1] == stops[..|s.wires| + 1];
    OneMoreCost(stops, n);
    if !s.done && |s.wires| < maxSteps {
      StopGrows(s, stops[n], maxBytes);
    }
  }

  /** A trace falls short of its stops only because a cap was reached: the step cap, or the byte
      cap, which the next step would have passed. */
  lemma {:induction false} RunIsCapped(stops: seq<StopAt>, maxBytes: nat, maxSteps: nat)
    ensures Capped(RunOf(stops, maxBytes, maxSteps), stops, maxBytes, maxSteps)
  {
    hide AfterStop;
    if stops == [] {
      assert stops[..0] == [];
    } else {
      hide Capped;
      RunIsCapped(stops[..|stops| - 1], maxBytes, maxSteps);
      StopIsCapped(RunOf(stops[..|stops| - 1], maxBytes, maxSteps), stops, maxBytes, maxSteps);
    }
  }

  // ---- with the closing patch ---------------------------------------------------------------------

  lemma TraceLosesInPairs(stops: seq<StopAt>, maxBytes: nat, maxSteps: nat, last: Option<(GValue, Memory)>)
    ensures LossesInPairs(Closed(RunOf(stops, maxBytes, maxSteps), last, maxSteps).patches)
  {
    hide RunOf, Sound, Annotated, Patched, Added, DelOf, Fits, Tied, Below, SameNames, SameOrNew, Images, LossesInPairs;
    var s := RunOf(stops, maxBytes, maxSteps);
    RunLosesInPairs(stops, maxBytes, maxSteps);
    CloseStep(stops, maxBytes, maxSteps);
    if last.Some? && !s.done && Patchable(s) && |s.wires| < maxSteps {
      SoundReg(s);
      SoundParts(s, s);
      PatchStep(s, last.value.0, last.value.1);
      OneMorePatch(s, PatchOf(s, last.value.0, last.value.1));
    }
  }

  lemma TraceKeepsBudget(stops: seq<StopAt>, maxBytes: nat, maxSteps: nat, last: Option<(GValue, Memory)>)
    ensures var s := Closed(RunOf(stops, maxBytes, maxSteps), last, maxSteps);
            s.left + ShotReads(s.shots) + PatchReads(s.patches) <= MAX_EXPANSIONS_PER_TRACE
  {
    hide RunOf, Sound, Annotated, Patched, Fits, Tied, Below, NoteDraws, Keeps;
    var s := RunOf(stops, maxBytes, maxSteps);
    RunKeepsBudget(stops, maxBytes, maxSteps);
    CloseStep(stops, maxBytes, maxSteps);
    if last.Some? && !s.done && Patchable(s) && |s.wires| < maxSteps {
      NoteIsDrawn(s.reg, s.left, s.heaps[|s.wires| - 1], last.value.0, last.value.1);
      var p := PatchOf(s, last.value.0, last.value.1);
      assert (s.patches + [p])[..|s.patches|] == s.patches;
    }
  }
}
