/**
  Ids over every run, for all boxes of the recorded steps, those of returned values included: one
  id never names two objects, and exactly when an object keeps its id from one step to the next.
 */
module RunIds {
  import opened Options
  import opened HeapDelta
  import opened GdbHeap
  import opened Pointers
  import opened Patching
  import opened Driver
  import opened Drawings
  import opened Identity
  import opened Returned
  import opened Runs
  import opened RunLaws

  // ---- what every turn keeps ------------------------------------------------------------------

  /** An object used in one drawing and registered in the next has the same id in both. */
  ghost predicate Continues(g: HeapState, h: HeapState) {
    forall k | k in g.used && k in g.ids && k in h.ids :: h.ids[k] == g.ids[k]
  }

  /** Every key used in a drawing is the name of its id, and every box drawn has a key used. */
  ghost predicate NamesUsed(h: HeapState) {
    && (forall k | k in h.used :: k in h.ids && h.ids[k] in h.names && h.names[h.ids[k]] == k)
    && forall r | r in h.origin :: KeyOf(h.origin[r].0).Some? && KeyOf(h.origin[r].0).value in h.used
                                   && h.ids[KeyOf(h.origin[r].0).value] == r
  }

  ghost predicate RegisteredStill(h: HeapState, reg: Reg) {
    forall k | k in h.used && k in h.ids :: k in reg.ids && reg.ids[k] == h.ids[k]
  }

  /** What one patch knows: the names of all steps before it, and the registry as the snapshot after
      its step left it. */
  ghost predicate PatchNamed(s: Run, p: Patch) {
    && RegOk(p.reg) && SameNames(p.reg.names, p.note.e.h.names) && SameNames(p.note.e.h.names, s.reg.names)
    && SameOrNew(p.reg.ids, p.note.e.h.ids, p.reg.counter)
    && NamesUsed(p.note.e.h) && AddedBy(p) == p.note.e.h.origin.Keys
    && p.at < |s.heaps| && (forall i | 0 <= i < p.at :: s.heaps[i].Keys <= p.reg.names.Keys)
    && (p.at + 1 < |s.shots| ==> p.reg == Pruned(s.shots[p.at + 1].e.h))
    && (p.at > 0 ==> p.wire == Encode(Some(s.heaps[p.at - 1]), p.before))
  }

  ghost predicate ShotNamed(s: Run, shot: Shot) {
    SameNames(shot.e.h.names, s.reg.names) && NamesUsed(shot.e.h) && shot.boxes.Keys == shot.e.h.origin.Keys
  }

  ghost predicate KeepsIds(s: Run) {
    && (forall i | 0 <= i < |s.shots| - 1 :: Continues(s.shots[i].e.h, s.shots[i + 1].e.h))
    && (forall i | 0 <= i < |s.shots| :: ShotNamed(s, s.shots[i]))
    && (forall j | 0 <= j < |s.patches| :: PatchNamed(s, s.patches[j]))
    && (forall i | 0 <= i < |s.heaps| :: s.heaps[i].Keys <= s.reg.names.Keys)
  }

  /** While the loop runs, the last step is as its snapshot made it. */
  ghost predicate LastFresh(s: Run) {
    && |s.wires| == |s.heaps| == |s.shots|
    && (s.shots != [] ==> RegisteredStill(s.shots[|s.shots| - 1].e.h, s.reg))
    && (forall j | 0 <= j < |s.patches| :: s.patches[j].at + 1 < |s.shots|)
    && (|s.heaps| > 1 ==> var n := |s.heaps| - 1; s.wires[n] == Encode(Some(s.heaps[n - 1]), s.heaps[n]))
  }

  ghost predicate Named(s: Run) {
    KeepsIds(s) && (!s.done ==> LastFresh(s))
  }

  lemma SameNamesReflexive(names: map<Id, Key>)
    ensures SameNames(names, names)
  {
  }

  // ---- the snapshot of a stop ------------------------------------------------------------------

  lemma ShotContinues(s: Run, stop: StopAt)
    requires Sound(s) && Named(s) && !s.done
    ensures var shot := Shoot(s.reg, s.left, stop.frames, stop.mem); var s1 := AfterShot(s, shot);
            && (s.shots != [] ==> Continues(s.shots[|s.shots| - 1].e.h, shot.e.h))
            && SameNames(s.reg.names, s1.reg.names) && shot.e.h.names == s1.reg.names
            && RegisteredStill(shot.e.h, s1.reg) && ShotNamed(s1, shot) && shot.boxes.Keys <= s1.reg.names.Keys
  {
    hide Shoot, ShotDraws, SameNames, SameOrNew, RegOk, KeepsIds, ShotNamed, Continues, RegisteredStill, Keeps, Images;
    assert RegistryOk(s.reg.ids, s.reg.counter, s.reg.names) by {
      SoundReg(s);
    }
    ShotIsDrawn(s.reg, s.left, stop.frames, stop.mem);
    ShotTies(s.reg, s.left, stop.frames, stop.mem);
    var shot := Shoot(s.reg, s.left, stop.frames, stop.mem);
    ShotIsNamed(shot, stop, AfterShot(s, shot));
    if s.shots != [] {
      KeptContinue(s.shots[|s.shots| - 1].e.h, s.reg, shot.e.h);
    }
    PrunedStill(shot.e.h);
  }

  lemma ShotIsNamed(shot: Shot, stop: StopAt, t: Run)
    requires ShotDraws(shot, stop.frames, stop.mem) && t.reg.names == shot.e.h.names
    ensures ShotNamed(t, shot)
  {
    hide ShotDraws, NamesUsed;
    SameNamesReflexive(shot.e.h.names);
    DrawnNames(shot, stop);
  }

  lemma KeptContinue(g: HeapState, reg: Reg, h: HeapState)
    requires RegisteredStill(g, reg) && Keeps(StateOf(reg, map[]), h)
    ensures Continues(g, h)
  {
    hide KeysWithin;
  }

  lemma PrunedStill(h: HeapState)
    ensures RegisteredStill(h, Pruned(h)) && Pruned(h).names == h.names
  {
  }

  lemma DrawnNames(shot: Shot, stop: StopAt)
    requires ShotDraws(shot, stop.frames, stop.mem)
    ensures NamesUsed(shot.e.h) && shot.boxes.Keys == shot.e.h.origin.Keys
  {
    hide DrawnOk, OriginOk, AllResolved, LinkBox, KeyOf, FrameSettled;
    var h := shot.e.h;
    forall r | r in h.origin ensures KeyOf(h.origin[r].0).Some? && KeyOf(h.origin[r].0).value in h.used
                                     && h.ids[KeyOf(h.origin[r].0).value] == r
    {
      OriginKey(h, r);
    }
    UsedBoxes(h);
    LinkedKeys(h.boxes, h.byAddress);
  }

  lemma OriginKey(h: HeapState, r: Id)
    requires Inv(h, {}) && r in h.origin
    ensures var k := KeyOf(h.origin[r].0); k.Some? && k.value in h.used && k.value in h.ids && h.ids[k.value] == r
  {
    hide DrawnOk, KeyOf;
    assert OriginOk(h, r);
  }

  lemma NamesLater(s: Run, t: Run)
    requires KeepsIds(s) && t == s.(reg := t.reg, left := t.left) && SameNames(s.reg.names, t.reg.names)
    ensures KeepsIds(t)
  {
    hide Continues, NamesUsed, SameNames, RegOk, SameOrNew;
    forall i | 0 <= i < |t.shots| ensures ShotNamed(t, t.shots[i]) {
      NamesTransitive(s.shots[i].e.h.names, s.reg.names, t.reg.names);
    }
    forall j | 0 <= j < |t.patches| ensures PatchNamed(t, t.patches[j]) {
      NamesTransitive(s.patches[j].note.e.h.names, s.reg.names, t.reg.names);
    }
    NamesGrown(s.reg.names, t.reg.names);
  }

  lemma NamesGrown(names: map<Id, Key>, later: map<Id, Key>)
    requires SameNames(names, later)
    ensures names.Keys <= later.Keys
  {
  }

  // ---- a returned value --------------------------------------------------------------------------

  /** The patch of the last step: what `PatchNamed` asks of it. */
  lemma PatchIsNamed(s: Run, returned: GValue, mem: Memory)
    requires RegOk(s.reg) && KeepsIds(s) && Patchable(s) && |s.shots| == |s.heaps|
    requires Fits(s.reg, s.heaps[|s.heaps| - 1])
    requires |s.heaps| > 1 ==> var n := |s.heaps| - 1; s.wires[n] == Encode(Some(s.heaps[n - 1]), s.heaps[n])
    ensures var p := PatchOf(s, returned, mem); var t := AfterPatch(s, p);
            && SameNames(s.reg.names, t.reg.names) && PatchNamed(t, p) && p.note.after.Keys <= t.reg.names.Keys
            && s.reg.ids.Keys <= t.reg.ids.Keys && SameOrNew(s.reg.ids, t.reg.ids, s.reg.counter)
  {
    hide Annotated, Images, Added, KeysWithin, SameNames, SameOrNew, NamesUsed, Encode, Patched, Continues, ShotNamed;
    var n := |s.heaps| - 1;
    var p := PatchOf(s, returned, mem);
    NoteTies(s.reg, s.left, s.heaps[n], returned, mem);
    NoteNames(s.reg, s.left, s.heaps[n], returned, mem);
    SameNamesReflexive(p.note.e.h.names);
    assert forall i | 0 <= i < n :: AfterPatch(s, p).heaps[i] == s.heaps[i];
  }

  lemma NoteNames(reg: Reg, left: nat, before: Boxes, returned: GValue, mem: Memory)
    requires Fits(reg, before)
    ensures var note := Annotated(reg, left, before, returned, mem);
            NamesUsed(note.e.h) && Added(before, note.after).Keys == note.e.h.origin.Keys
  {
    hide Annotated, Added, Inv, Known, KeyOf;
    NewKeys(reg, left, before, returned, mem);
    var h := Annotated(reg, left, before, returned, mem).e.h;
    forall r | r in h.origin ensures KeyOf(h.origin[r].0).Some? && KeyOf(h.origin[r].0).value in h.used
                                     && h.ids[KeyOf(h.origin[r].0).value] == r
    {
      OriginKey(h, r);
    }
  }

  lemma PatchKeepsIds(s: Run, returned: GValue, mem: Memory)
    requires RegOk(s.reg) && KeepsIds(s) && Patchable(s) && |s.shots| == |s.heaps|
    requires Fits(s.reg, s.heaps[|s.heaps| - 1])
    requires forall j | 0 <= j < |s.patches| :: s.patches[j].at + 1 < |s.shots|
    requires |s.heaps| > 1 ==> var n := |s.heaps| - 1; s.wires[n] == Encode(Some(s.heaps[n - 1]), s.heaps[n])
    ensures KeepsIds(AfterPatch(s, PatchOf(s, returned, mem)))
  {
    hide Annotated, Patched, Continues, NamesUsed, SameNames, SameOrNew, RegOk, Fits, Encode, AddedBy;
    PatchIsNamed(s, returned, mem);
    var p := PatchOf(s, returned, mem);
    var t := AfterPatch(s, p);
    NamesGrown(s.reg.names, t.reg.names);
    forall i | 0 <= i < |t.shots| ensures ShotNamed(t, t.shots[i]) {
      NamesTransitive(s.shots[i].e.h.names, s.reg.names, t.reg.names);
    }
    forall j | 0 <= j < |t.patches| ensures PatchNamed(t, t.patches[j]) {
      if j < |s.patches| {
        NamesTransitive(s.patches[j].note.e.h.names, s.reg.names, t.reg.names);
        assert PatchNamed(s, s.patches[j]);
      }
    }
    hide PatchNamed, ShotNamed, AfterPatch;
    forall i | 0 <= i < |t.heaps| ensures t.heaps[i].Keys <= t.reg.names.Keys {
      HeapOf(s, p, i);
    }
  }

  lemma HeapOf(s: Run, p: Patch, i: nat)
    requires Patchable(s) && i < |s.heaps|
    ensures |AfterPatch(s, p).heaps| == |s.heaps|
    ensures AfterPatch(s, p).heaps[i] == if i < |s.heaps| - 1 then s.heaps[i] else p.note.after
  {
  }

  // ---- recording the step ---------------------------------------------------------------------------

  lemma AppendKeepsIds(s: Run, shot: Shot, cost: nat, maxBytes: nat, added: set<Id>)
    requires KeepsIds(s) && !s.done && |s.wires| == |s.heaps| == |s.shots|
    requires s.shots != [] ==> Continues(s.shots[|s.shots| - 1].e.h, shot.e.h)
    requires ShotNamed(s, shot) && RegisteredStill(shot.e.h, s.reg) && shot.boxes.Keys <= s.reg.names.Keys
    requires forall j | 0 <= j < |s.patches| ::
               s.patches[j].at + 1 < |s.shots| || s.patches[j].reg == Pruned(shot.e.h)
    ensures Named(AfterAppend(s, shot, cost, maxBytes, added))
  {
    hide Continues, RegisteredStill, NamesUsed, SameNames, SameOrNew, RegOk, Encode;
    var t := AfterAppend(s, shot, cost, maxBytes, added);
    forall j | 0 <= j < |t.patches| ensures PatchNamed(t, t.patches[j]) {
      assert PatchNamed(s, s.patches[j]);
    }
    forall i | 0 <= i < |t.shots| ensures ShotNamed(t, t.shots[i]) {
      if i < |s.shots| {
        assert ShotNamed(s, s.shots[i]);
      }
    }
    hide PatchNamed, ShotNamed;
    if !t.done {
      LastIs(s, shot, cost, maxBytes, added);
    }
  }

  lemma LastIs(s: Run, shot: Shot, cost: nat, maxBytes: nat, added: set<Id>)
    requires |s.wires| == |s.heaps| == |s.shots| && s.bytes + cost <= maxBytes
    ensures var t := AfterAppend(s, shot, cost, maxBytes, added); var n := |t.heaps| - 1;
            && |t.wires| == |t.heaps| && t.heaps[n] == shot.boxes
            && (n > 0 ==> t.wires[n] == Encode(Some(t.heaps[n - 1]), t.heaps[n]))
  {
  }

  lemma StopKeepsIds(s: Run, stop: StopAt, maxBytes: nat)
    requires Sound(s) && !s.done && Named(s)
    ensures Named(AfterStop(s, stop, maxBytes))
  {
    hide Sound, KeepsIds, Shoot, Annotated, AfterAppend, Patched, Continues, NamesUsed, RegisteredStill, PatchNamed,
         ShotNamed, SameNames, SameOrNew, Images, Tied, RegOk, Fits, Encode;
    var shot := Shoot(s.reg, s.left, stop.frames, stop.mem);
    var s1 := AfterShot(s, shot);
    ShotContinues(s, stop);
    ShotStep(s, stop);
    NamesLater(s, s1);
    if stop.returned.Some? && Patchable(s) {
      var p := PatchOf(s1, stop.returned.value, stop.mem);
      PatchKeepsIds(s1, stop.returned.value, stop.mem);
      PatchIsNamed(s1, stop.returned.value, stop.mem);
      AfterPatchShot(s1, AfterPatch(s1, p), shot);
      AppendKeepsIds(AfterPatch(s1, p), shot, stop.cost, maxBytes, AddedBy(p));
    } else {
      AppendKeepsIds(s1, shot, stop.cost, maxBytes, {});
    }
  }

  lemma AfterPatchShot(s: Run, t: Run, shot: Shot)
    requires ShotNamed(s, shot) && RegisteredStill(shot.e.h, s.reg) && shot.boxes.Keys <= s.reg.names.Keys
    requires SameNames(s.reg.names, t.reg.names) && s.reg.ids.Keys <= t.reg.ids.Keys
    requires SameOrNew(s.reg.ids, t.reg.ids, s.reg.counter)
    ensures ShotNamed(t, shot) && RegisteredStill(shot.e.h, t.reg) && shot.boxes.Keys <= t.reg.names.Keys
  {
    hide NamesUsed;
    NamesTransitive(shot.e.h.names, s.reg.names, t.reg.names);
  }

  lemma StartKeepsIds()
    ensures Named(StartRun())
  {
  }

  lemma {:induction false} RunIsNamed(stops: seq<StopAt>, maxBytes: nat, maxSteps: nat)
    ensures Named(RunOf(stops, maxBytes, maxSteps))
  {
    hide Sound, AfterStop, Named;
    if stops == [] {
      StartKeepsIds();
    } else {
      var s := RunOf(stops[..|stops| - 1], maxBytes, maxSteps);
      RunIsNamed(stops[..|stops| - 1], maxBytes, maxSteps);
      if !s.done && |s.wires| < maxSteps {
        RunIsSound(stops[..|stops| - 1], maxBytes, maxSteps);
        StopKeepsIds(s, stops[|stops| - 1], maxBytes);
      }
    }
  }

  /** The invariant over every run, the closing value included. */
  lemma RunKeepsIds(stops: seq<StopAt>, maxBytes: nat, maxSteps: nat, last: Option<(GValue, Memory)>)
    ensures KeepsIds(Closed(RunOf(stops, maxBytes, maxSteps), last, maxSteps))
  {
    hide RunOf, KeepsIds, Sound, Fits, Below, Tied, Encode, RegisteredStill, AfterPatch, PatchOf;
    var s := RunOf(stops, maxBytes, maxSteps);
    RunIsNamed(stops, maxBytes, maxSteps);
    CloseStep(stops, maxBytes, maxSteps);
    if last.Some? && !s.done && Patchable(s) && |s.wires| < maxSteps {
      SoundReg(s);
      PatchKeepsIds(s, last.value.0, last.value.1);
    }
  }

  // ---- one id, one object ------------------------------------------------------------------------

  /** Box `r` of step `i` was drawn from `v`, in its snapshot or with the value returned to it. */
  ghost predicate DrawnAs(s: Run, i: nat, r: Id, v: GValue)
    requires i < |s.shots|
  {
    || (r in s.shots[i].e.h.origin && s.shots[i].e.h.origin[r].0 == v)
    || exists j :: 0 <= j < |s.patches| && s.patches[j].at == i
                   && r in s.patches[j].note.e.h.origin && s.patches[j].note.e.h.origin[r].0 == v
  }

  lemma NameOf(h: HeapState, names: map<Id, Key>, r: Id)
    requires NamesUsed(h) && SameNames(h.names, names) && r in h.origin
    ensures var k := KeyOf(h.origin[r].0);
            k.Some? && k.value in h.used && k.value in h.ids && h.ids[k.value] == r && r in names && names[r] == k.value
  {
    hide KeyOf;
  }

  lemma DrawnIsNamed(s: Run, i: nat, r: Id, v: GValue)
    requires KeepsIds(s) && i < |s.shots| && DrawnAs(s, i, r, v)
    ensures r in s.reg.names && KeyOf(v) == Some(s.reg.names[r])
  {
    hide KeyOf, NamesUsed, SameNames, Continues, SameOrNew, RegOk;
    if r in s.shots[i].e.h.origin && s.shots[i].e.h.origin[r].0 == v {
      assert ShotNamed(s, s.shots[i]);
      NameOf(s.shots[i].e.h, s.reg.names, r);
    } else {
      var j :| 0 <= j < |s.patches| && s.patches[j].at == i
               && r in s.patches[j].note.e.h.origin && s.patches[j].note.e.h.origin[r].0 == v;
      assert PatchNamed(s, s.patches[j]);
      NameOf(s.patches[j].note.e.h, s.reg.names, r);
    }
  }

  /** A box of a recorded step is of its snapshot, or was added to it with a returned value. */
  lemma BoxOf(s: Run, stops: seq<StopAt>, last: Option<(GValue, Memory)>, maxSteps: nat, i: nat, r: Id)
    requires StandsFor(s, stops, last, maxSteps) && KeepsIds(s) && i < |s.heaps| && r in s.heaps[i]
    ensures r in s.shots[i].e.h.origin
            || exists j :: 0 <= j < |s.patches| && s.patches[j].at == i && r in s.patches[j].note.e.h.origin
    ensures r in s.shots[i].e.h.origin <==> r in s.shots[i].boxes
  {
    hide NamesUsed, SameNames, Continues, SameOrNew, RegOk, MadeWith, TakenAt, ReturnedTo, TakesValue;
    assert ShotNamed(s, s.shots[i]);
    if r !in s.shots[i].boxes {
      var j :| 0 <= j < |s.patches| && s.patches[j].at == i;
      assert PatchTied(s, s.patches[j], stops, last) && PatchNamed(s, s.patches[j]);
      assert r in AddedBy(s.patches[j]);
    }
  }

  /** Over every run each box of each recorded step, patched ones included, was drawn from some value ... */
  lemma EveryBoxIsDrawn(stops: seq<StopAt>, maxBytes: nat, maxSteps: nat, last: Option<(GValue, Memory)>, i: nat, r: Id)
      returns (v: GValue)
    requires var s := Closed(RunOf(stops, maxBytes, maxSteps), last, maxSteps); i < |s.heaps| && r in s.heaps[i]
    ensures var s := Closed(RunOf(stops, maxBytes, maxSteps), last, maxSteps); i < |s.shots| && DrawnAs(s, i, r, v)
  {
    hide RunOf, Closed, KeepsIds, StandsFor;
    var s := Closed(RunOf(stops, maxBytes, maxSteps), last, maxSteps);
    RunStandsForStops(stops, maxBytes, maxSteps, last);
    RunKeepsIds(stops, maxBytes, maxSteps, last);
    SameLength(s, stops, last, maxSteps);
    BoxOf(s, stops, last, maxSteps, i, r);
    if r in s.shots[i].e.h.origin {
      v := s.shots[i].e.h.origin[r].0;
    } else {
      var j :| 0 <= j < |s.patches| && s.patches[j].at == i && r in s.patches[j].note.e.h.origin;
      v := s.patches[j].note.e.h.origin[r].0;
    }
  }

  lemma SameLength(s: Run, stops: seq<StopAt>, last: Option<(GValue, Memory)>, maxSteps: nat)
    requires StandsFor(s, stops, last, maxSteps)
    ensures |s.heaps| == |s.shots|
  {
  }

  /** ... and boxes with one id, at any two steps, were drawn from values with one key: for structs
      and arrays that is one kind, type and address. */
  lemma IdNamesOneKey(stops: seq<StopAt>, maxBytes: nat, maxSteps: nat, last: Option<(GValue, Memory)>,
                      i: nat, j: nat, r: Id, v: GValue, w: GValue)
    requires var s := Closed(RunOf(stops, maxBytes, maxSteps), last, maxSteps);
             i < |s.shots| && j < |s.shots| && DrawnAs(s, i, r, v) && DrawnAs(s, j, r, w)
    ensures KeyOf(v).Some? && KeyOf(v) == KeyOf(w)
    ensures v.Struct? || v.Array? ==> (v.Struct? <==> w.Struct?) && v.addr == w.addr && v.ty == w.ty
  {
    hide RunOf, Closed, KeepsIds, KeyOf, DrawnAs;
    var s := Closed(RunOf(stops, maxBytes, maxSteps), last, maxSteps);
    RunKeepsIds(stops, maxBytes, maxSteps, last);
    DrawnIsNamed(s, i, r, v);
    DrawnIsNamed(s, j, r, w);
    if v.Struct? || v.Array? {
      AggregatesSharingABox(v, w);
    }
  }

  // ---- one object, one id ------------------------------------------------------------------------

  /** Two ids of one key. */
  ghost predicate SameObject(s: Run, r: Id, q: Id) {
    r in s.reg.names && q in s.reg.names && s.reg.names[r] == s.reg.names[q]
  }

  /** When a value was added to step `at`, the object of `r` was registered under that id. */
  ghost predicate Remembered(p: Patch, k: Key, r: Id) {
    k in p.reg.ids && p.reg.ids[k] == r
  }

  /** What the snapshot of a step draws has the id it has anywhere in the step before. */
  lemma SnapshotKeepsId(s: Run, stops: seq<StopAt>, last: Option<(GValue, Memory)>, maxSteps: nat, i: nat,
                        r: Id, q: Id)
    requires StandsFor(s, stops, last, maxSteps) && KeepsIds(s) && i + 1 < |s.heaps| && SameObject(s, r, q)
    requires r in s.heaps[i] && q in s.shots[i + 1].boxes
    ensures r == q
  {
    hide KeyOf, NamesUsed, SameNames, StandsFor, PatchNamed, KeepsIds, Continues;
    SameLength(s, stops, last, maxSteps);
    NextIsNamed(s, i, q);
    BoxOf(s, stops, last, maxSteps, i, r);
    if r in s.shots[i].e.h.origin {
      ShownIsNamed(s, i, r);
    } else {
      var j :| 0 <= j < |s.patches| && s.patches[j].at == i && r in s.patches[j].note.e.h.origin;
      PatchIsNamedAs(s, j, r);
      PatchedThenShown(s.patches[j], s.shots[i + 1].e.h, s.reg.names[r], r, q);
    }
  }

  lemma NextIsNamed(s: Run, i: nat, q: Id)
    requires KeepsIds(s) && i + 1 < |s.shots| && q in s.shots[i + 1].boxes && q in s.reg.names
    ensures var next := s.shots[i + 1].e.h; var k := s.reg.names[q];
            && k in next.used && k in next.ids && next.ids[k] == q && Continues(s.shots[i].e.h, next)
  {
    hide KeyOf, NamesUsed, SameNames, PatchNamed, Continues;
    assert ShotNamed(s, s.shots[i + 1]);
    NameOf(s.shots[i + 1].e.h, s.reg.names, q);
  }

  lemma ShownIsNamed(s: Run, i: nat, r: Id)
    requires KeepsIds(s) && i + 1 < |s.shots| && r in s.shots[i].e.h.origin && r in s.reg.names
    requires s.reg.names[r] in s.shots[i + 1].e.h.ids
    ensures s.shots[i + 1].e.h.ids[s.reg.names[r]] == r
  {
    hide KeyOf, NamesUsed, SameNames, PatchNamed;
    assert ShotNamed(s, s.shots[i]);
    NameOf(s.shots[i].e.h, s.reg.names, r);
    assert Continues(s.shots[i].e.h, s.shots[i + 1].e.h);
  }

  lemma PatchIsNamedAs(s: Run, j: nat, r: Id)
    requires KeepsIds(s) && j < |s.patches| && r in s.patches[j].note.e.h.origin && r in s.reg.names
    ensures var p := s.patches[j]; var k := s.reg.names[r];
            && k in p.note.e.h.ids && p.note.e.h.ids[k] == r
            && SameOrNew(p.reg.ids, p.note.e.h.ids, p.reg.counter)
            && (p.at + 1 < |s.shots| ==> p.reg == Pruned(s.shots[p.at + 1].e.h))
  {
    hide KeyOf, NamesUsed, SameNames, ShotNamed, Continues, SameOrNew, AddedBy;
    assert PatchNamed(s, s.patches[j]);
    NameOf(s.patches[j].note.e.h, s.reg.names, r);
  }

  lemma PatchedThenShown(p: Patch, next: HeapState, k: Key, r: Id, q: Id)
    requires p.reg == Pruned(next) && k in next.used && k in next.ids && next.ids[k] == q
    requires k in p.note.e.h.ids && p.note.e.h.ids[k] == r && SameOrNew(p.reg.ids, p.note.e.h.ids, p.reg.counter)
    ensures r == q
  {
  }

  /** What a returned value adds to a step has the id it has in any earlier step if and only if the
      object was registered under that id when the value was drawn. */
  lemma PatchKeepsIdIff(s: Run, j: nat, i: nat, r: Id, q: Id)
    requires KeepsIds(s) && j < |s.patches| && i < s.patches[j].at && i < |s.heaps| && SameObject(s, r, q)
    requires r in s.heaps[i] && q in AddedBy(s.patches[j])
    ensures r == q <==> Remembered(s.patches[j], s.reg.names[r], r)
  {
    hide KeyOf, NamesUsed, Continues, AddedBy, ShotNamed;
    var p, k := s.patches[j], s.reg.names[r];
    assert PatchNamed(s, p);
    NameOf(p.note.e.h, s.reg.names, q);
    assert r in p.reg.names && p.reg.names[r] == k;
  }

  /** The id of a box of the step before comes back with a returned value exactly when the step
      deletes it, so that the consumer does not see it. */
  lemma IdComesBackIffLost(s: Run, j: nat, q: Id)
    requires KeepsIds(s) && j < |s.patches| && q in AddedBy(s.patches[j]) && s.patches[j].at > 0
    ensures var p := s.patches[j]; p.at < |s.heaps| && (q in s.heaps[p.at - 1] <==> q in LostBy(p))
  {
    hide NamesUsed, SameNames, Continues, ShotNamed, RegOk, SameOrNew;
    var p := s.patches[j];
    assert PatchNamed(s, p);
    DeletedByEncode(s.heaps[p.at - 1], p.before);
  }

  lemma DeletedByEncode(prev: Boxes, cur: Boxes)
    ensures DelOf(Encode(Some(prev), cur)) == Gone(prev, cur)
  {
  }

  /** Over every run, for all boxes of two consecutive recorded steps: an object has one id in both
      if and only if the second step's snapshot draws it, or the value added to that step was drawn
      while the object was registered under its first id; and in that last case its box is lost. */
  lemma KeepsItsIdIff(stops: seq<StopAt>, maxBytes: nat, maxSteps: nat, last: Option<(GValue, Memory)>,
                      i: nat, r: Id, q: Id)
    requires var s := Closed(RunOf(stops, maxBytes, maxSteps), last, maxSteps);
             i + 1 < |s.heaps| && r in s.heaps[i] && q in s.heaps[i + 1] && SameObject(s, r, q)
    ensures var s := Closed(RunOf(stops, maxBytes, maxSteps), last, maxSteps);
            && i + 1 < |s.shots|
            && (q in s.shots[i + 1].boxes ==> r == q)
            && (forall j | 0 <= j < |s.patches| && s.patches[j].at == i + 1 && q !in s.shots[i + 1].boxes ::
                  && q in AddedBy(s.patches[j])
                  && (r == q <==> Remembered(s.patches[j], s.reg.names[r], r))
                  && (r == q ==> r in LostBy(s.patches[j]))
                  && (i + 2 < |s.shots| ==> s.patches[j].reg == Pruned(s.shots[i + 2].e.h)))
            && (q in s.shots[i + 1].boxes || PatchedAt(s, i + 1))
  {
    hide RunOf, Closed, KeepsIds, StandsFor, Remembered, LostBy, PatchedAt;
    var s := Closed(RunOf(stops, maxBytes, maxSteps), last, maxSteps);
    RunStandsForStops(stops, maxBytes, maxSteps, last);
    RunKeepsIds(stops, maxBytes, maxSteps, last);
    SameLength(s, stops, last, maxSteps);
    if q in s.shots[i + 1].boxes {
      SnapshotKeepsId(s, stops, last, maxSteps, i, r, q);
    } else {
      assert PatchedAt(s, i + 1) by {
        OnlyPatched(s, stops, last, maxSteps, i + 1, q);
      }
      forall j | 0 <= j < |s.patches| && s.patches[j].at == i + 1
        ensures q in AddedBy(s.patches[j])
        ensures r == q <==> Remembered(s.patches[j], s.reg.names[r], r)
        ensures r == q ==> r in LostBy(s.patches[j])
        ensures i + 2 < |s.shots| ==> s.patches[j].reg == Pruned(s.shots[i + 2].e.h)
      {
        if i + 2 < |s.shots| {
          MadeAfterShot(s, j);
        }
        AddedThere(s, stops, last, maxSteps, j, q);
        PatchKeepsIdIff(s, j, i, r, q);
        IdComesBackIffLost(s, j, q);
      }
    }
  }

  lemma MadeAfterShot(s: Run, j: nat)
    requires KeepsIds(s) && j < |s.patches| && s.patches[j].at + 1 < |s.shots|
    ensures s.patches[j].reg == Pruned(s.shots[s.patches[j].at + 1].e.h)
  {
    hide NamesUsed, SameNames, Continues, ShotNamed, RegOk, SameOrNew, AddedBy;
    assert PatchNamed(s, s.patches[j]);
  }

  lemma OnlyPatched(s: Run, stops: seq<StopAt>, last: Option<(GValue, Memory)>, maxSteps: nat, i: nat, q: Id)
    requires StandsFor(s, stops, last, maxSteps) && i < |s.heaps| && q in s.heaps[i] && q !in s.shots[i].boxes
    ensures PatchedAt(s, i)
  {
    hide PatchTied, TakenAt, TakesValue, PatchedAt;
  }

  lemma AddedThere(s: Run, stops: seq<StopAt>, last: Option<(GValue, Memory)>, maxSteps: nat, j: nat, q: Id)
    requires StandsFor(s, stops, last, maxSteps) && j < |s.patches| && s.patches[j].at < |s.heaps|
    requires q in s.heaps[s.patches[j].at] && q !in s.shots[s.patches[j].at].boxes
    ensures q in AddedBy(s.patches[j])
  {
    hide TakenAt, TakesValue, PatchedAt, MadeWith, ReturnedTo;
    assert PatchTied(s, s.patches[j], stops, last);
  }
}
