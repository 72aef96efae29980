/**
  What a snapshot draws, and what a returned value adds: theorems about `Shoot` and
  `Annotated` for every registry, memory and value.
 */
module Drawings {
  import opened Options
  import opened GdbHeap
  import opened Pointers
  import opened Patching
  import opened Driver

  lemma StartIsInv(g: HeapState)
    requires RegistryOk(g.ids, g.counter, g.names)
    requires g.base == g.boxes.Keys <= g.names.Keys && g.origin == map[] && g.byAddress == map[]
             && g.pending == [] && g.met == {}
    requires g.used == KeysWithin(g.ids, g.base) && |g.used| <= MAX_HEAP_OBJECTS
    ensures Inv(g, {})
  {
  }

  lemma AddedAllPending(g: HeapState, h: HeapState, mem: Memory)
    requires g.met == {} && Adds(g, h)
    ensures AllResolved(h, mem, [])
  {
  }

  lemma StateIsInv(reg: Reg, boxes: Boxes)
    requires RegistryOk(reg.ids, reg.counter, reg.names) && boxes.Keys <= reg.names.Keys
    requires |KeysWithin(reg.ids, boxes.Keys)| <= MAX_HEAP_OBJECTS
    ensures Inv(StateOf(reg, boxes), {})
  {
    hide Inv;
    StartIsInv(StateOf(reg, boxes));
  }

  lemma EmptyIsInv(reg: Reg)
    requires RegistryOk(reg.ids, reg.counter, reg.names)
    ensures Inv(StateOf(reg, map[]), {}) && StateOf(reg, map[]).base == {} && StateOf(reg, map[]).used == {}
  {
    var none: Boxes := map[];
    assert KeysWithin(reg.ids, none.Keys) == {} && none.Keys == {};
    StateIsInv(reg, none);
    hide Inv;
  }

  // ---- a snapshot draws its frames ---------------------------------------------------------

  /** The expansion ended as it must: whatever was met and no longer waits is resolved, by
      turns of pointers that were met, and something still waits only when a budget is used up. */
  ghost predicate Expanded(e: Expansion, mem: Memory) {
    && Inv(e.h, {}) && AllResolved(e.h, mem, e.turns) && TurnsMet(e) && Rests(e)
    && ReadsExactly(e.read, e.turns, e.known, mem) && ReadsDrawn(e, mem)
    && |e.read| <= MAX_EXPANDED_PER_STEP
    && (e.h.dropped ==> |e.turns| + |e.h.pending| >= MAX_POINTERS)
  }

  ghost predicate FrameSettled(frame: Frame, h: HeapState) {
    FieldsSettled(frame, |frame|, 0, h)
  }

  ghost predicate FrameDrawn(frame: Frame, drawn: map<string, GSlot>, h: HeapState) {
    FrameSettled(frame, h) && drawn == FieldsG(frame, |frame|, 0, h.used, h.ids)
  }

  /** The snapshot of these frames: every variable has its slot, with a box for every
      aggregate part unless the step is full, every pointer met unless the queue was full,
      and what pointers reach drawn and linked. */
  ghost predicate ShotDraws(shot: Shot, frames: seq<Frame>, mem: Memory) {
    var h := shot.e.h;
    && Expanded(shot.e, mem) && h.base == {}
    && shot.boxes == LinkBoxes(h.boxes, h.byAddress)
    && |shot.vars| == |frames|
    && forall i | 0 <= i < |frames| ::
         && FrameSettled(frames[i], h)
         && shot.vars[i] == LinkMap(FieldsG(frames[i], |frames[i]|, 0, h.used, h.ids), h.byAddress)
  }

  lemma FrameStays(frame: Frame, drawn: map<string, GSlot>, g: HeapState, h: HeapState)
    requires FrameDrawn(frame, drawn, g) && Inv(g, {}) && Adds(g, h)
    ensures FrameDrawn(frame, drawn, h)
  {
    hide FieldsSettled, FieldsG, Adds;
    FieldsStay(frame, |frame|, 0, g, h);
  }

  lemma FrameKept(frame: Frame, drawn: map<string, GSlot>, g: HeapState, h: HeapState)
    requires FrameDrawn(frame, drawn, g) && Inv(g, {}) && Keeps(g, h)
    ensures FrameDrawn(frame, drawn, h)
  {
    hide FieldsSettled, FieldsG, UsedOk, RegistryOk, DrawnOk;
    var h' := h.(pending := g.pending, met := g.met, dropped := g.dropped);
    assert Adds(g, h') && FrameDrawn(frame, drawn, h') by {
      assert Adds(g, h');
      FieldsStay(frame, |frame|, 0, g, h');
    }
    MoreMetSettled(frame, |frame|, h', h);
  }

  lemma MoreMetSettled(frame: Frame, n: nat, g: HeapState, h: HeapState)
    requires FieldsSettled(frame, n, 0, g) && h.used == g.used && g.met <= h.met && (g.dropped ==> h.dropped)
    ensures FieldsSettled(frame, n, 0, h)
  {
  }

  lemma AddsAreKept(g: HeapState, h: HeapState)
    requires Adds(g, h)
    ensures Keeps(g, h)
  {
  }

  lemma {:induction false} FramesDrawn(frames: seq<Frame>, n: nat, g: HeapState)
    requires n <= |frames| && Inv(g, {})
    ensures var (h, vars) := AfterFrames(frames, n, g);
            && Inv(h, {}) && Adds(g, h) && |vars| == n
            && forall i | 0 <= i < n :: FrameDrawn(frames[i], vars[i], h)
  {
    hide Inv, Adds, FieldsSettled, FieldsG, AfterFields;
    AddsReflexive(g, {});
    if n > 0 {
      var (h, vars) := AfterFrames(frames, n - 1, g);
      FramesDrawn(frames, n - 1, g);
      var f := frames[n - 1];
      FieldsDrawn(Struct(None, "", f), f, |f|, 0, h, {});
      var (h', _) := AfterFrames(frames, n, g);
      AddsTransitive(g, h, h');
      forall i | 0 <= i < n - 1 ensures FrameDrawn(frames[i], vars[i], h') {
        FrameStays(frames[i], vars[i], h, h');
      }
    }
  }

  lemma ShotIsDrawn(reg: Reg, left: nat, frames: seq<Frame>, mem: Memory)
    requires RegistryOk(reg.ids, reg.counter, reg.names)
    ensures var shot := Shoot(reg, left, frames, mem);
            && ShotDraws(shot, frames, mem) && Keeps(StateOf(reg, map[]), shot.e.h)
            && shot.e.left + |shot.e.read| == left
  {
    hide Inv, Adds, Keeps, FieldsSettled, FieldsG, AllResolved, ReadOk, AfterFrames, Expand, LinkMap,
         ReadsExactly, ReadsDrawn, LinkBoxes, TurnsMet, Rests, FrameSettled, KeysWithin;
    var g := StateOf(reg, map[]);
    EmptyIsInv(reg);
    FramesDrawn(frames, |frames|, g);
    var (h, vars) := AfterFrames(frames, |frames|, g);
    AddedAllPending(g, h, mem);
    ExpansionResolves(h, left, mem);
    var e := AfterExpansion(h, left, mem);
    AddsAreKept(g, h);
    KeepsTransitive(g, h, e.h);
    DropsOnlyWhenFull(g, h, e);
    SameBase(g, e.h);
    forall i | 0 <= i < |frames| ensures FrameDrawn(frames[i], vars[i], e.h) {
      FrameKept(frames[i], vars[i], h, e.h);
    }
  }

  lemma SameBase(g: HeapState, h: HeapState)
    requires Keeps(g, h)
    ensures h.base == g.base
  {
  }

  lemma DropsOnlyWhenFull(g: HeapState, h: HeapState, e: Expansion)
    requires !g.dropped && Adds(g, h) && DropsWhenFull(e, h)
    requires h.pending <= Queue(e)
    ensures e.h.dropped ==> |e.turns| + |e.h.pending| >= MAX_POINTERS
  {
  }

  /** Nothing is dropped and no budget used up: an address left in a box or in a variable is nil,
      or the first pointer to it does not lead to something drawable; and what only pointers to
      something drawable reach has its box. */
  lemma ShotIsWhole(reg: Reg, left: nat, frames: seq<Frame>, mem: Memory, t: nat)
    requires RegistryOk(reg.ids, reg.counter, reg.names)
    requires Unhindered(Shoot(reg, left, frames, mem).e.h)
    ensures var shot := Shoot(reg, left, frames, mem); var h := shot.e.h;
            && (forall r | r in shot.boxes && ShowsPointer(shot.boxes[r], t) :: Bare(h, mem, shot.e.turns, t))
            && (forall i, k | 0 <= i < |frames| && k in shot.vars[i] && shot.vars[i][k] == PtrSlot(t) ::
                  Bare(h, mem, shot.e.turns, t))
            && (t != 0 && MetPointer(h, t) && (forall p | p in h.met && LeadsTo(p, t) :: Drawable(mem, p)) ==>
                  t in h.byAddress && h.byAddress[t] in shot.boxes)
  {
    hide Inv, AllResolved, Bare, ShowsPointer, FieldsG, LinkMap, LinkBox, Shoot, Drawable, Unhindered, Keeps,
         MetPointer;
    ShotIsDrawn(reg, left, frames, mem);
    var shot := Shoot(reg, left, frames, mem);
    var h, turns := shot.e.h, shot.e.turns;
    forall r | r in shot.boxes && ShowsPointer(shot.boxes[r], t) ensures Bare(h, mem, turns, t) {
      OwnBoxes(h);
      WholeStructureDrawn(h, mem, turns, r, t);
    }
    forall i, k | 0 <= i < |frames| && k in shot.vars[i] && shot.vars[i][k] == PtrSlot(t)
      ensures Bare(h, mem, turns, t)
    {
      FrameVariablesDrawn(h, mem, turns, frames[i], k, t);
    }
    if t != 0 && MetPointer(h, t) && forall p | p in h.met && LeadsTo(p, t) :: Drawable(mem, p) {
      TypedPointersAreDrawn(h, mem, turns, t);
    }
  }

  lemma OwnBoxes(h: HeapState)
    requires Inv(h, {}) && h.base == {}
    ensures h.boxes.Keys == h.origin.Keys
  {
    hide DrawnOk, OriginOk, QueueOk, RegistryOk;
  }

  // ---- a returned value is drawn into the heap of an earlier step -------------------------

  /** The value has its slot, its parts are drawn as in a snapshot, and the boxes that were
      there are changed only by linking. */
  ghost predicate NoteDraws(note: Note, before: Boxes, returned: GValue, mem: Memory) {
    var h := note.e.h;
    && Expanded(note.e, mem) && h.base == before.Keys
    && SlotSettled(returned, 0, h) && note.slot == LinkSlot(SlotG(returned, 0, h.used, h.ids), h.byAddress)
    && note.after == LinkBoxes(h.boxes, h.byAddress)
    && forall r | r in before :: r in note.after && note.after[r] == LinkBox(before[r], h.byAddress)
  }

  /** The registry knows the names of the boxes, and not too many of them. */
  ghost predicate Fits(reg: Reg, before: Boxes) {
    && RegistryOk(reg.ids, reg.counter, reg.names) && before.Keys <= reg.names.Keys
    && |KeysWithin(reg.ids, before.Keys)| <= MAX_HEAP_OBJECTS
  }

  lemma NoteIsDrawn(reg: Reg, left: nat, before: Boxes, returned: GValue, mem: Memory)
    requires Fits(reg, before)
    ensures var note := Annotated(reg, left, before, returned, mem);
            && NoteDraws(note, before, returned, mem) && Keeps(StateOf(reg, before), note.e.h)
            && note.e.left + |note.e.read| == left
  {
    hide Inv, Adds, Keeps, AllResolved, ReadOk, Expand, LinkBox, TurnsMet, Rests, SlotSettled, SlotG,
         ReadsExactly, ReadsDrawn, AfterValue, KeysWithin;
    var g := StateOf(reg, before);
    StateIsInv(reg, before);
    ValueDrawn(returned, 0, g, {});
    var (h, slot) := AfterValue(returned, 0, g);
    AddedAllPending(g, h, mem);
    ExpansionResolves(h, left, mem);
    var e := AfterExpansion(h, left, mem);
    AddsAreKept(g, h);
    KeepsTransitive(g, h, e.h);
    DropsOnlyWhenFull(g, h, e);
    SlotKept(returned, h, e.h);
    OldBoxesKept(g, e.h);
  }

  lemma OldBoxesKept(g: HeapState, h: HeapState)
    requires Keeps(g, h)
    ensures h.base == g.base && forall r | r in g.boxes :: r in h.boxes && h.boxes[r] == g.boxes[r]
  {
  }

  lemma SlotKept(v: GValue, g: HeapState, h: HeapState)
    requires SlotSettled(v, 0, g) && Inv(g, {}) && Keeps(g, h)
    ensures SlotSettled(v, 0, h) && SlotG(v, 0, g.used, g.ids) == SlotG(v, 0, h.used, h.ids)
  {
    hide DrawnOk, OriginOk;
  }
}
