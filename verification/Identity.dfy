/**
  Ids and keys: what the registry keeps across a snapshot and across a returned value.
 */
module Identity {
  import opened HeapDelta
  import opened GdbHeap
  import opened Pointers
  import opened Patching
  import opened Driver
  import opened Drawings

  // ---- names and ids ------------------------------------------------------------------------

  /** An id once handed out names the same key for ever. */
  ghost predicate SameNames(names: map<Id, Key>, later: map<Id, Key>) {
    names.Keys <= later.Keys && forall r | r in names && r in later :: later[r] == names[r]
  }

  /** A registered key keeps its id; any other gets one newer than all before. */
  ghost predicate SameOrNew(ids: map<Key, Id>, later: map<Key, Id>, counter: Id) {
    forall k | k in later :: if k in ids then later[k] == ids[k] else later[k] > counter
  }

  lemma NamesTransitive(a: map<Id, Key>, b: map<Id, Key>, c: map<Id, Key>)
    requires SameNames(a, b) && SameNames(b, c)
    ensures SameNames(a, c)
  {
  }

  lemma KeptKeys(g: HeapState, h: HeapState)
    requires Keeps(g, h)
    ensures SameOrNew(g.ids, h.ids, g.counter) && g.ids.Keys <= h.ids.Keys
    ensures g.counter <= h.counter && SameNames(g.names, h.names)
  {
  }

  /** Every box drawn in this step belongs to a key used in it. */
  lemma BoxKey(h: HeapState, r: Id) returns (k: Key)
    requires RegistryOk(h.ids, h.counter, h.names) && UsedOk(h) && r in h.origin
    ensures k in h.used && k in h.ids && h.ids[k] == r && r in h.names && r !in h.base
  {
    assert OriginOk(h, r);
    k := KeyOf(h.origin[r].0).value;
  }

  lemma UsedBoxes(h: HeapState)
    requires UsedOk(h)
    ensures h.boxes.Keys == h.base + h.origin.Keys && h.base <= h.names.Keys && |h.used| <= MAX_HEAP_OBJECTS
    ensures h.used <= h.ids.Keys
    ensures forall k | k in h.used :: h.ids[k] in h.base + h.origin.Keys
  {
    hide OriginOk;
  }

  lemma LinkedKeys(boxes: Boxes, byAddress: map<nat, Id>)
    ensures LinkBoxes(boxes, byAddress).Keys == boxes.Keys && |LinkBoxes(boxes, byAddress)| == |boxes.Keys|
  {
    assert LinkBoxes(boxes, byAddress).Keys == boxes.Keys;
    assert |LinkBoxes(boxes, byAddress)| == |LinkBoxes(boxes, byAddress).Keys|;
  }

  lemma SnapshotKeys(h: HeapState)
    requires RegistryOk(h.ids, h.counter, h.names) && UsedOk(h) && h.base == {}
    ensures Images(Restrict(h.ids, h.used)) == h.boxes.Keys && |h.boxes.Keys| <= MAX_HEAP_OBJECTS
    ensures h.boxes.Keys <= h.names.Keys
  {
    hide OriginOk, RegistryOk;
    var kept := Restrict(h.ids, h.used);
    UsedBoxes(h);
    assert kept.Keys == h.used;
    forall r | r in h.boxes ensures r in Images(kept) && r in h.names {
      var k := BoxKey(h, r);
      assert k in kept && kept[k] == r;
    }
    hide UsedOk;
    ImagesBound(kept, kept.Keys, Images(kept));
  }

  /** What the registry knows after a snapshot: exactly the boxes drawn, each key with the id
      it had if it was registered; and names never change. */
  lemma ShotTies(reg: Reg, left: nat, frames: seq<Frame>, mem: Memory)
    requires RegistryOk(reg.ids, reg.counter, reg.names)
    ensures var shot := Shoot(reg, left, frames, mem); var now := Pruned(shot.e.h);
            && RegistryOk(now.ids, now.counter, now.names) && now.ids.Keys == shot.e.h.used
            && Images(now.ids) == shot.boxes.Keys && |shot.boxes| <= MAX_HEAP_OBJECTS
            && shot.boxes.Keys <= now.names.Keys
            && reg.counter <= now.counter && SameNames(reg.names, now.names) && SameOrNew(reg.ids, now.ids, reg.counter)
  {
    hide Keeps, LinkBoxes, DrawnOk, QueueOk, Shoot, AllResolved, TurnsMet, Rests, Images, SameNames, SameOrNew, UsedOk;
    ShotIsDrawn(reg, left, frames, mem);
    var h := Shoot(reg, left, frames, mem).e.h;
    KeptKeys(StateOf(reg, map[]), h);
    SnapshotKeys(h);
    LinkedKeys(h.boxes, h.byAddress);
    PrunedTies(reg, h);
  }

  lemma PrunedTies(reg: Reg, h: HeapState)
    requires RegistryOk(h.ids, h.counter, h.names) && UsedOk(h) && SameOrNew(reg.ids, h.ids, reg.counter)
    ensures var now := Pruned(h);
            RegistryOk(now.ids, now.counter, now.names) && now.ids.Keys == h.used
            && SameOrNew(reg.ids, now.ids, reg.counter)
  {
    hide OriginOk;
  }

  /** The new boxes are of objects the registry knows since the next snapshot, or newly
      named; and how far the step's own cap can be passed. */
  lemma AnnotateKeys(before: Boxes, reg: Reg, h: HeapState)
    requires Fits(reg, before)
    requires RegistryOk(h.ids, h.counter, h.names) && UsedOk(h) && h.base == before.Keys
    requires Keeps(StateOf(reg, before), h)
    ensures h.boxes.Keys == before.Keys + h.origin.Keys && h.origin.Keys !! before.Keys && h.boxes.Keys <= h.names.Keys
    ensures forall r | r in h.origin :: r > reg.counter || r in Images(reg.ids)
    ensures forall k | k in h.ids :: (k in reg.ids && h.ids[k] == reg.ids[k]) || h.ids[k] in h.origin
    ensures |h.boxes.Keys| + |KeysWithin(reg.ids, before.Keys)| <= |before.Keys| + MAX_HEAP_OBJECTS
  {
    hide OriginOk;
    var known := KeysWithin(reg.ids, before.Keys);
    UsedBoxes(h);
    KeptKeys(StateOf(reg, before), h);
    forall r | r in h.origin
      ensures r !in before && r in h.names && (r > reg.counter || r in Images(reg.ids))
      ensures exists k :: k in h.used - known && h.ids[k] == r
    {
      var k := BoxKey(h, r);
      assert k in h.used - known && h.ids[k] == r;
    }
    NewIdsAreBoxes(reg, before, h);
    assert known <= h.used;
    hide Keeps, RegistryOk;
    NewBoxesBound(h.ids, h.used, known, h.origin.Keys, before.Keys);
  }

  lemma NewIdsAreBoxes(reg: Reg, before: Boxes, h: HeapState)
    requires RegistryOk(reg.ids, reg.counter, reg.names) && before.Keys <= reg.names.Keys
    requires UsedOk(h) && h.base == before.Keys && Keeps(StateOf(reg, before), h)
    ensures forall k | k in h.ids :: (k in reg.ids && h.ids[k] == reg.ids[k]) || h.ids[k] in h.origin
  {
    hide OriginOk;
    forall k | k in h.ids ensures (k in reg.ids && h.ids[k] == reg.ids[k]) || h.ids[k] in h.origin {
      if k !in reg.ids {
        assert k in h.used && h.ids[k] > reg.counter;
        assert h.ids[k] !in before;
      }
    }
  }

  /** What the registry knows after a returned value: every key as before, and the new boxes. */
  lemma NoteTies(reg: Reg, left: nat, before: Boxes, returned: GValue, mem: Memory)
    requires Fits(reg, before)
    ensures var note := Annotated(reg, left, before, returned, mem);
            var now, added := RegOf(note.e.h), Added(before, note.after);
            && RegistryOk(now.ids, now.counter, now.names)
            && before.Keys <= note.after.Keys <= now.names.Keys
            && reg.counter <= now.counter && SameNames(reg.names, now.names) && SameOrNew(reg.ids, now.ids, reg.counter)
            && reg.ids.Keys <= now.ids.Keys
            && (forall r | r in added :: r > reg.counter || r in Images(reg.ids))
            && (forall k | k in now.ids :: (k in reg.ids && now.ids[k] == reg.ids[k]) || now.ids[k] in added)
            && |note.after| + |KeysWithin(reg.ids, before.Keys)| <= |before| + MAX_HEAP_OBJECTS
  {
    hide Keeps, LinkBoxes, DrawnOk, QueueOk, UsedOk, Annotated, AllResolved, TurnsMet, Rests, Images,
         SameNames, SameOrNew, KeysWithin, RegistryOk, SlotSettled, SlotG, LinkSlot, LinkBox;
    NoteIsDrawn(reg, left, before, returned, mem);
    var note := Annotated(reg, left, before, returned, mem);
    var h := note.e.h;
    KeptKeys(StateOf(reg, before), h);
    AnnotateKeys(before, reg, h);
    LinkedKeys(h.boxes, h.byAddress);
    assert Added(before, note.after).Keys == h.origin.Keys;
    assert |before| == |before.Keys|;
  }

  lemma NewBoxesBound(ids: map<Key, Id>, used: set<Key>, known: set<Key>, new_: set<Id>, before: set<Id>)
    requires known <= used <= ids.Keys && forall r | r in new_ :: exists k :: k in used - known && ids[k] == r
    ensures |before + new_| + |known| <= |before| + |used|
  {
    var images := set k | k in used - known :: ids[k];
    ImagesBound(ids, used - known, images);
    assert new_ <= images;
    SubsetSize(new_, images);
    assert used == known + (used - known);
    assert |used| == |known| + |used - known|;
    assert |before + new_| <= |before| + |new_|;
  }

  lemma SmallOverlap(ids: map<Key, Id>, counter: Id, names: map<Id, Key>, base: Boxes)
    requires RegistryOk(ids, counter, names)
    ensures |KeysWithin(ids, base.Keys)| <= |base|
  {
    InjectiveBound(ids, KeysWithin(ids, base.Keys), base.Keys);
    assert |base| == |base.Keys|;
  }
}
