/**
  When a step can take a returned value, decided before anything is drawn: whatever is returned,
  the patched step still decodes to its heap, exactly when no object that the step deletes is
  still registered and every box that shows an address was sent by the step itself.
 */
module SafePatches {
  import opened Options
  import opened HeapDelta
  import opened GdbHeap
  import opened Pointers
  import opened Patching
  import opened Driver
  import opened Drawings
  import opened Identity
  import opened Returned
  import opened Links

  /** Unless the step is full, no value shows an object whose box the step deletes and whose id
      is still in use. */
  ghost predicate DeletesForgotten(reg: Reg, w: Wire<GBox>, before: Boxes) {
    |Known(reg, before)| < MAX_HEAP_OBJECTS ==>
      forall v | KeyOf(v).Some? && KeyOf(v).value in reg.ids && reg.ids[KeyOf(v).value] in DelOf(w) ::
        reg.ids[KeyOf(v).value] in before
  }

  /** Some value can be recorded at this address: any, unless the step is full; then only one
      whose box is already there. */
  ghost predicate CanBeRecorded(reg: Reg, before: Boxes, t: nat) {
    |Known(reg, before)| < MAX_HEAP_OBJECTS
    || exists v :: KeyOf(v).Some? && KeyOf(v).value in Known(reg, before) && SelfAddr(v) == t
  }

  /** The boxes that linking can still change were sent by the step. */
  ghost predicate OpenBoxesSent(reg: Reg, w: Wire<GBox>, before: Boxes) {
    forall r, t | r in before && t != 0 && ShowsPointer(before[r], t) && CanBeRecorded(reg, before, t) :: r in SentBy(w)
  }

  // ---- what a returned value records ---------------------------------------------------------

  lemma ReturnedIsMarked(reg: Reg, left: nat, before: Boxes, returned: GValue, mem: Memory)
    requires Fits(reg, before) && KeyOf(returned).Some?
    requires |Known(reg, before)| < MAX_HEAP_OBJECTS || KeyOf(returned).value in Known(reg, before)
    ensures SelfAddr(returned) != 0 ==> SelfAddr(returned) in Annotated(reg, left, before, returned, mem).e.h.byAddress
  {
    hide Inv, AfterValue, KeyOf, Keeps, AllResolved, ReadOk, Expand, TurnsMet, Rests, DropsWhenFull, Queue,
         KeysWithin, SlotSettled, SlotG, SelfAddr, Adds, ReadsExactly, ReadsDrawn;
    var g := StateOf(reg, before);
    StateIsInv(reg, before);
    if |Known(reg, before)| < MAX_HEAP_OBJECTS {
      FirstKeyUsed(returned, 0, g, {});
    }
    ValueDrawn(returned, 0, g, {});
    var (h, slot) := AfterValue(returned, 0, g);
    assert KeyOf(returned).value in h.used by {
      if KeyOf(returned).value in g.used {
        StillUsed(g, h, KeyOf(returned).value);
      }
    }
    UsedHaveIds(h);
    SlotOfKey(returned, KeyOf(returned).value, 0, h);
    AddedAllPending(g, h, mem);
    ExpansionResolves(h, left, mem);
    KeptAddresses(h, AfterExpansion(h, left, mem).h);
  }

  lemma KeptAddresses(g: HeapState, h: HeapState)
    requires Keeps(g, h)
    ensures g.byAddress.Keys <= h.byAddress.Keys
  {
  }

  // ---- both directions ------------------------------------------------------------------------

  /** A registered object that the step deletes: returning it loses its box. */
  lemma DeletedIsLost(reg: Reg, left: nat, w: Wire<GBox>, before: Boxes, v: GValue)
    requires Fits(reg, before) && |Known(reg, before)| < MAX_HEAP_OBJECTS
    requires KeyOf(v).Some? && KeyOf(v).value in reg.ids
    requires reg.ids[KeyOf(v).value] in DelOf(w) && reg.ids[KeyOf(v).value] !in before
    ensures !PatchSafe(w, before, Annotated(reg, left, before, v, map[]).after)
  {
    hide Annotated, KeyOf, DelOf, SentBy, Added, Inv;
    var note := Annotated(reg, left, before, v, map[]);
    var k := KeyOf(v).value;
    ReturnedIsUsed(reg, left, before, v, map[]);
    NewKeys(reg, left, before, v, map[]);
    NoteTies(reg, left, before, v, map[]);
    assert note.e.h.ids[k] == reg.ids[k];
    assert reg.ids[k] in Added(before, note.after);
  }

  /** A box that shows an address and was not sent: returning what lives there leaves it stale. */
  lemma OpenBoxIsStale(reg: Reg, left: nat, w: Wire<GBox>, before: Boxes, r: Id, v: GValue)
    requires Fits(reg, before) && KeyOf(v).Some? && SelfAddr(v) != 0
    requires |Known(reg, before)| < MAX_HEAP_OBJECTS || KeyOf(v).value in Known(reg, before)
    requires r in before && ShowsPointer(before[r], SelfAddr(v)) && r !in SentBy(w)
    ensures !PatchSafe(w, before, Annotated(reg, left, before, v, map[]).after)
  {
    hide Annotated, DelOf, SentBy, Added, ShowsPointer, Expanded, LinkBox, LinkBoxes, SlotSettled, Keeps,
         KeyOf, SelfAddr;
    var note := Annotated(reg, left, before, v, map[]);
    ReturnedIsMarked(reg, left, before, v, map[]);
    NoteIsDrawn(reg, left, before, v, map[]);
    LinkingChanges(before[r], note.e.h.byAddress, SelfAddr(v));
  }

  lemma StaleWitness(reg: Reg, left: nat, w: Wire<GBox>, before: Boxes) returns (v: GValue)
    requires Fits(reg, before) && !OpenBoxesSent(reg, w, before)
    ensures !PatchSafe(w, before, Annotated(reg, left, before, v, map[]).after)
  {
    hide Annotated, SentBy, ShowsPointer, Known, PatchSafe, Fits;
    var r, t :| r in before && t != 0 && ShowsPointer(before[r], t) && CanBeRecorded(reg, before, t) && r !in SentBy(w);
    if |Known(reg, before)| < MAX_HEAP_OBJECTS {
      v := Struct(Some(t), "", []);
    } else {
      v :| KeyOf(v).Some? && KeyOf(v).value in Known(reg, before) && SelfAddr(v) == t;
    }
    OpenBoxIsStale(reg, left, w, before, r, v);
  }

  lemma NothingLost(reg: Reg, left: nat, w: Wire<GBox>, before: Boxes, returned: GValue, mem: Memory)
    requires Fits(reg, before) && DeletesForgotten(reg, w, before) && forall r | r in DelOf(w) :: r <= reg.counter
    ensures Added(before, Annotated(reg, left, before, returned, mem).after).Keys !! DelOf(w)
  {
    hide Annotated, KeyOf, DelOf, Added, DrawnOk, QueueOk;
    var note := Annotated(reg, left, before, returned, mem);
    var h := note.e.h;
    NewKeys(reg, left, before, returned, mem);
    NoteTies(reg, left, before, returned, mem);
    if |Known(reg, before)| >= MAX_HEAP_OBJECTS {
      FullIsFull(Known(reg, before), h.used);
    }
    forall r | r in Added(before, note.after) ensures r !in DelOf(w) {
      assert OriginOk(h, r);
      var v := h.origin[r].0;
      assert KeyOf(v).value in h.ids && h.ids[KeyOf(v).value] == r && r !in before;
    }
  }

  lemma FullIsFull(known: set<Key>, used: set<Key>)
    requires known <= used && |used| <= MAX_HEAP_OBJECTS <= |known|
    ensures used == known
  {
    assert used == known + (used - known);
    assert |used| == |known| + |used - known|;
  }

  /** An address that a returned value recorded can be recorded. */
  lemma RecordedCanBe(reg: Reg, left: nat, before: Boxes, returned: GValue, mem: Memory, t: nat)
    requires Fits(reg, before) && t in Annotated(reg, left, before, returned, mem).e.h.byAddress
    ensures CanBeRecorded(reg, before, t)
  {
    hide Annotated, Visits, ReadVisits, KeyOf, SelfAddr, Fits, Inv, KeysWithin;
    var h := Annotated(reg, left, before, returned, mem).e.h;
    var read := Annotated(reg, left, before, returned, mem).e.read;
    NoteFollows(reg, left, before, returned, mem);
    NewKeys(reg, left, before, returned, mem);
    var first := Visits(returned, 0, KeysWithin(reg.ids, before.Keys));
    var visits := first.0 + ReadVisits(read, mem, first.1).0;
    VisitsMet(returned, 0, KeysWithin(reg.ids, before.Keys), Everywhere());
    ReadVisitsMet(read, mem, first.1, Everywhere());
    ResidentIs(visits, t);
    if |Known(reg, before)| >= MAX_HEAP_OBJECTS {
      FullIsFull(Known(reg, before), h.used);
      var v := Resident(visits, t).value.0;
      assert KeyOf(v).value in Known(reg, before) && SelfAddr(v) == t;
    }
  }

  lemma NothingStale(reg: Reg, left: nat, w: Wire<GBox>, before: Boxes, returned: GValue, mem: Memory)
    requires Fits(reg, before) && OpenBoxesSent(reg, w, before)
    ensures var after := Annotated(reg, left, before, returned, mem).after;
            forall r | r in before && r in after && before[r] != after[r] :: r in SentBy(w)
  {
    hide Annotated, SentBy, ShowsPointer, Expanded, LinkBox, LinkBoxes, SlotSettled, Keeps, SlotG, CanBeRecorded;
    var note := Annotated(reg, left, before, returned, mem);
    NoteIsDrawn(reg, left, before, returned, mem);
    forall r | r in before && r in note.after && before[r] != note.after[r] ensures r in SentBy(w) {
      var t := ChangedShows(before[r], note.e.h.byAddress);
      RecordedCanBe(reg, left, before, returned, mem, t);
    }
  }

  /** Whatever the next call returns, the patched step decodes to its heap, if and only if these
      two conditions hold of the step before the value is drawn. */
  lemma AlwaysSafeIff(reg: Reg, left: nat, w: Wire<GBox>, before: Boxes)
    requires Fits(reg, before) && forall r | r in DelOf(w) :: r <= reg.counter
    ensures (forall returned, mem :: PatchSafe(w, before, Annotated(reg, left, before, returned, mem).after))
       <==> DeletesForgotten(reg, w, before) && OpenBoxesSent(reg, w, before)
  {
    hide Annotated, KeyOf, DelOf, SentBy, Added, ShowsPointer, Known, Fits, OpenBoxesSent, PatchSafe;
    if DeletesForgotten(reg, w, before) && OpenBoxesSent(reg, w, before) {
      forall returned, mem ensures PatchSafe(w, before, Annotated(reg, left, before, returned, mem).after) {
        NothingLost(reg, left, w, before, returned, mem);
        NothingStale(reg, left, w, before, returned, mem);
        SafeBecause(w, before, Annotated(reg, left, before, returned, mem).after);
      }
    }
    if !DeletesForgotten(reg, w, before) {
      var v :| KeyOf(v).Some? && KeyOf(v).value in reg.ids && reg.ids[KeyOf(v).value] in DelOf(w)
               && reg.ids[KeyOf(v).value] !in before;
      DeletedIsLost(reg, left, w, before, v);
    }
    if !OpenBoxesSent(reg, w, before) {
      var v := StaleWitness(reg, left, w, before);
    }
  }

  lemma SafeBecause(w: Wire<GBox>, before: Boxes, after: Boxes)
    requires Added(before, after).Keys !! DelOf(w)
    requires forall r | r in before && r in after && before[r] != after[r] :: r in SentBy(w)
    ensures PatchSafe(w, before, after)
  {
  }
}
