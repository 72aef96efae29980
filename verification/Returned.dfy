/**
  What a returned value does to the step it is added to: when an object that has a box there
  gets a second one, and when the step passes its cap of 200 boxes.  Both happen because the
  keys of the step are counted in the registry, and the snapshot that ran in between has
  already pruned it to what is visible now.
 */
module Returned {
  import opened Options
  import opened Numbers
  import opened HeapDelta
  import opened GdbHeap
  import opened Pointers
  import opened Patching
  import opened Driver
  import opened Drawings
  import opened Identity
  import opened Grounding

  /** The keys that still count against the cap of the step. */
  function Known(reg: Reg, before: Boxes): set<Key> {
    KeysWithin(reg.ids, before.Keys)
  }

  // ---- how many boxes -----------------------------------------------------------------------

  /** The keys drawn anew are exactly the new boxes, each with its own. */
  lemma NewKeys(reg: Reg, left: nat, before: Boxes, returned: GValue, mem: Memory)
    requires Fits(reg, before)
    ensures var note := Annotated(reg, left, before, returned, mem); var h := note.e.h;
            && Inv(h, {}) && Known(reg, before) <= h.used <= h.ids.Keys && |h.used| <= MAX_HEAP_OBJECTS
            && before.Keys <= h.names.Keys && SameNames(reg.names, h.names)
            && Added(before, note.after).Keys == h.origin.Keys && note.after.Keys == before.Keys + h.origin.Keys
            && before.Keys !! h.origin.Keys
            && (forall k | k in h.used :: h.ids[k] in h.names && h.names[h.ids[k]] == k)
            && (forall k | k in h.used :: (k in Known(reg, before) <==> h.ids[k] in before))
            && (forall k | k in h.used - Known(reg, before) :: h.ids[k] in h.origin)
            && (forall r | r in h.origin :: exists k :: k in h.used - Known(reg, before) && h.ids[k] == r)
  {
    hide LinkBoxes, DrawnOk, QueueOk, Annotated, AllResolved, TurnsMet, Rests, SlotSettled, SlotG, LinkSlot,
         LinkBox, OriginOk, Keeps, UsedOk, RegistryOk;
    NoteIsDrawn(reg, left, before, returned, mem);
    var note := Annotated(reg, left, before, returned, mem);
    UsedBoxes(note.e.h);
    KeptKeys(StateOf(reg, before), note.e.h);
    LinkedKeys(note.e.h.boxes, note.e.h.byAddress);
    KnownOrNew(reg, before, note.e.h);
    forall r | r in note.e.h.origin
      ensures exists k :: k in note.e.h.used - Known(reg, before) && note.e.h.ids[k] == r
    {
      var k := BoxKey(note.e.h, r);
    }
  }

  lemma KnownOrNew(reg: Reg, before: Boxes, h: HeapState)
    requires Fits(reg, before) && Keeps(StateOf(reg, before), h)
    requires RegistryOk(h.ids, h.counter, h.names) && UsedOk(h) && h.base == before.Keys
    ensures Known(reg, before) <= h.used && h.origin.Keys !! before.Keys
    ensures forall k | k in h.used :: k in h.ids && h.ids[k] in h.names && h.names[h.ids[k]] == k
    ensures forall k | k in h.used :: (k in Known(reg, before) <==> h.ids[k] in before)
    ensures forall k | k in h.used - Known(reg, before) :: h.ids[k] in h.origin
  {
    forall r | r in h.origin ensures r !in before {
      assert OriginOk(h, r);
    }
    hide OriginOk;
  }

  /** The exact size of a patched step: what was there, and every used key that no longer counted. */
  lemma NoteSize(reg: Reg, left: nat, before: Boxes, returned: GValue, mem: Memory)
    requires Fits(reg, before)
    ensures var note := Annotated(reg, left, before, returned, mem);
            |note.after| + |Known(reg, before)| == |before| + |note.e.h.used| && |note.e.h.used| <= MAX_HEAP_OBJECTS
  {
    hide Annotated, Inv, Fits, Known, SameNames, Added;
    NewKeys(reg, left, before, returned, mem);
    var note := Annotated(reg, left, before, returned, mem);
    var h, known := note.e.h, Known(reg, before);
    assert h.used == known + (h.used - known);
    OneKeyEach(h.ids, h.names, h.used - known, h.origin.Keys);
    assert |note.after| == |note.after.Keys| == |before.Keys| + |h.origin.Keys| && |before| == |before.Keys|;
  }

  lemma OneKeyEach(ids: map<Key, Id>, names: map<Id, Key>, keys: set<Key>, boxes: set<Id>)
    requires keys <= ids.Keys
    requires forall k | k in keys :: ids[k] in boxes && ids[k] in names && names[ids[k]] == k
    requires forall r | r in boxes :: exists k :: k in keys && ids[k] == r
    ensures |keys| == |boxes|
  {
    var images := set k | k in keys :: ids[k];
    assert images == boxes;
    ImagesBound(ids, keys, images);
    InjectiveBound(ids, keys, boxes);
  }

  // ---- a second id ----------------------------------------------------------------------------

  /** Two boxes of the patched step, one of them new, are of the same object. */
  ghost predicate Doubles(before: Boxes, note: Note) {
    exists r, x :: r in before && x in Added(before, note.after)
                   && r in note.e.h.names && x in note.e.h.names && note.e.h.names[r] == note.e.h.names[x]
  }

  /** The returned value shows an object that has a box in the step and is no longer registered. */
  ghost predicate ShowsForgotten(reg: Reg, before: Boxes, note: Note) {
    exists r :: r in before && r in reg.names && reg.names[r] in note.e.h.used && reg.names[r] !in Known(reg, before)
  }

  /** An object gets a second box in one step exactly when it was boxed there, the snapshot in
      between has pruned it, and the returned value shows it. */
  lemma SecondIdIff(reg: Reg, left: nat, before: Boxes, returned: GValue, mem: Memory)
    requires Fits(reg, before)
    ensures var note := Annotated(reg, left, before, returned, mem);
            Doubles(before, note) <==> ShowsForgotten(reg, before, note)
  {
    hide Annotated, Inv, Known, Added, RegistryOk, KeysWithin, Doubles, ShowsForgotten;
    NewKeys(reg, left, before, returned, mem);
    var note := Annotated(reg, left, before, returned, mem);
    if Doubles(before, note) {
      DoubleIsForgotten(reg, before, note);
    }
    if ShowsForgotten(reg, before, note) {
      ForgottenDoubles(reg, before, note);
    }
  }

  lemma DoubleIsForgotten(reg: Reg, before: Boxes, note: Note)
    requires Doubles(before, note) && before.Keys <= reg.names.Keys && SameNames(reg.names, note.e.h.names)
    requires var h := note.e.h;
             && h.used <= h.ids.Keys && (forall k | k in h.used :: h.ids[k] in h.names && h.names[h.ids[k]] == k)
             && forall x | x in Added(before, note.after) ::
                exists k :: k in h.used - Known(reg, before) && h.ids[k] == x
    ensures ShowsForgotten(reg, before, note)
  {
    hide Added, Known;
    var h := note.e.h;
    var r, x :| r in before && x in Added(before, note.after) && r in h.names && x in h.names
      && h.names[r] == h.names[x];
    var k :| k in h.used - Known(reg, before) && h.ids[k] == x;
    assert reg.names[r] == k;
  }

  lemma ForgottenDoubles(reg: Reg, before: Boxes, note: Note)
    requires ShowsForgotten(reg, before, note) && SameNames(reg.names, note.e.h.names)
    requires var h := note.e.h;
             && h.used <= h.ids.Keys && (forall k | k in h.used :: h.ids[k] in h.names && h.names[h.ids[k]] == k)
             && forall k | k in h.used - Known(reg, before) :: h.ids[k] in Added(before, note.after)
    ensures Doubles(before, note)
  {
    hide Added, Known;
    var h := note.e.h;
    var r :| r in before && r in reg.names && reg.names[r] in h.used && reg.names[r] !in Known(reg, before);
    var x := h.ids[reg.names[r]];
    assert x in Added(before, note.after) && h.names[x] == h.names[r];
  }

  lemma FirstKeyUsed(v: GValue, depth: nat, h: HeapState, open: set<Id>)
    requires Inv(h, open) && KeyOf(v).Some? && depth < MAX_DEPTH && |h.used| < MAX_HEAP_OBJECTS
    ensures KeyOf(v).value in AfterValue(v, depth, h).0.used
  {
    hide Inv, Adds, AfterIdentify, AfterContents, KeyOf, DrawnOk, UsedOk, QueueOk, RegistryOk;
    var key := KeyOf(v).value;
    IdentifiedOrFull(h, v, key, open);
    var (h1, rid) := AfterIdentify(v, key, h);
    BoxDrawn(v, key, depth, h, open);
    NotScalar(v);
    if rid.Some? && rid.value !in h1.boxes {
      IdentifiedId(h, h1, v, key, rid.value);
      ReservedKeepsInv(h, WithReserved(h1, rid.value, v, depth), v, key, depth, open);
      ContentsDrawn(v, depth, WithReserved(h1, rid.value, v, depth), open + {rid.value});
      StillUsed(WithReserved(h1, rid.value, v, depth),
        AfterContents(v, depth, WithReserved(h1, rid.value, v, depth)).0, key);
    }
  }

  lemma NotScalar(v: GValue)
    requires KeyOf(v).Some?
    ensures !v.Scalar? && !v.Pointer? && !v.Text? && !v.Other?
  {
  }

  lemma StillUsed(g: HeapState, h: HeapState, key: Key)
    requires Adds(g, h) && key in g.used
    ensures key in h.used
  {
  }

  lemma ReturnedIsUsed(reg: Reg, left: nat, before: Boxes, returned: GValue, mem: Memory)
    requires Fits(reg, before) && KeyOf(returned).Some? && |Known(reg, before)| < MAX_HEAP_OBJECTS
    ensures KeyOf(returned).value in Annotated(reg, left, before, returned, mem).e.h.used
  {
    hide Inv, AfterValue, KeyOf, Keeps, AllResolved, ReadOk, Expand, TurnsMet, Rests, DropsWhenFull, Queue, KeysWithin;
    var g := StateOf(reg, before);
    StateIsInv(reg, before);
    FirstKeyUsed(returned, 0, g, {});
    ValueDrawn(returned, 0, g, {});
    var (h, _) := AfterValue(returned, 0, g);
    AddedAllPending(g, h, mem);
    ExpansionResolves(h, left, mem);
    KeptUsed(h, AfterExpansion(h, left, mem).h);
  }

  lemma KeptUsed(g: HeapState, h: HeapState)
    requires Keeps(g, h)
    ensures g.used <= h.used
  {
  }

  /** So returning any object that the step has boxed and the registry has forgotten doubles it. */
  lemma ReturnedAgainDoubles(reg: Reg, left: nat, before: Boxes, returned: GValue, mem: Memory, r: Id)
    requires Fits(reg, before) && |Known(reg, before)| < MAX_HEAP_OBJECTS
    requires r in before && KeyOf(returned) == Some(reg.names[r]) && reg.names[r] !in Known(reg, before)
    ensures Doubles(before, Annotated(reg, left, before, returned, mem))
  {
    hide Annotated, Inv, Known, Doubles, KeysWithin;
    ReturnedIsUsed(reg, left, before, returned, mem);
    SecondIdIff(reg, left, before, returned, mem);
  }

  /** Before anything is drawn: no returned value can double an object of the step exactly
      when every one of its boxes is of an object that is still registered. */
  lemma NeverDoublesIff(reg: Reg, left: nat, before: Boxes)
    requires Fits(reg, before) && |before| <= MAX_HEAP_OBJECTS
    ensures (forall returned, mem :: !Doubles(before, Annotated(reg, left, before, returned, mem)))
       <==> (forall r, v | r in before && KeyOf(v) == Some(reg.names[r]) :: reg.names[r] in Known(reg, before))
  {
    hide Annotated, Known, Doubles, KeysWithin, KeyOf, RegistryOk;
    if returned, mem :| Doubles(before, Annotated(reg, left, before, returned, mem)) {
      var r, v := DoubledValue(reg, left, before, returned, mem);
      assert KeyOf(v) == Some(reg.names[r]) && reg.names[r] !in Known(reg, before);
    }
    if r, v :| r in before && KeyOf(v) == Some(reg.names[r]) && reg.names[r] !in Known(reg, before) {
      OneForgotten(reg, before, r);
      ReturnedAgainDoubles(reg, left, before, v, map[], r);
    }
  }

  lemma DoubledValue(reg: Reg, left: nat, before: Boxes, returned: GValue, mem: Memory) returns (r: Id, v: GValue)
    requires Fits(reg, before) && Doubles(before, Annotated(reg, left, before, returned, mem))
    ensures r in before && KeyOf(v) == Some(reg.names[r]) && reg.names[r] !in Known(reg, before)
  {
    hide Annotated, Known, Doubles, KeysWithin, KeyOf, RegistryOk, DrawnOk, QueueOk, Added;
    SecondIdIff(reg, left, before, returned, mem);
    NewKeys(reg, left, before, returned, mem);
    var h := Annotated(reg, left, before, returned, mem).e.h;
    r :| r in before && r in reg.names && reg.names[r] in h.used && reg.names[r] !in Known(reg, before);
    var k := reg.names[r];
    assert OriginOk(h, h.ids[k]);
    v := h.origin[h.ids[k]].0;
  }

  lemma OneForgotten(reg: Reg, before: Boxes, r: Id)
    requires Fits(reg, before) && r in before && reg.names[r] !in Known(reg, before)
    ensures |Known(reg, before)| < |before|
  {
    InjectiveBound(reg.ids, Known(reg, before), before.Keys - {r});
    assert |before| == |before.Keys| == |before.Keys - {r}| + 1;
  }

  // ---- an id of an earlier step -----------------------------------------------------------------

  /** An object that had the id `r` in any earlier step has it in the patched step if and only if it
      is still registered under it when the value is drawn. */
  lemma KeepsEarlierIdIff(reg: Reg, left: nat, before: Boxes, returned: GValue, mem: Memory, r: Id)
    requires Fits(reg, before) && r in reg.names
    requires reg.names[r] in Annotated(reg, left, before, returned, mem).e.h.ids
    ensures var k := reg.names[r];
            Annotated(reg, left, before, returned, mem).e.h.ids[k] == r <==> k in reg.ids && reg.ids[k] == r
  {
    hide Annotated, Added, KeysWithin, Images;
    NoteTies(reg, left, before, returned, mem);
  }

  /** A new box of the patched step is of an object that had another id in the earlier step `was`. */
  ghost predicate Renumbers(was: Boxes, before: Boxes, note: Note) {
    exists r, x :: r in was && x in Added(before, note.after) && r != x
                   && r in note.e.h.names && x in note.e.h.names && note.e.h.names[r] == note.e.h.names[x]
  }

  /** The object of `r` has its box already, or its new one will have the id `r`. */
  ghost predicate StillNamed(reg: Reg, before: Boxes, r: Id, k: Key) {
    k in Known(reg, before) || (k in reg.ids && reg.ids[k] == r)
  }

  /** Before anything is drawn: no returned value can give an object of an earlier step another id
      exactly when every one of them still has its box in the step or its id in the registry, or the
      step is full. */
  lemma NeverRenumbersIff(reg: Reg, left: nat, was: Boxes, before: Boxes)
    requires Fits(reg, before) && was.Keys <= reg.names.Keys
    ensures (forall returned, mem :: !Renumbers(was, before, Annotated(reg, left, before, returned, mem)))
       <==> (|Known(reg, before)| < MAX_HEAP_OBJECTS ==>
               forall r, v | r in was && KeyOf(v) == Some(reg.names[r]) :: StillNamed(reg, before, r, reg.names[r]))
  {
    hide Annotated, Known, Renumbers, KeysWithin, KeyOf, StillNamed, Fits;
    if returned, mem :| Renumbers(was, before, Annotated(reg, left, before, returned, mem)) {
      var r, v := RenumberedValue(reg, left, was, before, returned, mem);
      assert KeyOf(v) == Some(reg.names[r]) && !StillNamed(reg, before, r, reg.names[r]);
    }
    if r, v :| |Known(reg, before)| < MAX_HEAP_OBJECTS
               && r in was && KeyOf(v) == Some(reg.names[r]) && !StillNamed(reg, before, r, reg.names[r]) {
      ReturnedIsRenumbered(reg, left, was, before, v, map[], r);
    }
  }

  lemma RenumberedValue(reg: Reg, left: nat, was: Boxes, before: Boxes, returned: GValue, mem: Memory)
      returns (r: Id, v: GValue)
    requires Fits(reg, before) && was.Keys <= reg.names.Keys
    requires Renumbers(was, before, Annotated(reg, left, before, returned, mem))
    ensures r in was && KeyOf(v) == Some(reg.names[r]) && !StillNamed(reg, before, r, reg.names[r])
    ensures |Known(reg, before)| < MAX_HEAP_OBJECTS
  {
    hide Annotated, Known, KeysWithin, KeyOf, RegistryOk, DrawnOk, QueueOk, Added, UsedOk;
    NewKeys(reg, left, before, returned, mem);
    var note := Annotated(reg, left, before, returned, mem);
    var h := note.e.h;
    var x: Id;
    r, x :| r in was && x in Added(before, note.after) && r != x
            && r in h.names && x in h.names && h.names[r] == h.names[x];
    var k := reg.names[r];
    assert exists key :: key in h.used - Known(reg, before) && h.ids[key] == x;
    assert k in h.used - Known(reg, before) && h.ids[k] == x;
    v := NewValue(h, x);
    KeepsEarlierIdIff(reg, left, before, returned, mem, r);
    SmallerThan(Known(reg, before), h.used, k);
  }

  lemma NewValue(h: HeapState, x: Id) returns (v: GValue)
    requires Inv(h, {}) && x in h.origin
    ensures KeyOf(v).Some? && x in h.names && h.names[x] == KeyOf(v).value
  {
    hide DrawnOk, QueueOk;
    assert OriginOk(h, x);
    v := h.origin[x].0;
  }

  lemma SmallerThan(known: set<Key>, used: set<Key>, k: Key)
    requires known <= used && k in used - known && |used| <= MAX_HEAP_OBJECTS
    ensures |known| < MAX_HEAP_OBJECTS
  {
    SubsetSize(known + {k}, used);
  }

  lemma ReturnedIsRenumbered(reg: Reg, left: nat, was: Boxes, before: Boxes, returned: GValue, mem: Memory, r: Id)
    requires Fits(reg, before) && was.Keys <= reg.names.Keys && |Known(reg, before)| < MAX_HEAP_OBJECTS
    requires r in was && KeyOf(returned) == Some(reg.names[r]) && !StillNamed(reg, before, r, reg.names[r])
    ensures Renumbers(was, before, Annotated(reg, left, before, returned, mem))
  {
    hide Annotated, Known, KeysWithin, KeyOf, RegistryOk, Added, Inv;
    var note := Annotated(reg, left, before, returned, mem);
    var k := reg.names[r];
    ReturnedIsUsed(reg, left, before, returned, mem);
    NewKeys(reg, left, before, returned, mem);
    KeepsEarlierIdIff(reg, left, before, returned, mem, r);
    var x := note.e.h.ids[k];
    assert x in Added(before, note.after) && x != r;
  }

  // ---- a value that fills a step ----------------------------------------------------------------

  function NodeAt(first: nat, n: nat): GValue { Struct(Some(first + 31 + n), "node", []) }

  function NodeKey(first: nat, n: nat): Key { Key("s", At(Some(first + 31 + n)), "node", None) }

  function RowAt(first: nat, i: nat): GValue {
    Array(Some(first + 1 + i), "row", seq(30, j requires 0 <= j < 30 => Some(NodeAt(first, 30 * i + j))))
  }

  function RowKey(first: nat, i: nat): Key { Key("a", At(Some(first + 1 + i)), "row", None) }

  /** Thirty rows of thirty structs, at their own addresses from `first` on. */
  function Grid(first: nat): GValue {
    Array(Some(first), "grid", seq(30, i requires 0 <= i < 30 => Some(RowAt(first, i))))
  }

  function GridKey(first: nat): Key { Key("a", At(Some(first)), "grid", None) }

  ghost function GridPlaces(first: nat): iset<Sight> {
    iset{(Grid(first), 0)} + (iset i | 0 <= i < 30 :: (RowAt(first, i), 1))
      + (iset n | 0 <= n < 900 :: (NodeAt(first, n), 2))
  }

  lemma GridIsClosed(first: nat, mem: Memory)
    ensures ClosedUnder(GridPlaces(first), mem) && (Grid(first), 0) in GridPlaces(first)
  {
    var places := GridPlaces(first);
    forall x, w | x in places && IsPart(w, x.0) ensures (w, x.1 + 1) in places {
      if x == (Grid(first), 0) {
        var i :| 0 <= i < Drawn(x.0) && Grid(first).cells[i] == Some(w);
        assert (RowAt(first, i), 1) in places;
      } else if i :| 0 <= i < 30 && x == (RowAt(first, i), 1) {
        var j :| 0 <= j < Drawn(x.0) && RowAt(first, i).cells[j] == Some(w);
        assert 0 <= 30 * i + j < 900;
        assert (NodeAt(first, 30 * i + j), 2) in places;
      }
    }
  }

  ghost predicate AddressesBelow(keys: set<Key>, first: nat) {
    forall k | k in keys && k.place.At? && k.place.addr.Some? :: k.place.addr.value < first
  }

  /** A box drawn for a grid's key was drawn from that very part of the grid. */
  lemma GridOrigin(h: HeapState, first: nat, v: GValue, depth: nat)
    requires Inv(h, {}) && Within(h, GridPlaces(first)) && (v, depth) in GridPlaces(first)
    requires KeyOf(v).Some? && KeyOf(v).value in h.used && h.ids[KeyOf(v).value] !in h.base
    ensures BoxSettled(v, depth, h)
  {
    hide BoxSettled, BoxG, QueueOk;
    var r := h.ids[KeyOf(v).value];
    assert OriginOk(h, r) && DrawnOk(h, r);
    var x := h.origin[r];
    assert KeyOf(x.0) == KeyOf(v);
    SameGridPart(first, x, (v, depth));
  }

  lemma SameGridPart(first: nat, x: Sight, y: Sight)
    requires x in GridPlaces(first) && y in GridPlaces(first) && KeyOf(x.0) == KeyOf(y.0)
    ensures x == y
  {
    if i, j :| 0 <= i < 30 && 0 <= j < 30 && x == (RowAt(first, i), 1) && y == (RowAt(first, j), 1) {
      assert KeyOf(x.0) == Some(RowKey(first, i)) && KeyOf(y.0) == Some(RowKey(first, j));
    }
  }

  /** Keys that were there before are not the grid's. */
  ghost predicate Unused(h: HeapState, first: nat) {
    AddressesBelow((set k | k in h.used && k in h.ids && h.ids[k] in h.base), first)
  }

  lemma NodeIsUsed(h: HeapState, first: nat, n: nat)
    requires Inv(h, {}) && Within(h, GridPlaces(first)) && SlotSettled(Grid(first), 0, h) && Unused(h, first)
    requires |h.used| < MAX_HEAP_OBJECTS && n < 900
    ensures NodeKey(first, n) in h.used
  {
    hide Inv, Within, BoxSettled, GridPlaces, Unused, AddressesBelow;
    var i, j := n / 30, n % 30;
    GridPlacesAre(first);
    UsedHaveIds(h);
    assert GridKey(first) in h.used && KeyOf(Grid(first)) == Some(GridKey(first));
    NotInBase(h, first, GridKey(first), first);
    GridOrigin(h, first, Grid(first), 0);
    RowSettled(h, first, i);
    NotInBase(h, first, RowKey(first, i), first + 1 + i);
    GridOrigin(h, first, RowAt(first, i), 1);
    NodeSettled(h, first, i, j);
  }

  lemma NotInBase(h: HeapState, first: nat, k: Key, a: nat)
    requires Unused(h, first) && k in h.used && k in h.ids && k.place == At(Some(a)) && a >= first
    ensures h.ids[k] !in h.base
  {
  }

  /** Whatever was drawn before, a grid at unused addresses fills the step. */
  lemma GridFills(h: HeapState, first: nat)
    requires Inv(h, {}) && Within(h, GridPlaces(first)) && SlotSettled(Grid(first), 0, h) && Unused(h, first)
    ensures |h.used| == MAX_HEAP_OBJECTS
  {
    hide Inv, Within, SlotSettled, GridPlaces, Unused, Grid, NodeKey;
    TooManyUsed(h);
    if |h.used| < MAX_HEAP_OBJECTS {
      var nodes := set n | 0 <= n < 201 :: NodeKey(first, n);
      forall n: nat | n < 201 ensures NodeKey(first, n) in h.used {
        NodeIsUsed(h, first, n);
      }
      ManyNodes(first, 201);
      SubsetSize(nodes, h.used);
    }
  }

  lemma TooManyUsed(h: HeapState)
    requires Inv(h, {})
    ensures |h.used| <= MAX_HEAP_OBJECTS
  {
    hide DrawnOk, OriginOk;
  }

  lemma UsedHaveIds(h: HeapState)
    requires Inv(h, {})
    ensures h.used <= h.ids.Keys
  {
    hide DrawnOk, OriginOk;
  }

  lemma GridPlacesAre(first: nat)
    ensures (Grid(first), 0) in GridPlaces(first)
    ensures forall i | 0 <= i < 30 :: (RowAt(first, i), 1) in GridPlaces(first)
  {
  }

  lemma RowSettled(h: HeapState, first: nat, i: nat)
    requires i < 30 && BoxSettled(Grid(first), 0, h) && |h.used| < MAX_HEAP_OBJECTS
    ensures RowKey(first, i) in h.used
  {
    assert Grid(first).cells[i] == Some(RowAt(first, i));
    assert SlotSettled(RowAt(first, i), 1, h);
  }

  lemma NodeSettled(h: HeapState, first: nat, i: nat, j: nat)
    requires i < 30 && j < 30 && BoxSettled(RowAt(first, i), 1, h) && |h.used| < MAX_HEAP_OBJECTS
    ensures NodeKey(first, 30 * i + j) in h.used
  {
    assert RowAt(first, i).cells[j] == Some(NodeAt(first, 30 * i + j));
    assert SlotSettled(NodeAt(first, 30 * i + j), 2, h);
  }

  lemma {:induction false} ManyNodes(first: nat, n: nat)
    ensures |set i | 0 <= i < n :: NodeKey(first, i)| == n
  {
    var all := set i | 0 <= i < n :: NodeKey(first, i);
    if n > 0 {
      ManyNodes(first, n - 1);
      var rest := set i | 0 <= i < n - 1 :: NodeKey(first, i);
      assert all == rest + {NodeKey(first, n - 1)};
    } else {
      assert all == {};
    }
  }

  lemma {:induction false} FreshAddress(keys: set<Key>) returns (first: nat)
    ensures first > 0 && AddressesBelow(keys, first)
    decreases keys
  {
    if keys == {} {
      first := 1;
    } else {
      var k :| k in keys;
      var rest := FreshAddress(keys - {k});
      first := if k.place.At? && k.place.addr.Some? then Max(rest, k.place.addr.value + 1) else rest;
    }
  }

  // ---- the cap ------------------------------------------------------------------------------------

  /** The cap of the step holds whatever is returned exactly when every one of its boxes is
      still registered; the caller can count that before drawing anything. */
  lemma CapHoldsIff(reg: Reg, left: nat, before: Boxes)
    requires Fits(reg, before) && |before| <= MAX_HEAP_OBJECTS
    ensures (forall returned, mem :: |Annotated(reg, left, before, returned, mem).after| <= MAX_HEAP_OBJECTS)
       <==> |Known(reg, before)| == |before|
  {
    hide Annotated, Known, KeysWithin;
    if |Known(reg, before)| == |before| {
      forall returned, mem ensures |Annotated(reg, left, before, returned, mem).after| <= MAX_HEAP_OBJECTS {
        NoteSize(reg, left, before, returned, mem);
      }
    } else {
      KnownIsFewer(reg, before);
      var first := FreshAddress(Known(reg, before));
      GridPassesCap(reg, left, before, first, map[]);
    }
  }

  lemma KnownIsFewer(reg: Reg, before: Boxes)
    requires Fits(reg, before)
    ensures |Known(reg, before)| <= |before|
  {
    SmallOverlap(reg.ids, reg.counter, reg.names, before);
  }

  lemma GridPassesCap(reg: Reg, left: nat, before: Boxes, first: nat, mem: Memory)
    requires Fits(reg, before) && |Known(reg, before)| < |before|
    requires AddressesBelow(Known(reg, before), first)
    ensures |Annotated(reg, left, before, Grid(first), mem).after| == MAX_HEAP_OBJECTS + |before| - |Known(reg, before)|
  {
    hide Annotated, Known, KeysWithin, Grid, GridPlaces, Within, SlotSettled, LinkBoxes, SlotG, AllResolved,
         Inv, Rests, TurnsMet;
    var note := Annotated(reg, left, before, Grid(first), mem);
    GridIsClosed(first, mem);
    NoteWithin(reg, left, before, Grid(first), mem, GridPlaces(first));
    NoteIsDrawn(reg, left, before, Grid(first), mem);
    NewKeys(reg, left, before, Grid(first), mem);
    GridFills(note.e.h, first);
    NoteSize(reg, left, before, Grid(first), mem);
  }
}
